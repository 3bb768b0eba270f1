/** A second, repaired version of the file layer. It differs from inode.c in six points: the
    indirect pointer is num[12] for readers too; the indirect block is loaded before it is used and
    counts as zeros when there is none; the shrink loop starts at n; the last block of a shrink is
    cut to the file size; ids are bounded by the number of blocks; and at exactly 268 blocks, where
    the scan of inode.c finds no zero entry and its reader goes on past the last one, counting and
    reading stop at the end of the full indirect block. With these, what is written is what is read
    for up to 12 + 256 blocks. */
module Repaired {
  import opened Bytes
  import opened Inodes
  import opened Volumes
  import opened Chains
  import opened Content

  const GROUP := 256
  const MAX_BLOCKS := 268

  /** The pointers held by the indirect block `at`, all zero when there is none. */
  function Indirect(v: Volume, at: int): (group: seq<int>)
    ensures |group| == GROUP
  {
    if at in v.data then DecodeShorts(v.data[at][..2 * GROUP], GROUP) else seq(GROUP, _ => 0)
  }

  /** Logical block i of a file is num[i] below 12 and entry i - 12 of the indirect block above. */
  function AllPointers(v: Volume, num: seq<int>): (ptrs: seq<int>)
    requires |num| == NUM_ENTRIES
    ensures |ptrs| == MAX_BLOCKS
    ensures forall i :: 0 <= i < MAX_BLOCKS ==>
      ptrs[i] == if i < DIRECT then num[i] else Indirect(v, num[DIRECT])[i - DIRECT]
  {
    num[..DIRECT] + Indirect(v, num[DIRECT])
  }

  // ----------------------------------------------------------------- write

  /** The blocks of the file itself: rewritten, appended or released from n on. */
  function WriteBlocks(v: Volume, ptrs: seq<int>, file: seq<byte>): (r: (Volume, seq<int>))
    requires |ptrs| == MAX_BLOCKS && BlocksFor(|file|) <= MAX_BLOCKS
    ensures |r.1| == MAX_BLOCKS
  {
    var b, n, chunks := Count(ptrs, 0), BlocksFor(|file|), Chunks(file, |file|);
    if b < n then
      var (w, ids) := Allocate(Rewrite(v, ptrs, chunks, b, BLOCKS), chunks[b..], n - b);
      (w, ptrs[..b] + ids + ptrs[n..])
    else if b > n then
      var kept := ptrs[..n] + seq(b - n, _ => 0) + ptrs[b..];
      (Rewrite(Release(v, ptrs, n, b - n, BLOCKS), kept, chunks, n, BLOCKS), kept)
    else (Rewrite(v, ptrs, chunks, n, BLOCKS), ptrs)
  }

  predicate Shorts(xs: seq<int>) {
    forall x :: x in xs ==> Short(x)
  }

  /** The indirect block follows: rewritten, made on the first block beyond twelve, or released. */
  function StoreGroup(u: Volume, at: int, group: seq<int>, b: nat, n: nat): (r: (Volume, int))
    requires Shorts(group)
  {
    if b == n then (u, at)
    else if b > n && n < DIRECT then (DeleteBlock(u, at, BLOCKS), 0)
    else if at != 0 then (ModifyBlock(u, at, EncodeShorts(group), BLOCKS), at)
    else if n > DIRECT || b > n then WriteBlock(u, EncodeShorts(group))
    else (u, 0)
  }

  function WriteFile(v: Volume, node: Inode, file: seq<byte>): (r: (Volume, Inode))
    requires |node.num| == NUM_ENTRIES && BlocksFor(|file|) <= MAX_BLOCKS
    requires Shorts(WriteBlocks(v, AllPointers(v, node.num), file).1)
  {
    var ptrs := AllPointers(v, node.num);
    var (u, after) := WriteBlocks(v, ptrs, file);
    var (w, at) := StoreGroup(u, node.num[DIRECT], after[DIRECT..], Count(ptrs, 0), BlocksFor(|file|));
    (w, node.(size := |file|, num := after[..DIRECT] + [at] + node.num[DIRECT + 1..]))
  }

  // ------------------------------------------------------------------ read

  function ReadFile(v: Volume, node: Inode): Outcome
    requires |node.num| == NUM_ENTRIES && 0 <= node.size
    requires forall k :: 0 <= k < Count(AllPointers(v, node.num), 0) ==> AllPointers(v, node.num)[k] in v.data
  {
    var ptrs := AllPointers(v, node.num);
    var p := Count(ptrs, 0);
    if node.size == 0 then Contents([0])
    else if p == 0 || !((p - 1) * BLOCK_SIZE <= node.size <= p * BLOCK_SIZE) then Undefined
    else Contents(Joined(v, ptrs, p)[..node.size] + [0])
  }

  // ------------------------------------------------------------- invariant

  /** The pointers in use come first, name distinct allocated data blocks, and avoid the indirect
      block `at`. */
  ghost predicate ChainOk(v: Volume, ptrs: seq<int>, at: int) {
    && Sized(v) && |ptrs| == MAX_BLOCKS
    && (forall k :: Count(ptrs, 0) <= k < MAX_BLOCKS ==> ptrs[k] == 0)
    && (forall k :: 0 <= k < Count(ptrs, 0) ==> FIRST_DATA <= ptrs[k] < BLOCKS && ptrs[k] in v.used && ptrs[k] != at)
    && Distinct(ptrs[..Count(ptrs, 0)])
    && (at != 0 ==> FIRST_DATA <= at < BLOCKS && at in v.used)
  }

  ghost predicate FileOk(v: Volume, num: seq<int>) {
    |num| == NUM_ENTRIES && ChainOk(v, AllPointers(v, num), num[DIRECT])
  }

  /** Room for the new blocks and, on the first crossing of twelve, for the indirect one. */
  ghost predicate Room(v: Volume, num: seq<int>, size: nat)
    requires |num| == NUM_ENTRIES
  {
    BlocksFor(size) - Count(AllPointers(v, num), 0)
      + (if num[DIRECT] == 0 && BlocksFor(size) > DIRECT then 1 else 0) <= |FreeIds(v)|
  }

  /** The file's bytes are in the chain's blocks. */
  ghost predicate Holds(v: Volume, ptrs: seq<int>, file: seq<byte>)
    requires BlocksFor(|file|) <= |ptrs|
  {
    forall i :: 0 <= i < BlocksFor(|file|) ==> HoldsBlock(v, ptrs[i], file, i)
  }

  ghost predicate HoldsBlock(v: Volume, id: int, file: seq<byte>, i: int) {
    id in v.data
    && forall j :: 0 <= j < BLOCK_SIZE && 0 <= i * BLOCK_SIZE + j < |file| ==> v.data[id][j] == file[i * BLOCK_SIZE + j]
  }

  /** Blocks in use that are not the file's own keep their bits and bytes. */
  ghost predicate OthersKept(v: Volume, ptrs: seq<int>, w: Volume) {
    forall x :: x in v.used && x in v.data && (x !in ptrs || x == 0) ==>
      x in w.used && x in w.data && w.data[x] == v.data[x]
  }

  // ------------------------------------------------------------ data phase

  lemma ChunkFits(file: seq<byte>, i: nat, b: Block, id: int, v: Volume)
    requires i < BlocksFor(|file|) && id in v.data
    requires v.data[id] == Overlay(b, Chunks(file, |file|)[i]) || v.data[id] == Padded(Chunks(file, |file|)[i])
    ensures HoldsBlock(v, id, file, i)
  {
    var c := Chunks(file, |file|)[i];
    assert c == file[i * BLOCK_SIZE..i * BLOCK_SIZE + ChunkLen(|file|, i)];
  }

  lemma ChainOf(v: Volume, ptrs: seq<int>, at: int, k: nat)
    requires ChainOk(v, ptrs, at) && k <= MAX_BLOCKS
    ensures Chain(v, ptrs, k)
  {
    var p := Count(ptrs, 0);
    assert forall i :: 0 <= i < p ==> ptrs[..p][i] == ptrs[i];
  }

  /** What the data phase must establish. */
  ghost predicate Written(v: Volume, ptrs: seq<int>, at: int, u: Volume, after: seq<int>, file: seq<byte>)
    requires BlocksFor(|file|) <= MAX_BLOCKS && |after| == MAX_BLOCKS
  {
    && ChainOk(u, after, at) && Count(after, 0) == BlocksFor(|file|)
    && Holds(u, after, file) && OthersKept(v, ptrs, u)
    && u.data.Keys == v.data.Keys
    && (forall k :: 0 <= k < MAX_BLOCKS ==> OwnOrFresh(v, ptrs, after[k]))
    && UsedFollows(v, ptrs, u, after)
  }

  /** The blocks a list of pointers names. */
  ghost function Held(ptrs: seq<int>): set<int> {
    set x | x in ptrs && x != 0
  }

  /** The bitmap gives up what was held and takes what is held now, and nothing else. */
  ghost predicate UsedFollows(v: Volume, ptrs: seq<int>, u: Volume, after: seq<int>) {
    u.used == v.used - Held(ptrs) + Held(after)
  }

  lemma SameHeld(v: Volume, ptrs: seq<int>, at: int, u: Volume)
    requires ChainOk(v, ptrs, at) && u.used == v.used
    ensures UsedFollows(v, ptrs, u, ptrs)
  {
    hide Distinct;
    forall x | x in Held(ptrs)
      ensures x in v.used
    {
      var k :| 0 <= k < |ptrs| && ptrs[k] == x;
    }
  }

  lemma MoreHeld(v: Volume, ptrs: seq<int>, at: int, w: Volume, ids: seq<int>)
    requires ChainOk(v, ptrs, at) && Count(ptrs, 0) + |ids| <= MAX_BLOCKS
    requires w.used == v.used + Elems(ids) && forall i :: 0 <= i < |ids| ==> ids[i] != 0
    ensures var b := Count(ptrs, 0); UsedFollows(v, ptrs, w, ptrs[..b] + ids + ptrs[b + |ids|..])
  {
    var b, n := Count(ptrs, 0), Count(ptrs, 0) + |ids|;
    var after := ptrs[..b] + ids + ptrs[n..];
    SameHeld(v, ptrs, at, v);
    assert Held(after) == Held(ptrs) + Elems(ids) by { HeldAppend(ptrs, ids, b); }
  }

  lemma HeldAppend(ptrs: seq<int>, ids: seq<int>, b: nat)
    requires b + |ids| <= |ptrs| && (forall k :: b <= k < |ptrs| ==> ptrs[k] == 0) && forall x :: x in ids ==> x != 0
    ensures Held(ptrs[..b] + ids + ptrs[b + |ids|..]) == Held(ptrs) + Elems(ids)
  {
    var after := ptrs[..b] + ids + ptrs[b + |ids|..];
    forall x | x in Held(ptrs)
      ensures x in Held(after)
    {
      var k :| 0 <= k < |ptrs| && ptrs[k] == x;
      assert after[k] == x;
    }
    forall x | x in ids
      ensures x in Held(after)
    {
      var i :| 0 <= i < |ids| && ids[i] == x;
      assert after[b + i] == x;
    }
  }

  lemma LessHeld(v: Volume, ptrs: seq<int>, at: int, n: nat, v1: Volume, kept: seq<int>)
    requires ChainOk(v, ptrs, at) && n < Count(ptrs, 0)
    requires kept == ptrs[..n] + seq(Count(ptrs, 0) - n, _ => 0) + ptrs[Count(ptrs, 0)..]
    requires v1.used == v.used - Released(ptrs, n, Count(ptrs, 0) - n, BLOCKS)
    ensures UsedFollows(v, ptrs, v1, kept)
  {
    hide Distinct, Sized, Released;
    var b := Count(ptrs, 0);
    var gone := Released(ptrs, n, b - n, BLOCKS);
    assert forall k :: 0 <= k < b ==> FIRST_DATA <= ptrs[k] < BLOCKS;
    SameHeld(v, ptrs, at, v);
    HeldSplits(ptrs, n, b, kept, gone);
  }

  lemma HeldSplits(ptrs: seq<int>, n: nat, b: nat, kept: seq<int>, gone: set<int>)
    requires n < b <= |ptrs| && Distinct(ptrs[..b]) && gone == Released(ptrs, n, b - n, BLOCKS)
    requires kept == ptrs[..n] + seq(b - n, _ => 0) + ptrs[b..]
    requires (forall k :: 0 <= k < b ==> FIRST_DATA <= ptrs[k] < BLOCKS) && forall k :: b <= k < |ptrs| ==> ptrs[k] == 0
    ensures Held(kept) == Held(ptrs) - gone && gone <= Held(ptrs)
  {
    hide Distinct;
    HeadNotReleased(ptrs, n, b, gone);
    assert forall k :: 0 <= k < |ptrs| ==> kept[k] == if k < n then ptrs[k] else 0;
    forall x | x in Held(ptrs)
      ensures x in Held(kept) || x in gone
    {
      var k :| 0 <= k < |ptrs| && ptrs[k] == x;
      assert k < n ==> kept[k] == x;
    }
    forall x | x in Held(kept)
      ensures x in Held(ptrs) && x !in gone
    {
      var k :| 0 <= k < |kept| && kept[k] == x;
    }
  }

  /** A block the file had already, or one that was free. */
  ghost predicate OwnOrFresh(v: Volume, ptrs: seq<int>, x: int) {
    x == 0 || x in ptrs || x !in v.used
  }

  lemma RewriteKeeps(v: Volume, ptrs: seq<int>, at: int, file: seq<byte>, k: nat)
    requires ChainOk(v, ptrs, at) && k <= BlocksFor(|file|) && k <= Count(ptrs, 0)
    ensures var u := Rewrite(v, ptrs, Chunks(file, |file|), k, BLOCKS);
      && ChainOk(u, ptrs, at) && FreeIds(u) == FreeIds(v) && u.used == v.used && u.data.Keys == v.data.Keys
      && (forall i :: 0 <= i < k ==> HoldsBlock(u, ptrs[i], file, i))
      && OthersKept(v, ptrs, u)
  {
    hide Overlay, Padded, Chunks, HoldsBlock, Sized, Chain, Distinct, Rewrite;
    var chunks := Chunks(file, |file|);
    InData(v, ptrs, at);
    ChainOf(v, ptrs, at, k);
    RewriteFacts(v, ptrs, chunks, k, BLOCKS);
    var u := Rewrite(v, ptrs, chunks, k, BLOCKS);
    SameShell(v, u);
    forall i | 0 <= i < k
      ensures HoldsBlock(u, ptrs[i], file, i)
    {
      ChunkFits(file, i, v.data[ptrs[i]], ptrs[i], u);
    }
    forall x | x in v.used && x in v.data && (x !in ptrs || x == 0)
      ensures x in u.used && x in u.data && u.data[x] == v.data[x]
    {
      assert x in u.data.Keys;
      assert x != 0 ==> x !in ptrs[..k];
    }
  }

  lemma EqualWrites(v: Volume, ptrs: seq<int>, at: int, file: seq<byte>)
    requires ChainOk(v, ptrs, at) && BlocksFor(|file|) == Count(ptrs, 0)
    ensures var r := WriteBlocks(v, ptrs, file); Written(v, ptrs, at, r.0, r.1, file)
  {
    RewriteKeeps(v, ptrs, at, file, BlocksFor(|file|));
    SameHeld(v, ptrs, at, WriteBlocks(v, ptrs, file).0);
  }

  lemma GrowWrites(v: Volume, ptrs: seq<int>, at: int, file: seq<byte>)
    requires ChainOk(v, ptrs, at) && Count(ptrs, 0) < BlocksFor(|file|) <= MAX_BLOCKS
    requires BlocksFor(|file|) - Count(ptrs, 0) <= |FreeIds(v)|
    ensures var r := WriteBlocks(v, ptrs, file);
      && Written(v, ptrs, at, r.0, r.1, file)
      && |FreeIds(r.0)| == |FreeIds(v)| - (BlocksFor(|file|) - Count(ptrs, 0))
  {
    hide Chunks, HoldsBlock, Padded, Rewrite, Allocate, ChainOk, OthersKept, Allocated, Stored;
    ChainSized(v, ptrs, at);
    var b, n, chunks := Count(ptrs, 0), BlocksFor(|file|), Chunks(file, |file|);
    RewriteKeeps(v, ptrs, at, file, b);
    var v1 := Rewrite(v, ptrs, chunks, b, BLOCKS);
    ChainSized(v1, ptrs, at);
    AllocateFacts(v1, chunks[b..], n - b);
    AllocateData(v1, chunks[b..], n - b);
    var a := Allocate(v1, chunks[b..], n - b);
    var r := WriteBlocks(v, ptrs, file);
    assert r == (a.0, ptrs[..b] + a.1 + ptrs[n..]);
    AppendedOk(v1, ptrs, at, file, a.0, a.1);
    OthersChain(v, v1, ptrs, a.0);
  }

  lemma ChainSized(v: Volume, ptrs: seq<int>, at: int)
    requires ChainOk(v, ptrs, at)
    ensures Sized(v) && |ptrs| == MAX_BLOCKS
  {}

  lemma OthersChain(v: Volume, u: Volume, ptrs: seq<int>, w: Volume)
    requires OthersKept(v, ptrs, u) && OthersKept(u, ptrs, w)
    ensures OthersKept(v, ptrs, w)
  {}

  /** Fresh blocks appended to a chain: still a chain, now holding the whole file. */
  lemma AppendedOk(v: Volume, ptrs: seq<int>, at: int, file: seq<byte>, w: Volume, ids: seq<int>)
    requires ChainOk(v, ptrs, at) && Count(ptrs, 0) < BlocksFor(|file|) <= MAX_BLOCKS
    requires var b, n := Count(ptrs, 0), BlocksFor(|file|);
      && n - b <= |FreeIds(v)|
      && (forall i :: 0 <= i < b ==> HoldsBlock(v, ptrs[i], file, i))
      && Allocated(v, n - b, w, ids) && Stored(v, Chunks(file, |file|)[b..], n - b, w, ids)
    ensures var b, n := Count(ptrs, 0), BlocksFor(|file|);
      var after := ptrs[..b] + ids + ptrs[n..];
      && Written(v, ptrs, at, w, after, file) && |FreeIds(w)| == |FreeIds(v)| - (n - b)
  {
    hide ChainOk, Chunks, Holds, Padded, Allocated, Stored, Distinct, Sized, FreeIds, Held, OthersKept;
    var b, n := Count(ptrs, 0), BlocksFor(|file|);
    ChainSized(v, ptrs, at);
    FreshIds(v, w, n - b, ids);
    AppendedChain(v, ptrs, at, w, ids);
    AppendedHolds(v, ptrs, at, file, w, ids);
    AppendedSpares(v, ptrs, at, file, w, ids);
    MoreHeld(v, ptrs, at, w, ids);
  }

  lemma AppendedHolds(v: Volume, ptrs: seq<int>, at: int, file: seq<byte>, w: Volume, ids: seq<int>)
    requires ChainOk(v, ptrs, at) && Count(ptrs, 0) < BlocksFor(|file|) <= MAX_BLOCKS
    requires var b, n := Count(ptrs, 0), BlocksFor(|file|);
      && (forall i :: 0 <= i < b ==> HoldsBlock(v, ptrs[i], file, i))
      && Stored(v, Chunks(file, |file|)[b..], n - b, w, ids) && v.used <= w.used
      && |ids| == n - b && forall i :: 0 <= i < n - b ==> ids[i] != 0 && ids[i] !in v.used
    ensures var b, n := Count(ptrs, 0), BlocksFor(|file|);
      Holds(w, ptrs[..b] + ids + ptrs[n..], file)
  {
    hide Chunks, HoldsBlock, Padded, Distinct, Sized;
    var b, n := Count(ptrs, 0), BlocksFor(|file|);
    var after := ptrs[..b] + ids + ptrs[n..];
    InData(v, ptrs, at);
    OldKept(v, Chunks(file, |file|)[b..], n - b, w, ids);
    forall i | 0 <= i < n
      ensures HoldsBlock(w, after[i], file, i)
    {
      if i < b {
        assert after[i] == ptrs[i];
        HoldsMoves(v, w, ptrs[i], file, i);
      } else {
        assert Chunks(file, |file|)[b..][i - b] == Chunks(file, |file|)[i];
        assert after[i] == ids[i - b];
        ChunkFits(file, i, w.data[after[i]], after[i], w);
      }
    }
  }

  lemma AppendedSpares(v: Volume, ptrs: seq<int>, at: int, file: seq<byte>, w: Volume, ids: seq<int>)
    requires ChainOk(v, ptrs, at) && Count(ptrs, 0) < BlocksFor(|file|) <= MAX_BLOCKS
    requires var b, n := Count(ptrs, 0), BlocksFor(|file|);
      && Stored(v, Chunks(file, |file|)[b..], n - b, w, ids) && v.used <= w.used && Sized(w)
      && |ids| == n - b && forall i :: 0 <= i < n - b ==> ids[i] !in v.used
    ensures OthersKept(v, ptrs, w) && w.data.Keys == v.data.Keys
    ensures var after := ptrs[..Count(ptrs, 0)] + ids + ptrs[BlocksFor(|file|)..];
      && |after| == MAX_BLOCKS && forall k :: 0 <= k < MAX_BLOCKS ==> OwnOrFresh(v, ptrs, after[k])
  {
    hide Chunks, Padded, Distinct, Sized, Stored;
    var b, n := Count(ptrs, 0), BlocksFor(|file|);
    OldKept(v, Chunks(file, |file|)[b..], n - b, w, ids);
    SameKeys(v, w);
  }

  lemma InData(v: Volume, ptrs: seq<int>, at: int)
    requires ChainOk(v, ptrs, at)
    ensures forall i :: 0 <= i < Count(ptrs, 0) ==> ptrs[i] in v.data && ptrs[i] in v.used
  {}

  /** Allocation keeps the bits and bytes of the blocks in use. */
  lemma OldKept(v: Volume, chunks: seq<seq<byte>>, k: nat, w: Volume, ids: seq<int>)
    requires k <= |chunks| && Stored(v, chunks, k, w, ids) && v.used <= w.used
    requires |ids| == k && forall i :: 0 <= i < k ==> ids[i] !in v.used
    ensures forall x :: x in v.used && x in v.data ==> x in w.used && x in w.data && w.data[x] == v.data[x]
  {}

  lemma AppendedChain(v: Volume, ptrs: seq<int>, at: int, w: Volume, ids: seq<int>)
    requires ChainOk(v, ptrs, at) && Count(ptrs, 0) + |ids| <= MAX_BLOCKS
    requires Distinct(ids) && v.used <= w.used && Sized(w)
    requires forall i :: 0 <= i < |ids| ==> FIRST_DATA <= ids[i] < BLOCKS && ids[i] !in v.used && ids[i] in w.used
    ensures var b := Count(ptrs, 0);
      var after := ptrs[..b] + ids + ptrs[b + |ids|..];
      ChainOk(w, after, at) && Count(after, 0) == b + |ids|
  {
    hide Sized, Distinct;
    var b, n := Count(ptrs, 0), Count(ptrs, 0) + |ids|;
    var after := ptrs[..b] + ids + ptrs[n..];
    assert forall k :: 0 <= k < b ==> after[k] == ptrs[k] == ptrs[..b][k];
    assert forall k :: b <= k < n ==> after[k] == ids[k - b];
    assert forall k :: n <= k < MAX_BLOCKS ==> after[k] == 0;
    CountIs(after, n);
    DistinctJoin(ptrs[..b], ids);
    assert after[..n] == ptrs[..b] + ids;
  }

  lemma HoldsMoves(v: Volume, w: Volume, id: int, file: seq<byte>, i: int)
    requires HoldsBlock(v, id, file, i) && id in w.data && w.data[id] == v.data[id]
    ensures HoldsBlock(w, id, file, i)
  {}

  /** With room enough every id handed out is a fresh data block. */
  lemma FreshIds(v: Volume, w: Volume, k: nat, ids: seq<int>)
    requires Allocated(v, k, w, ids) && k <= |FreeIds(v)|
    ensures |ids| == k && Distinct(ids) && v.used <= w.used && Sized(w)
    ensures forall i :: 0 <= i < k ==> FIRST_DATA <= ids[i] < BLOCKS && ids[i] !in v.used && ids[i] in w.used
    ensures |FreeIds(w)| == |FreeIds(v)| - k && w.used == v.used + Elems(ids)
  {
    assert ids[..k] == ids;
    FreeIdsRange(v);
    forall i | 0 <= i < k
      ensures ids[i] in FreeIds(v) && ids[i] in w.used
    {
      InElems(ids, ids[i]);
    }
  }

  lemma DistinctJoin(a: seq<int>, b: seq<int>)
    requires Distinct(a) && Distinct(b) && forall i, j :: 0 <= i < |a| && 0 <= j < |b| ==> a[i] != b[j]
    ensures Distinct(a + b)
  {}

  lemma ShrinkWrites(v: Volume, ptrs: seq<int>, at: int, file: seq<byte>)
    requires ChainOk(v, ptrs, at) && Count(ptrs, 0) > BlocksFor(|file|)
    ensures var r := WriteBlocks(v, ptrs, file); Written(v, ptrs, at, r.0, r.1, file)
  {
    hide Chunks, HoldsBlock, Rewrite, Release, ChainOk, OthersKept, Released;
    ChainSized(v, ptrs, at);
    var b, n := Count(ptrs, 0), BlocksFor(|file|);
    var kept := ptrs[..n] + seq(b - n, _ => 0) + ptrs[b..];
    ReleaseFacts(v, ptrs, n, b - n, BLOCKS);
    var v1 := Release(v, ptrs, n, b - n, BLOCKS);
    PrefixOk(v, ptrs, at, n, v1, kept);
    LessHeld(v, ptrs, at, n, v1, kept);
    RewriteKeeps(v1, kept, at, file, n);
    var u := Rewrite(v1, kept, Chunks(file, |file|), n, BLOCKS);
    OthersOfPrefix(v, v1, ptrs, kept, u, n);
    assert WriteBlocks(v, ptrs, file) == (u, kept);
  }

  /** Releasing the tail of a chain leaves its head a chain. */
  lemma PrefixOk(v: Volume, ptrs: seq<int>, at: int, n: nat, v1: Volume, kept: seq<int>)
    requires ChainOk(v, ptrs, at) && n < Count(ptrs, 0)
    requires kept == ptrs[..n] + seq(Count(ptrs, 0) - n, _ => 0) + ptrs[Count(ptrs, 0)..]
    requires v1 == v.(used := v.used - Released(ptrs, n, Count(ptrs, 0) - n, BLOCKS))
    ensures ChainOk(v1, kept, at) && Count(kept, 0) == n
    ensures OthersKept(v, ptrs, v1)
  {
    hide Sized;
    var b := Count(ptrs, 0);
    assert forall k :: 0 <= k < n ==> kept[k] == ptrs[k];
    assert forall k :: n <= k < MAX_BLOCKS ==> kept[k] == 0;
    CountIs(kept, n);
    assert kept[..n] == ptrs[..b][..n];
    DistinctPrefix(ptrs[..b], n);
    var gone := Released(ptrs, n, b - n, BLOCKS);
    HeadNotReleased(ptrs, n, b, gone);
    ReservedStays(v, v1, gone);
  }

  lemma DistinctPrefix(ids: seq<int>, n: nat)
    requires Distinct(ids) && n <= |ids|
    ensures Distinct(ids[..n])
  {}

  lemma HeadNotReleased(ptrs: seq<int>, n: nat, b: nat, gone: set<int>)
    requires n <= b <= |ptrs| && Distinct(ptrs[..b]) && gone == Released(ptrs, n, b - n, BLOCKS)
    requires forall i :: 0 <= i < b ==> FIRST_DATA <= ptrs[i]
    ensures forall x :: x in gone ==> FIRST_DATA <= x
    ensures forall i :: 0 <= i < n ==> ptrs[i] !in gone
  {
    assert forall i :: 0 <= i < b ==> ptrs[..b][i] == ptrs[i];
  }

  lemma ReservedStays(v: Volume, w: Volume, gone: set<int>)
    requires Sized(v) && w == v.(used := v.used - gone) && forall x :: x in gone ==> FIRST_DATA <= x
    ensures Sized(w)
  {}

  lemma OthersOfPrefix(v: Volume, v1: Volume, ptrs: seq<int>, kept: seq<int>, u: Volume, n: nat)
    requires |ptrs| == |kept| == MAX_BLOCKS && n <= MAX_BLOCKS
    requires forall k :: 0 <= k < MAX_BLOCKS ==> kept[k] == ptrs[k] || kept[k] == 0
    requires OthersKept(v, ptrs, v1) && OthersKept(v1, kept, u)
    ensures OthersKept(v, ptrs, u)
  {
    forall x | x in v.used && x in v.data && (x !in ptrs || x == 0)
      ensures x in u.used && x in u.data && u.data[x] == v.data[x]
    {
      assert x !in kept || x == 0;
    }
  }

  // -------------------------------------------------------- indirect phase

  lemma ShortIds(ptrs: seq<int>, v: Volume, at: int)
    requires ChainOk(v, ptrs, at)
    ensures Shorts(ptrs) && Shorts(ptrs[DIRECT..])
  {
    forall x | x in ptrs
      ensures Short(x)
    {
      var k :| 0 <= k < |ptrs| && ptrs[k] == x;
      assert k < Count(ptrs, 0) || ptrs[k] == 0;
    }
  }

  /** The front of the stored indirect block decodes to the group. */
  lemma GroupDecodes(b: Block, group: seq<int>)
    requires |group| == GROUP && Shorts(group)
    requires b[..2 * GROUP] == EncodeShorts(group)
    ensures DecodeShorts(b[..2 * GROUP], GROUP) == group
  {
    ShortsRoundTrip(group);
  }

  lemma FrontOf(b: Block, group: seq<int>)
    requires |group| == GROUP && Shorts(group)
    ensures Overlay(b, EncodeShorts(group))[..2 * GROUP] == EncodeShorts(group)
    ensures Padded(EncodeShorts(group))[..2 * GROUP] == EncodeShorts(group)
  {}

  /** What the second phase does to bits and blocks: the indirect block moves from `at` to `to`, one of
      them or both may be 0, and no other block is touched. */
  ghost predicate Placed(u: Volume, at: int, w: Volume, to: int) {
    && Sized(w) && w.data.Keys == u.data.Keys
    && (forall x :: x in u.used && x in u.data && x != at ==> x in w.used && x in w.data && w.data[x] == u.data[x])
    && (to == 0 || to == at || to !in u.used)
    && (to != 0 ==> FIRST_DATA <= to < BLOCKS && to in w.used)
    && UsedFollows(u, [at], w, [to])
  }

  lemma PlacedSame(u: Volume, at: int, d: seq<byte>)
    requires Sized(u) && (at != 0 ==> FIRST_DATA <= at < BLOCKS && at in u.used)
    ensures Placed(u, at, u, at) && Placed(u, at, ModifyBlock(u, at, d, BLOCKS), at)
  {
    hide Overlay;
    assert Held([at]) <= u.used;
  }

  lemma PlacedNowhere(u: Volume, at: int)
    requires Sized(u) && (at != 0 ==> FIRST_DATA <= at < BLOCKS && at in u.used)
    ensures Placed(u, at, DeleteBlock(u, at, BLOCKS), 0)
  {}

  lemma PlacedNew(u: Volume, d: seq<byte>)
    requires Sized(u)
    ensures Placed(u, 0, WriteBlock(u, d).0, WriteBlock(u, d).1)
  {
    hide WriteBlock, Padded, Sized, FreeIds;
    AllocateOne(u, d);
    var r := WriteBlock(u, d);
    SameKeysOf(u, r.0);
    if FreeIds(u) == {} {
      assert Held([0]) == {};
    } else {
      PlacedAt(u, r.0, r.1, d);
    }
  }

  lemma PlacedAt(u: Volume, w: Volume, id: int, d: seq<byte>)
    requires Sized(w) && id in FreeIds(u) && w.used == u.used + {id} && w.data == u.data[id := Padded(d)]
    requires w.data.Keys == u.data.Keys
    ensures Placed(u, 0, w, id)
  {
    hide Padded, Sized;
    FreeIdsRange(u);
    assert Held([0]) == {} && Held([id]) == {id};
  }

  lemma SameKeysOf(u: Volume, w: Volume)
    requires Sized(u) && Sized(w)
    ensures w.data.Keys == u.data.Keys && 0 !in u.data
  {
    SameKeys(u, w);
  }

  lemma GroupPlaced(u: Volume, at: int, group: seq<int>, b: nat, n: nat)
    requires Sized(u) && Shorts(group) && (at != 0 ==> FIRST_DATA <= at < BLOCKS && at in u.used)
    ensures var r := StoreGroup(u, at, group, b, n); Placed(u, at, r.0, r.1)
  {
    hide EncodeShorts, Placed, Sized, ModifyBlock, WriteBlock, DeleteBlock;
    PlacedSame(u, at, EncodeShorts(group));
    PlacedNowhere(u, at);
    PlacedNew(u, EncodeShorts(group));
  }

  /** The stored group reads back as the pointers behind the twelfth. */
  lemma GroupReads(v: Volume, num: seq<int>, u: Volume, after: seq<int>, n: nat)
    requires FileOk(v, num) && ChainOk(u, after, num[DIRECT]) && Count(after, 0) == n > 0
    requires num[DIRECT] != 0 ==> u.data[num[DIRECT]] == v.data[num[DIRECT]]
    requires Count(AllPointers(v, num), 0) == n ==> after == AllPointers(v, num)
    requires num[DIRECT] == 0 && n > DIRECT ==> FreeIds(u) != {}
    requires Shorts(after[DIRECT..])
    ensures var r := StoreGroup(u, num[DIRECT], after[DIRECT..], Count(AllPointers(v, num), 0), n);
      Indirect(r.0, r.1) == after[DIRECT..]
  {
    hide EncodeShorts, DecodeShorts, Overlay, Padded, Distinct, AllPointers;
    var at, group, b := num[DIRECT], after[DIRECT..], Count(AllPointers(v, num), 0);
    var r := StoreGroup(u, at, group, b, n);
    NoIndirect(v, num);
    if b == n {
      SamePointers(v, num, u, after);
    } else if b > n && n < DIRECT {
      ShortChain(after, n);
      assert after[DIRECT..] == seq(GROUP, _ => 0);
    } else if at != 0 {
      FrontOf(u.data[at], group);
      GroupDecodes(r.0.data[at], group);
    } else if n > DIRECT {
      AllocateOne(u, EncodeShorts(group));
      FreeIdsRange(u);
      FrontOf(r.0.data[r.1], group);
      GroupDecodes(r.0.data[r.1], group);
    } else {
      ShortChain(after, n);
      assert after[DIRECT..] == seq(GROUP, _ => 0);
    }
  }

  /** The chain of the first phase stays a chain, now beside the indirect block `to`. */
  lemma ChainBeside(u: Volume, after: seq<int>, at: int, w: Volume, to: int)
    requires ChainOk(u, after, at) && Placed(u, at, w, to)
    ensures ChainOk(w, after, to)
  {
    hide Distinct, UsedFollows;
    InData(u, after, at);
  }

  /** After the second phase the inode's pointers are the chain of the first, and its blocks are
      untouched. */
  lemma GroupStored(v: Volume, num: seq<int>, u: Volume, after: seq<int>, n: nat)
    requires FileOk(v, num) && ChainOk(u, after, num[DIRECT]) && Count(after, 0) == n > 0
    requires num[DIRECT] != 0 ==> u.data[num[DIRECT]] == v.data[num[DIRECT]]
    requires Count(AllPointers(v, num), 0) == n ==> after == AllPointers(v, num)
    requires num[DIRECT] == 0 && n > DIRECT ==> FreeIds(u) != {}
    requires Shorts(after[DIRECT..])
    ensures var r := StoreGroup(u, num[DIRECT], after[DIRECT..], Count(AllPointers(v, num), 0), n);
      var made := after[..DIRECT] + [r.1] + num[DIRECT + 1..];
      && |made| == NUM_ENTRIES && AllPointers(r.0, made) == after && FileOk(r.0, made)
      && Placed(u, num[DIRECT], r.0, r.1)
  {
    hide StoreGroup, Indirect, AllPointers, Distinct, Sized, Placed, FreeIds;
    var at, group, b := num[DIRECT], after[DIRECT..], Count(AllPointers(v, num), 0);
    var r := StoreGroup(u, at, group, b, n);
    GroupPlaced(u, at, group, b, n);
    GroupReads(v, num, u, after, n);
    PointersAre(r.0, after, r.1, num);
    ChainBeside(u, after, at, r.0, r.1);
  }

  /** Without an indirect block a file has at most twelve blocks. */
  lemma NoIndirect(v: Volume, num: seq<int>)
    requires FileOk(v, num)
    ensures num[DIRECT] == 0 ==> Count(AllPointers(v, num), 0) <= DIRECT
  {
    if num[DIRECT] == 0 {
      assert AllPointers(v, num)[DIRECT] == 0;
    }
  }

  lemma SamePointers(v: Volume, num: seq<int>, u: Volume, after: seq<int>)
    requires FileOk(v, num) && after == AllPointers(v, num) && Sized(u)
    requires num[DIRECT] != 0 ==> num[DIRECT] in u.data && u.data[num[DIRECT]] == v.data[num[DIRECT]]
    ensures after[DIRECT..] == Indirect(u, num[DIRECT])
  {
    assert after[DIRECT..] == Indirect(v, num[DIRECT]);
  }

  lemma ShortChain(after: seq<int>, n: nat)
    requires |after| == MAX_BLOCKS && n <= DIRECT && forall k :: n <= k < MAX_BLOCKS ==> after[k] == 0
    ensures forall k :: 0 <= k < GROUP ==> after[DIRECT..][k] == 0
  {}

  lemma PointersAre(w: Volume, after: seq<int>, at: int, num: seq<int>)
    requires |after| == MAX_BLOCKS && |num| == NUM_ENTRIES
    requires var made := after[..DIRECT] + [at] + num[DIRECT + 1..];
      |made| == NUM_ENTRIES && made[DIRECT] == at && Indirect(w, made[DIRECT]) == after[DIRECT..]
    ensures AllPointers(w, after[..DIRECT] + [at] + num[DIRECT + 1..]) == after
  {
    assert after == after[..DIRECT] + after[DIRECT..];
  }

  // ---------------------------------------------------------- round trip

  lemma {:induction false} JoinedHolds(v: Volume, ptrs: seq<int>, file: seq<byte>)
    requires BlocksFor(|file|) <= |ptrs| && Holds(v, ptrs, file)
    requires forall i :: 0 <= i < BlocksFor(|file|) ==> ptrs[i] in v.data
    ensures Joined(v, ptrs, BlocksFor(|file|))[..|file|] == file
  {
    var n := BlocksFor(|file|);
    forall k | 0 <= k < |file|
      ensures Joined(v, ptrs, n)[k] == file[k]
    {
      JoinedAt(v, ptrs, n, k);
      var i := k / BLOCK_SIZE;
      assert HoldsBlock(v, ptrs[i], file, i);
      assert i * BLOCK_SIZE + k % BLOCK_SIZE == k;
    }
  }

  lemma DataPhase(v: Volume, ptrs: seq<int>, at: int, file: seq<byte>)
    requires ChainOk(v, ptrs, at) && BlocksFor(|file|) <= MAX_BLOCKS
    requires BlocksFor(|file|) - Count(ptrs, 0) <= |FreeIds(v)|
    ensures var r := WriteBlocks(v, ptrs, file);
      && Written(v, ptrs, at, r.0, r.1, file)
      && (BlocksFor(|file|) > Count(ptrs, 0) ==>
            |FreeIds(r.0)| == |FreeIds(v)| - (BlocksFor(|file|) - Count(ptrs, 0)))
      && (BlocksFor(|file|) == Count(ptrs, 0) ==> r.1 == ptrs && FreeIds(r.0) == FreeIds(v))
  {
    if Count(ptrs, 0) < BlocksFor(|file|) {
      GrowWrites(v, ptrs, at, file);
    } else if Count(ptrs, 0) > BlocksFor(|file|) {
      ShrinkWrites(v, ptrs, at, file);
    } else {
      EqualWrites(v, ptrs, at, file);
      RewriteKeeps(v, ptrs, at, file, BlocksFor(|file|));
    }
  }

  /** The preconditions of the write and of the read that follows, discharged. */
  lemma WriteReady(v: Volume, num: seq<int>, file: seq<byte>)
    requires FileOk(v, num) && BlocksFor(|file|) <= MAX_BLOCKS && Room(v, num, |file|)
    ensures Shorts(WriteBlocks(v, AllPointers(v, num), file).1)
  {
    var ptrs := AllPointers(v, num);
    DataPhase(v, ptrs, num[DIRECT], file);
    var r := WriteBlocks(v, ptrs, file);
    ShortIds(r.1, r.0, num[DIRECT]);
  }

  lemma ReadReady(v: Volume, num: seq<int>)
    requires FileOk(v, num)
    ensures forall k :: 0 <= k < Count(AllPointers(v, num), 0) ==> AllPointers(v, num)[k] in v.data
  {}

  /** The blocks of a file, the indirect one included. */
  ghost function FileBlocks(v: Volume, num: seq<int>): set<int>
    requires |num| == NUM_ENTRIES
  {
    Held(AllPointers(v, num) + [num[DIRECT]])
  }

  /** What one repaired write achieves: the file is in order and reads as written, every block it
      holds was its own or free, the bitmap changes by exactly the blocks given up and taken, and
      everybody else's blocks keep their bits and bytes. */
  ghost predicate Achieved(v: Volume, node: Inode, file: seq<byte>, w: Volume, made: Inode)
    requires |node.num| == NUM_ENTRIES
  {
    && FileOk(w, made.num) && made.size == |file|
    && Count(AllPointers(w, made.num), 0) == BlocksFor(|file|)
    && (forall x :: x in v.used && x in v.data && x !in FileBlocks(v, node.num) ==>
          x in w.used && x in w.data && w.data[x] == v.data[x])
    && (forall x :: x in FileBlocks(w, made.num) ==> x in FileBlocks(v, node.num) || x !in v.used)
    && w.used == v.used - FileBlocks(v, node.num) + FileBlocks(w, made.num)
    && (ReadReady(w, made.num); ReadFile(w, made) == Contents(file + [0]))
  }

  /** Write then read returns the data, for every size up to 268 blocks and from every state of the
      file: growing, shrinking, staying, and crossing the boundary of twelve blocks either way.
      Everybody else's blocks keep their bits and bytes. */
  lemma RoundTrip(v: Volume, node: Inode, file: seq<byte>)
    requires FileOk(v, node.num) && 0 < |file| && BlocksFor(|file|) <= MAX_BLOCKS && Room(v, node.num, |file|)
    ensures Shorts(WriteBlocks(v, AllPointers(v, node.num), file).1)
    ensures var r := WriteFile(v, node, file); Achieved(v, node, file, r.0, r.1)
  {
    hide HoldsBlock, Distinct, StoreGroup, WriteBlocks, Joined, Indirect, AllPointers, Sized, FileBlocks, OwnOrFresh;
    var ptrs, at, n := AllPointers(v, node.num), node.num[DIRECT], BlocksFor(|file|);
    WriteReady(v, node.num, file);
    DataPhase(v, ptrs, at, file);
    var u, after := WriteBlocks(v, ptrs, file).0, WriteBlocks(v, ptrs, file).1;
    IndirectKept(v, ptrs, at, u);
    ShortIds(after, u, at);
    RoomLeft(v, node.num, u, n);
    GroupStored(v, node.num, u, after, n);
    var r := WriteFile(v, node, file);
    InData(u, after, at);
    ReadsBack(u, r.0, after, r.1, file);
    BlocksKept(v, u, r.0, node.num);
    BlocksFresh(v, u, r.0, node.num, r.1.num);
    BlocksCounted(v, u, r.0, node.num, r.1.num);
  }

  lemma BlocksCounted(v: Volume, u: Volume, w: Volume, num: seq<int>, made: seq<int>)
    requires FileOk(v, num) && FileOk(w, made) && ChainOk(u, AllPointers(w, made), num[DIRECT])
    requires UsedFollows(v, AllPointers(v, num), u, AllPointers(w, made))
    requires UsedFollows(u, [num[DIRECT]], w, [made[DIRECT]])
    ensures w.used == v.used - FileBlocks(v, num) + FileBlocks(w, made)
  {
    hide AllPointers, Sized, Distinct;
    var before, after, at := AllPointers(v, num), AllPointers(w, made), num[DIRECT];
    HeldJoin(before, at);
    HeldJoin(after, made[DIRECT]);
    assert Held([at]) !! Held(after) by {
      forall x | x in Held(after)
        ensures x != at
      {
        var k :| 0 <= k < |after| && after[k] == x;
      }
    }
  }

  lemma HeldJoin(ptrs: seq<int>, at: int)
    ensures Held(ptrs + [at]) == Held(ptrs) + Held([at])
  {
    assert forall x :: x in ptrs + [at] <==> x in ptrs || x == at;
  }

  lemma BlocksKept(v: Volume, u: Volume, w: Volume, num: seq<int>)
    requires FileOk(v, num) && OthersKept(v, AllPointers(v, num), u) && u.data.Keys == v.data.Keys
    requires forall x :: x in u.used && x in u.data && x != num[DIRECT] ==>
      x in w.used && x in w.data && w.data[x] == u.data[x]
    ensures forall x :: x in v.used && x in v.data && x !in FileBlocks(v, num) ==>
      x in w.used && x in w.data && w.data[x] == v.data[x]
  {
    hide AllPointers;
    forall x | x in v.used && x in v.data && x !in FileBlocks(v, num)
      ensures x in w.used && x in w.data && w.data[x] == v.data[x]
    {
      assert x != 0;
      assert x !in AllPointers(v, num) && x != num[DIRECT];
    }
  }

  lemma BlocksFresh(v: Volume, u: Volume, w: Volume, num: seq<int>, made: seq<int>)
    requires FileOk(v, num) && FileOk(w, made) && OthersKept(v, AllPointers(v, num), u)
    requires forall k :: 0 <= k < MAX_BLOCKS ==> OwnOrFresh(v, AllPointers(v, num), AllPointers(w, made)[k])
    requires made[DIRECT] == 0 || made[DIRECT] == num[DIRECT] || made[DIRECT] !in u.used
    ensures forall x :: x in FileBlocks(w, made) ==> x in FileBlocks(v, num) || x !in v.used
  {
    hide AllPointers, Distinct;
    var before, after := AllPointers(v, num), AllPointers(w, made);
    forall x | x in FileBlocks(w, made)
      ensures x in FileBlocks(v, num) || x !in v.used
    {
      if x in after {
        var k :| 0 <= k < MAX_BLOCKS && after[k] == x;
        assert OwnOrFresh(v, before, after[k]);
        assert x in before ==> x in before + [num[DIRECT]];
      } else {
        assert x == made[DIRECT];
        assert FIRST_DATA <= x < BLOCKS && x in v.data;
        assert x == num[DIRECT] ==> x in before + [num[DIRECT]];
        assert x in before ==> x in before + [num[DIRECT]];
      }
    }
  }

  /** If the second phase kept the chain and its blocks, the file reads back. */
  lemma ReadsBack(u: Volume, w: Volume, after: seq<int>, made: Inode, file: seq<byte>)
    requires FileOk(w, made.num) && AllPointers(w, made.num) == after && made.size == |file| > 0
    requires BlocksFor(|file|) <= MAX_BLOCKS && Count(after, 0) == BlocksFor(|file|) && Holds(u, after, file)
    requires forall i :: 0 <= i < BlocksFor(|file|) ==>
      after[i] in u.data && after[i] in w.data && w.data[after[i]] == u.data[after[i]]
    ensures (ReadReady(w, made.num); ReadFile(w, made) == Contents(file + [0]))
  {
    hide HoldsBlock, Joined, Indirect, AllPointers;
    ReadReady(w, made.num);
    var n := BlocksFor(|file|);
    forall i | 0 <= i < n
      ensures HoldsBlock(w, after[i], file, i)
    {
      HoldsMoves(u, w, after[i], file, i);
    }
    JoinedHolds(w, after, file);
  }

  lemma IndirectKept(v: Volume, ptrs: seq<int>, at: int, u: Volume)
    requires ChainOk(v, ptrs, at) && OthersKept(v, ptrs, u) && u.data.Keys == v.data.Keys
    ensures at != 0 ==> at in u.data && u.data[at] == v.data[at]
  {
    if at != 0 {
      assert forall k :: 0 <= k < MAX_BLOCKS ==> ptrs[k] != at;
    }
  }

  lemma RoomLeft(v: Volume, num: seq<int>, u: Volume, n: nat)
    requires FileOk(v, num) && n > 0
    requires n - Count(AllPointers(v, num), 0) + (if num[DIRECT] == 0 && n > DIRECT then 1 else 0) <= |FreeIds(v)|
    requires n > Count(AllPointers(v, num), 0) ==> |FreeIds(u)| == |FreeIds(v)| - (n - Count(AllPointers(v, num), 0))
    ensures num[DIRECT] == 0 && n > DIRECT ==> FreeIds(u) != {}
  {
    NoIndirect(v, num);
  }

  // -------------------------------------------------------- several files

  /** A file whose blocks are not touched is still in order, has the same blocks and reads the same. */
  lemma OtherFileKept(v: Volume, w: Volume, other: Inode)
    requires FileOk(v, other.num) && Sized(w) && 0 <= other.size
    requires forall x :: x in FileBlocks(v, other.num) && x in v.data ==>
      x in w.used && x in w.data && w.data[x] == v.data[x]
    ensures FileOk(w, other.num) && AllPointers(w, other.num) == AllPointers(v, other.num)
    ensures (ReadReady(v, other.num); ReadReady(w, other.num); ReadFile(w, other) == ReadFile(v, other))
  {
    hide Joined, DecodeShorts, Distinct;
    var ptrs, at := AllPointers(v, other.num), other.num[DIRECT];
    BlocksThere(v, other.num);
    SameIndirect(v, w, other.num);
    assert AllPointers(w, other.num) == ptrs;
    ReadReady(v, other.num);
    ReadReady(w, other.num);
    JoinedAlike(v, w, ptrs, Count(ptrs, 0));
  }

  lemma BlocksThere(v: Volume, num: seq<int>)
    requires FileOk(v, num)
    ensures forall k :: 0 <= k < Count(AllPointers(v, num), 0) ==>
      AllPointers(v, num)[k] in FileBlocks(v, num) && AllPointers(v, num)[k] in v.data
    ensures num[DIRECT] != 0 ==> num[DIRECT] in FileBlocks(v, num) && num[DIRECT] in v.data
    ensures forall x :: x in FileBlocks(v, num) ==> x in v.used && x in v.data
  {
    hide AllPointers, Distinct;
    var ptrs := AllPointers(v, num);
    var all := ptrs + [num[DIRECT]];
    assert all[MAX_BLOCKS] == num[DIRECT];
    forall k | 0 <= k < Count(ptrs, 0)
      ensures ptrs[k] in FileBlocks(v, num) && ptrs[k] in v.data
    {
      assert all[k] == ptrs[k];
    }
    forall x | x in FileBlocks(v, num)
      ensures x in v.used && x in v.data
    {
      if x in ptrs {
        var k :| 0 <= k < MAX_BLOCKS && ptrs[k] == x;
        assert k < Count(ptrs, 0);
      } else {
        assert x == num[DIRECT];
      }
    }
  }

  lemma SameIndirect(v: Volume, w: Volume, num: seq<int>)
    requires |num| == NUM_ENTRIES && Sized(v) && Sized(w)
    requires num[DIRECT] != 0 ==>
      num[DIRECT] in v.data && num[DIRECT] in w.data && w.data[num[DIRECT]] == v.data[num[DIRECT]]
    ensures Indirect(w, num[DIRECT]) == Indirect(v, num[DIRECT])
  {
    hide DecodeShorts;
    assert 0 !in v.data && 0 !in w.data;
  }

  /** Files in order that share no block. */
  ghost predicate Files(v: Volume, nodes: seq<Inode>) {
    && (forall i :: 0 <= i < |nodes| ==> FileOk(v, nodes[i].num) && 0 <= nodes[i].size)
    && (forall i, j :: 0 <= i < j < |nodes| ==> FileBlocks(v, nodes[i].num) !! FileBlocks(v, nodes[j].num))
  }

  /** A write of one file keeps the others apart from it, in order, and reading the same. */
  lemma WriteSparesFile(v: Volume, node: Inode, file: seq<byte>, w: Volume, made: Inode, other: Inode)
    requires FileOk(v, node.num) && FileOk(v, other.num) && 0 <= other.size
    requires FileBlocks(v, node.num) !! FileBlocks(v, other.num)
    requires Achieved(v, node, file, w, made)
    ensures FileOk(w, other.num) && FileBlocks(w, other.num) == FileBlocks(v, other.num)
    ensures FileBlocks(w, made.num) !! FileBlocks(w, other.num)
    ensures (ReadReady(v, other.num); ReadReady(w, other.num); ReadFile(w, other) == ReadFile(v, other))
  {
    hide ReadFile, AllPointers, Distinct;
    BlocksThere(v, other.num);
    OtherFileKept(v, w, other);
    forall x | x in FileBlocks(w, made.num)
      ensures x !in FileBlocks(w, other.num)
    {}
  }

  /** One write in an interleaving: which file, which data. */
  datatype Save = Save(who: nat, data: seq<byte>)

  ghost predicate Fits(v: Volume, nodes: seq<Inode>, save: Save) {
    && save.who < |nodes| && FileOk(v, nodes[save.who].num)
    && 0 < |save.data| && BlocksFor(|save.data|) <= MAX_BLOCKS
    && Room(v, nodes[save.who].num, |save.data|)
  }

  ghost function AfterSave(v: Volume, nodes: seq<Inode>, save: Save): (r: (Volume, seq<Inode>))
    requires Fits(v, nodes, save)
    ensures |r.1| == |nodes|
  {
    RoundTrip(v, nodes[save.who], save.data);
    var (w, made) := WriteFile(v, nodes[save.who], save.data);
    (w, nodes[save.who := made])
  }

  /** What reading file i gives. */
  ghost function Reading(v: Volume, nodes: seq<Inode>, i: nat): Outcome
    requires Files(v, nodes) && i < |nodes|
  {
    ReadReady(v, nodes[i].num);
    ReadFile(v, nodes[i])
  }

  /** One write: the files stay in order and apart, the written one reads as written, every other one
      as before. */
  lemma SaveKeepsFiles(v: Volume, nodes: seq<Inode>, save: Save)
    requires Files(v, nodes) && Fits(v, nodes, save)
    ensures var (w, after) := AfterSave(v, nodes, save);
      && Files(w, after)
      && forall i :: 0 <= i < |nodes| ==>
           Reading(w, after, i) == if i == save.who then Contents(save.data + [0]) else Reading(v, nodes, i)
  {
    hide ChainOk, FileBlocks, ReadFile, WriteFile, Room, AllPointers, WriteBlocks;
    var node := nodes[save.who];
    RoundTrip(v, node, save.data);
    var (w, made) := WriteFile(v, node, save.data);
    var after := nodes[save.who := made];
    forall i | 0 <= i < |nodes| && i != save.who
      ensures FileOk(w, nodes[i].num) && FileBlocks(w, nodes[i].num) == FileBlocks(v, nodes[i].num)
      ensures FileBlocks(w, made.num) !! FileBlocks(w, nodes[i].num)
      ensures (ReadReady(v, nodes[i].num); ReadReady(w, nodes[i].num); ReadFile(w, nodes[i]) == ReadFile(v, nodes[i]))
    {
      WriteSparesFile(v, node, save.data, w, made, nodes[i]);
    }
    assert Files(w, after);
  }

  /** The blocks of all the files. */
  ghost function BlocksOfAll(v: Volume, nodes: seq<Inode>): set<int>
    requires forall i :: 0 <= i < |nodes| ==> |nodes[i].num| == NUM_ENTRIES
  {
    set i, x | 0 <= i < |nodes| && x in FileBlocks(v, nodes[i].num) :: x
  }

  lemma FilesSized(v: Volume, nodes: seq<Inode>)
    requires Files(v, nodes)
    ensures forall i :: 0 <= i < |nodes| ==> |nodes[i].num| == NUM_ENTRIES
  {}

  /** The set bits that belong to none of the files. */
  ghost function Foreign(v: Volume, nodes: seq<Inode>): set<int>
    requires Files(v, nodes)
  {
    FilesSized(v, nodes);
    v.used - BlocksOfAll(v, nodes)
  }

  /** One write neither leaks a block nor takes one that is in use elsewhere. */
  lemma SaveKeepsForeign(v: Volume, nodes: seq<Inode>, save: Save)
    requires Files(v, nodes) && Fits(v, nodes, save)
    requires var (w, after) := AfterSave(v, nodes, save); Files(w, after)
    ensures var (w, after) := AfterSave(v, nodes, save); Foreign(w, after) == Foreign(v, nodes)
  {
    hide ChainOk, FileBlocks, ReadFile, WriteFile, Room, AllPointers, WriteBlocks;
    var node := nodes[save.who];
    RoundTrip(v, node, save.data);
    var (w, made) := WriteFile(v, node, save.data);
    forall i | 0 <= i < |nodes| && i != save.who
      ensures FileBlocks(w, nodes[i].num) == FileBlocks(v, nodes[i].num)
    {
      WriteSparesFile(v, node, save.data, w, made, nodes[i]);
    }
    FilesSized(v, nodes);
    BlocksExchanged(v, nodes, save.who, w, made);
  }

  lemma BlocksExchanged(v: Volume, nodes: seq<Inode>, who: nat, w: Volume, made: Inode)
    requires Files(v, nodes) && who < |nodes| && Files(w, nodes[who := made]) && |made.num| == NUM_ENTRIES
    requires forall i :: 0 <= i < |nodes| ==> |nodes[i].num| == NUM_ENTRIES
    requires forall i :: 0 <= i < |nodes| && i != who ==> FileBlocks(w, nodes[i].num) == FileBlocks(v, nodes[i].num)
    requires w.used == v.used - FileBlocks(v, nodes[who].num) + FileBlocks(w, made.num)
    requires forall x :: x in FileBlocks(w, made.num) ==> x in FileBlocks(v, nodes[who].num) || x !in v.used
    ensures Foreign(w, nodes[who := made]) == Foreign(v, nodes)
  {
    hide ChainOk, FileBlocks;
    var after := nodes[who := made];
    FilesSized(v, nodes);
    FilesSized(w, after);
    forall x | x in Foreign(w, after)
      ensures x in Foreign(v, nodes)
    {
      assert x !in FileBlocks(w, after[who].num);
      forall i | 0 <= i < |nodes|
        ensures x !in FileBlocks(v, nodes[i].num)
      {
        assert i != who ==> x !in FileBlocks(w, after[i].num);
      }
    }
    forall x | x in Foreign(v, nodes)
      ensures x in Foreign(w, after)
    {
      assert x !in FileBlocks(v, nodes[who].num);
      forall i | 0 <= i < |nodes|
        ensures x !in FileBlocks(w, after[i].num)
      {
        assert i != who ==> x !in FileBlocks(v, nodes[i].num);
      }
    }
  }

  /** Every write of the interleaving fits where it stands. */
  ghost predicate AllFit(v: Volume, nodes: seq<Inode>, saves: seq<Save>)
    decreases |saves|
  {
    saves == [] ||
    (Fits(v, nodes, saves[0])
     && (var r := AfterSave(v, nodes, saves[0]);
         AllFit(r.0, r.1, saves[1..])))
  }

  ghost function SaveAll(v: Volume, nodes: seq<Inode>, saves: seq<Save>): (r: (Volume, seq<Inode>))
    requires AllFit(v, nodes, saves)
    ensures |r.1| == |nodes|
    decreases |saves|
  {
    if saves == [] then (v, nodes)
    else
      var r := AfterSave(v, nodes, saves[0]);
      SaveAll(r.0, r.1, saves[1..])
  }

  /** The data last written to file i, nothing if there was no write to it. */
  function Latest(saves: seq<Save>, i: nat): seq<byte> {
    if saves == [] then []
    else
      var later := Latest(saves[1..], i);
      if later == [] && saves[0].who == i then saves[0].data else later
  }

  /** After any interleaving of writes to any number of files, as long as each finds room, every file
      reads as last written, and as at the start if it was not written; no block has leaked. */
  lemma {:induction false} LastWriteIsRead(v: Volume, nodes: seq<Inode>, saves: seq<Save>)
    requires Files(v, nodes) && AllFit(v, nodes, saves)
    ensures var (w, after) := SaveAll(v, nodes, saves);
      && Files(w, after)
      && Foreign(w, after) == Foreign(v, nodes)
      && forall i :: 0 <= i < |nodes| ==>
           Reading(w, after, i) ==
             if Latest(saves, i) == [] then Reading(v, nodes, i) else Contents(Latest(saves, i) + [0])
    decreases |saves|
  {
    hide Files, AfterSave, Reading, FileOk, Room, Foreign;
    if saves != [] {
      SaveKeepsFiles(v, nodes, saves[0]);
      SaveKeepsForeign(v, nodes, saves[0]);
      var r := AfterSave(v, nodes, saves[0]);
      LastWriteIsRead(r.0, r.1, saves[1..]);
    }
  }

  /** A new file, with no pointer set, is a good start: in order and without blocks. */
  lemma NewFileOk(v: Volume)
    requires Sized(v)
    ensures FileOk(v, NoPointers()) && FileBlocks(v, NoPointers()) == {}
  {
    var ptrs := AllPointers(v, NoPointers());
    assert 0 !in v.data;
    CountIs(ptrs, 0);
  }

  /** Any number of new files can be written in any order from there. */
  lemma NewFilesOk(v: Volume, nodes: seq<Inode>)
    requires Sized(v) && forall i :: 0 <= i < |nodes| ==> nodes[i].num == NoPointers() && nodes[i].size == 0
    ensures Files(v, nodes) && forall i :: 0 <= i < |nodes| ==> Reading(v, nodes, i) == Contents([0])
  {
    hide FileOk, FileBlocks;
    NewFileOk(v);
  }
}
