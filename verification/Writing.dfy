/** write_file keeps the volume sound in all three of its cases, and what it does to the pointer
    prefix, to the bitmap and to everybody else's data. */
module Writing {
  import opened Bytes
  import opened Inodes
  import opened Volumes
  import opened Chains
  import opened Ownership

  /** The pointer prefix after a write, from what can be seen before it: the blocks in use,
      the blocks wanted and the number of free blocks. */
  function FinalCount(b: nat, n: nat, free: nat): nat {
    if b <= n then Min(n, b + free) else b - n
  }

  /** `node` is a live file of v, possibly with a new size. */
  ghost predicate LiveFile(v: Volume, node: Inode) {
    && Sound(v)
    && node.id in v.iused
    && node.kind == FILE_KIND
    && 0 <= node.size < MAX_SIZE
    && node == v.recs[node.id].(size := node.size)
  }

  lemma LiveFileGood(v: Volume, node: Inode)
    requires LiveFile(v, node)
    ensures 0 <= node.id < INODES
    ensures Good(v.recs[node.id], node.id) && Good(node, node.id)
    ensures |node.num| == NUM_ENTRIES && Count(node.num, 0) < DIRECT
    ensures forall k :: Count(node.num, 0) <= k < NUM_ENTRIES ==> node.num[k] == 0
    ensures forall k :: 0 <= k < Count(node.num, 0) ==> FIRST_DATA <= node.num[k] < BLOCKS
    ensures Sized(v) && v.recs[node.id].num == node.num
    ensures Chain(v, node.num, NUM_ENTRIES) && Pointers(node.num) <= Owned(v) && Pointers(node.num) <= v.used
    ensures forall k :: 0 <= k < Count(node.num, 0) ==> node.num[k] in v.data
  {
    assert Good(v.recs[node.id], node.id);
    OwnChain(v, node.id);
  }

  /** The same in pieces: the prefix, and the chain. */
  lemma LivePrefix(v: Volume, node: Inode)
    requires LiveFile(v, node)
    ensures |node.num| == NUM_ENTRIES && Count(node.num, 0) < DIRECT
    ensures forall k :: Count(node.num, 0) <= k < NUM_ENTRIES ==> node.num[k] == 0
    ensures forall k :: 0 <= k < Count(node.num, 0) ==> FIRST_DATA <= node.num[k] < BLOCKS
  {
    LiveFileGood(v, node);
  }

  lemma LiveChain(v: Volume, node: Inode)
    requires LiveFile(v, node)
    ensures Sized(v) && |node.num| == NUM_ENTRIES && Chain(v, node.num, NUM_ENTRIES)
  {
    LiveFileGood(v, node);
  }

  /** The blocks an inode gives up that delete_block accepts. */
  ghost function GivenUp(before: set<int>, after: set<int>): set<int> {
    set x | x in before && x !in after && x < ID_LIMIT
  }

  /** The blocks write_file takes off a record with b pointers when it wants n: as the loop is
      written, pointers b - n to b. */
  ghost function Dropped(num: seq<int>, n: nat): set<int> {
    set i | 0 <= i < Count(num, 0) && Count(num, 0) - n <= i && Count(num, 0) > n :: num[i]
  }

  /** What a write of `node` does to the volume: one record replaced, the bits of its new blocks
      set, those of the blocks given up cleared, and no other block's data touched. */
  ghost predicate WriteEffect(v: Volume, node: Inode, w: Volume, num: seq<int>)
    requires 0 <= node.id < |v.recs|
  {
    && w.iused == v.iused
    && w.recs == v.recs[node.id := node.(num := num)]
    && w.data.Keys == v.data.Keys
    && (forall x :: x in v.data && x in v.used && x !in Pointers(node.num) ==> w.data[x] == v.data[x])
    && w.used == v.used + Pointers(num) - GivenUp(Pointers(node.num), Pointers(num))
    && (forall x :: x in Pointers(num) ==> x in Pointers(node.num) || x in FreeIds(v))
  }

  // ---------------------------------------------------------------- equal

  lemma EqualKeepsSound(v: Volume, node: Inode, mem: seq<byte>)
    requires LiveFile(v, node) && Writable(v, node, mem)
    requires Count(node.num, 0) == BlocksFor(node.size)
    ensures var r := WriteFile(v, node, mem);
      && Sound(r.0) && r.1 == node && WriteEffect(v, node, r.0, node.num)
      && Dropped(node.num, BlocksFor(node.size)) == {}
  {
    hide Overlay, Rewrite, Chunks, Representable, DirectShape, Sized, Disjoint, GivenUp;
    LiveFileGood(v, node);
    var n := BlocksFor(node.size);
    var chunks := Chunks(mem, node.size);
    RewriteShell(v, node, chunks, n);
    var w := Rewrite(v, node.num, chunks, n, ID_LIMIT);
    var r := WriteFile(v, node, mem);
    assert node.(num := node.num) == node;
    assert r == (w.(recs := v.recs[node.id := node]), node);
    SameShell(w, r.0);
    ChainSameUse(v, r.0, node.num);
    PutBack(v, r.0, node);
    NotInPrefix(v, w, node.num, n);
    NothingGivenUp(v.used, Pointers(node.num));
  }

  /** The same record over the same bitmap. */
  lemma PutBack(v: Volume, w: Volume, node: Inode)
    requires LiveFile(v, node) && Sized(w) && Chain(w, node.num, |node.num|) && |node.num| == NUM_ENTRIES
    requires 0 <= node.id < |v.recs| && w.recs == v.recs[node.id := node] && w.iused == v.iused && w.used == v.used
    ensures Sound(w)
  {
    hide Representable, DirectShape, Chain;
    LiveFileGood(v, node);
    assert w.iused == v.iused + {node.id};
    PutKeepsSound(v, w, node);
  }

  lemma NothingGivenUp(used: set<int>, mine: set<int>)
    requires mine <= used
    ensures used == used + mine - GivenUp(mine, mine)
  {}

  lemma NotInPrefix(v: Volume, w: Volume, num: seq<int>, n: nat)
    requires n <= |num| && 0 !in v.data && w.data.Keys == v.data.Keys
    requires forall x :: x in v.data && x !in num[..n] ==> w.data[x] == v.data[x]
    ensures forall x :: x in v.data && x in v.used && x !in Pointers(num) ==> w.data[x] == v.data[x]
  {
    forall x | x in v.data && x !in Pointers(num)
      ensures w.data[x] == v.data[x]
    {
      assert x !in num[..n];
    }
  }

  // ----------------------------------------------------------------- grow

  /** Pointers 0 .. b of the old record, then the new ids. */
  lemma GrownPointers(num: seq<int>, ids: seq<int>, b: nat, m: nat)
    requires |num| == NUM_ENTRIES && b + |ids| < DIRECT && m <= |ids|
    requires forall k :: 0 <= k < b ==> FIRST_DATA <= num[k] < BLOCKS
    requires forall k :: b <= k < NUM_ENTRIES ==> num[k] == 0
    requires forall i :: 0 <= i < m ==> FIRST_DATA <= ids[i] < BLOCKS
    requires forall i :: m <= i < |ids| ==> ids[i] == 0
    ensures var grown := num[..b] + ids + num[b + |ids|..];
      && |grown| == NUM_ENTRIES && Count(grown, 0) == b + m && DirectShape(grown)
      && Pointers(grown) == Pointers(num) + Elems(ids[..m])
  {
    var grown := num[..b] + ids + num[b + |ids|..];
    assert forall k :: 0 <= k < b ==> grown[k] == num[k];
    assert forall i :: 0 <= i < |ids| ==> grown[b + i] == ids[i];
    assert forall k :: b + |ids| <= k < NUM_ENTRIES ==> grown[k] == num[k];
    forall k | 0 <= k < NUM_ENTRIES
      ensures k < b + m ==> FIRST_DATA <= grown[k] < BLOCKS
      ensures k >= b + m ==> grown[k] == 0
    {
      if b <= k < b + |ids| {
        assert grown[k] == ids[k - b];
      }
    }
    CountIs(grown, b + m);
    forall x | x in Elems(ids[..m])
      ensures x in Pointers(grown)
    {
      var i :| 0 <= i < m && ids[i] == x;
      assert grown[b + i] == x;
    }
    forall x | x in Pointers(grown)
      ensures x in Pointers(num) + Elems(ids[..m])
    {
      var k :| 0 <= k < NUM_ENTRIES && grown[k] == x && x != 0;
      if k < b {
        assert num[k] == x;
      } else {
        assert ids[..m][k - b] == x;
      }
    }
    forall x | x in Pointers(num)
      ensures x in Pointers(grown)
    {
      var k :| 0 <= k < NUM_ENTRIES && num[k] == x && x != 0;
      assert grown[k] == x;
    }
  }

  lemma GrownChain(v: Volume, w: Volume, num: seq<int>, ids: seq<int>, b: nat, m: nat)
    requires |num| == NUM_ENTRIES && b + |ids| < DIRECT && m <= |ids|
    requires Sized(v) && Sized(w) && Chain(v, num, NUM_ENTRIES) && v.used <= w.used
    requires forall k :: b <= k < NUM_ENTRIES ==> num[k] == 0
    requires forall i :: m <= i < |ids| ==> ids[i] == 0
    requires Distinct(ids[..m])
    requires forall i :: 0 <= i < m ==> FIRST_DATA <= ids[i] < BLOCKS && ids[i] !in v.used && ids[i] in w.used
    ensures Chain(w, num[..b] + ids + num[b + |ids|..], NUM_ENTRIES)
  {
    var grown := num[..b] + ids + num[b + |ids|..];
    assert forall k :: 0 <= k < b ==> grown[k] == num[k];
    assert forall k :: b <= k < b + |ids| ==> grown[k] == ids[k - b];
    assert forall k :: b + |ids| <= k < NUM_ENTRIES ==> grown[k] == 0;
    assert forall i, j :: 0 <= i < j < m ==> ids[..m][i] == ids[i] && ids[..m][j] == ids[j];
  }

  /** The pieces of the grow case, named: the volume after the rewrite, after the allocation,
      and the ids it handed out. */
  lemma GrowPieces(v: Volume, node: Inode, mem: seq<byte>) returns (w: Volume, ids: seq<int>, m: nat)
    requires LiveFile(v, node) && Writable(v, node, mem)
    requires Count(node.num, 0) < BlocksFor(node.size)
    ensures var b, n := Count(node.num, 0), BlocksFor(node.size);
      && m == Min(n - b, |FreeIds(v)|) && |ids| == n - b
      && GrowFile(v, node, mem) == (w, node.num[..b] + ids + node.num[n..])
      && Allocated(v, n - b, w, ids)
      && (var chunks := Chunks(mem, node.size);
          Stored(Rewrite(v, node.num, chunks, b, ID_LIMIT), chunks[b..], n - b, w, ids))
      && w.data.Keys == v.data.Keys
      && (forall x :: x in v.data && x in v.used && x !in Pointers(node.num) ==> w.data[x] == v.data[x])
  {
    hide Allocated, Allocate, Rewrite, DirectShape, Sound, Sized, Chain, Chunks, Stored, FreeIds, Pointers,
         Representable;
    LiveFileGood(v, node);
    var b, n := Count(node.num, 0), BlocksFor(node.size);
    var chunks := Chunks(mem, node.size);
    var v1 := Rewrite(v, node.num, chunks, b, ID_LIMIT);
    var rest := chunks[b..];
    RewriteShell(v, node, chunks, b);
    AllocateAfter(v, v1, rest, n - b);
    w, ids := Allocate(v1, rest, n - b).0, Allocate(v1, rest, n - b).1;
    m := Min(n - b, |FreeIds(v)|);
    GrowOthers(v, v1, w, node, rest, n - b, ids, b, m);
  }

  /** Allocating after a rewrite is allocating from the same bitmap. */
  lemma AllocateAfter(v: Volume, v1: Volume, rest: seq<seq<byte>>, k: nat)
    requires k <= |rest| && Sized(v) && Sized(v1) && FreeIds(v1) == FreeIds(v)
    requires v1.used == v.used && v1.iused == v.iused && v1.recs == v.recs
    ensures var a := Allocate(v1, rest, k);
      Allocated(v, k, a.0, a.1) && Stored(v1, rest, k, a.0, a.1) && a.0.data.Keys == v.data.Keys
  {
    hide Allocate, Stored, Sized, FreeIds;
    AllocateFacts(v1, rest, k);
    AllocateData(v1, rest, k);
    var a := Allocate(v1, rest, k);
    SameKeys(v, a.0);
  }

  lemma RewriteShell(v: Volume, node: Inode, chunks: seq<seq<byte>>, b: nat)
    requires LiveFile(v, node) && b <= |chunks| && b <= Count(node.num, 0)
    ensures var v1 := Rewrite(v, node.num, chunks, b, ID_LIMIT);
      && Sized(v1) && FreeIds(v1) == FreeIds(v) && v1.data.Keys == v.data.Keys && 0 !in v.data
      && v1.used == v.used && v1.iused == v.iused && v1.recs == v.recs
      && b <= NUM_ENTRIES == |node.num|
      && (forall x :: x in v.data && x !in node.num[..b] ==> v1.data[x] == v.data[x])
  {
    LiveFileGood(v, node);
    ChainPrefix(v, node.num, b, NUM_ENTRIES);
    RewriteFacts(v, node.num, chunks, b, ID_LIMIT);
    var v1 := Rewrite(v, node.num, chunks, b, ID_LIMIT);
    SameShell(v, v1);
  }

  lemma TakenIds(v: Volume, w: Volume, k: nat, ids: seq<int>, m: nat)
    requires Allocated(v, k, w, ids) && m == Min(k, |FreeIds(v)|)
    ensures forall i :: 0 <= i < m ==> ids[i] in FreeIds(v) && ids[i] in w.used
  {
    forall i | 0 <= i < m
      ensures ids[i] in FreeIds(v) && ids[i] in w.used
    {
      InElems(ids[..m], ids[i]);
      assert ids[..m][i] == ids[i];
    }
  }

  lemma GrowOthers(v: Volume, v1: Volume, w: Volume, node: Inode, chunks: seq<seq<byte>>, k: nat,
      ids: seq<int>, b: nat, m: nat)
    requires |node.num| == NUM_ENTRIES && b <= NUM_ENTRIES && m == Min(k, |FreeIds(v)|) && Allocated(v, k, w, ids)
    requires 0 !in v.data && v1.data.Keys == v.data.Keys
    requires forall x :: x in v.data && x !in node.num[..b] ==> v1.data[x] == v.data[x]
    requires k <= |chunks| && Stored(v1, chunks, k, w, ids)
    ensures forall x :: x in v.data && x in v.used && x !in Pointers(node.num) ==> x in w.data && w.data[x] == v.data[x]
  {
    TakenIds(v, w, k, ids, m);
    FreeIdsRange(v);
    forall x | x in v.data && x in v.used && x !in Pointers(node.num)
      ensures x in w.data && w.data[x] == v.data[x]
    {
      assert x !in ids;
      assert x !in node.num[..b];
    }
  }

  lemma GrowKeepsSound(v: Volume, node: Inode, mem: seq<byte>)
    requires LiveFile(v, node) && Writable(v, node, mem)
    requires Count(node.num, 0) < BlocksFor(node.size)
    ensures var r := WriteFile(v, node, mem);
      && Sound(r.0) && Good(r.1, node.id) && WriteEffect(v, node, r.0, r.1.num)
      && Count(r.1.num, 0) == FinalCount(Count(node.num, 0), BlocksFor(node.size), |FreeIds(v)|)
      && Pointers(node.num) - Pointers(r.1.num) == {} == Dropped(node.num, BlocksFor(node.size))
  {
    hide GrowFile, Chain, Pointers, FreeIds, Elems, DirectShape, Sound, Chunks, Stored, Allocated, WriteEffect, Good;
    LiveFileGood(v, node);
    var b, n := Count(node.num, 0), BlocksFor(node.size);
    var w0, ids, m := GrowPieces(v, node, mem);
    var num := node.num[..b] + ids + node.num[n..];
    GrownNum(v, node, w0, ids, n);
    GrowInstall(v, node, w0, num, ids[..m]);
    assert WriteFile(v, node, mem) == (w0.(recs := v.recs[node.id := node.(num := num)]), node.(num := num));
  }

  /** What an allocation leaves, id by id. */
  lemma AllocatedParts(v: Volume, w: Volume, k: nat, ids: seq<int>, m: nat)
    requires Allocated(v, k, w, ids) && m == Min(k, |FreeIds(v)|)
    ensures |ids| == k && Sized(w) && w.iused == v.iused && w.recs == v.recs
    ensures w.used == v.used + Elems(ids[..m]) && v.used <= w.used && Elems(ids[..m]) <= FreeIds(v)
    ensures Distinct(ids[..m]) && forall i :: m <= i < k ==> ids[i] == 0
    ensures forall i :: 0 <= i < m ==> FIRST_DATA <= ids[i] < BLOCKS && ids[i] !in v.used && ids[i] in w.used
  {
    hide Sized, Distinct;
    TakenIds(v, w, k, ids, m);
    FreeIdsRange(v);
    UsedGrows(v, w, ids[..m]);
  }

  /** The pointer array of the grown file. */
  lemma GrownNum(v: Volume, node: Inode, w: Volume, ids: seq<int>, n: nat)
    requires LiveFile(v, node) && Count(node.num, 0) < n < DIRECT && Allocated(v, n - Count(node.num, 0), w, ids)
    ensures |node.num| == NUM_ENTRIES && |ids| == n - Count(node.num, 0)
    ensures var b, m := Count(node.num, 0), Min(n - Count(node.num, 0), |FreeIds(v)|);
      var num := node.num[..b] + ids + node.num[n..];
      && DirectShape(num) && Count(num, 0) == b + m && Pointers(num) == Pointers(node.num) + Elems(ids[..m])
      && Sized(w) && Chain(w, num, NUM_ENTRIES)
      && w.iused == v.iused && w.recs == v.recs
      && w.used == v.used + Elems(ids[..m]) && Elems(ids[..m]) <= FreeIds(v)
  {
    hide Sized, Chain, Pointers, FreeIds, Elems, DirectShape, LiveFile, Distinct, Allocated;
    LivePrefix(v, node);
    LiveChain(v, node);
    var b := Count(node.num, 0);
    var m := Min(n - b, |FreeIds(v)|);
    AllocatedParts(v, w, n - b, ids, m);
    GrownPointers(node.num, ids, b, m);
    GrownChain(v, w, node.num, ids, b, m);
  }

  /** The grown record goes to disk. */
  lemma GrowInstall(v: Volume, node: Inode, w0: Volume, num: seq<int>, ids: seq<int>)
    requires LiveFile(v, node) && DirectShape(num) && Sized(w0) && Chain(w0, num, NUM_ENTRIES)
    requires w0.iused == v.iused && w0.recs == v.recs && w0.data.Keys == v.data.Keys
    requires w0.used == v.used + Elems(ids) && Elems(ids) <= FreeIds(v)
    requires Pointers(num) == Pointers(node.num) + Elems(ids)
    requires forall x :: x in v.data && x in v.used && x !in Pointers(node.num) ==> w0.data[x] == v.data[x]
    ensures 0 <= node.id < |v.recs|
    ensures var made := node.(num := num);
      var w := w0.(recs := v.recs[node.id := made]);
      && Sound(w) && Good(made, node.id) && WriteEffect(v, node, w, num)
      && Pointers(node.num) - Pointers(num) == {}
  {
    hide Pointers, FreeIds, Elems, Sound, Good, GivenUp;
    LiveFileGood(v, node);
    StillGood(node, num);
    var made := node.(num := num);
    var w := w0.(recs := v.recs[node.id := made]);
    SameShell(w0, w);
    ChainFrame(w0, w, num);
    GrowSound(v, w, made, ids);
    NewPointersFresh(v, w, node.num, num, ids);
  }

  lemma NewPointersFresh(v: Volume, w: Volume, num: seq<int>, grown: seq<int>, ids: seq<int>)
    requires Pointers(grown) == Pointers(num) + Elems(ids) && Elems(ids) <= FreeIds(v)
    requires w.used == v.used + Elems(ids) && Pointers(num) <= v.used
    ensures forall x :: x in Pointers(grown) ==> x in Pointers(num) || x in FreeIds(v)
    ensures w.used == v.used + Pointers(grown) - GivenUp(Pointers(num), Pointers(grown))
    ensures Pointers(num) - Pointers(grown) == {}
  {}

  lemma UsedGrows(v: Volume, w: Volume, ids: seq<int>)
    requires w.used == v.used + Elems(ids)
    ensures v.used <= w.used
  {}

  /** Another pointer array of the direct shape fits the record as well. */
  lemma StillGood(node: Inode, num: seq<int>)
    requires Good(node, node.id) && node.kind == FILE_KIND && DirectShape(num)
    ensures Good(node.(num := num), node.id)
  {
    forall x | x in num
      ensures Int32(x)
    {
      var k :| 0 <= k < |num| && num[k] == x;
      assert k >= Count(num, 0) || FIRST_DATA <= num[k] < BLOCKS;
    }
  }

  lemma GrowSound(v: Volume, w: Volume, node: Inode, ids: seq<int>)
    requires Sound(v) && Sized(w) && node.id in v.iused && Good(node, node.id)
    requires w.recs == v.recs[node.id := node] && w.iused == v.iused
    requires w.used == v.used + Elems(ids) && Elems(ids) <= FreeIds(v)
    requires Chain(w, node.num, NUM_ENTRIES)
    requires Pointers(node.num) == Pointers(v.recs[node.id].num) + Elems(ids)
    ensures Sound(w)
  {
    var mine := Pointers(v.recs[node.id].num);
    OwnChain(v, node.id);
    FreeIdsRange(v);
    assert w.iused == v.iused + {node.id};
    assert Pointers(node.num) !! Owned(v) - mine;
    PutKeepsSound(v, w, node);
  }

  // --------------------------------------------------------------- shrink

  /** The prefix the shrink branch keeps: b - n pointers, whatever the new size. */
  lemma ShrunkPointers(num: seq<int>, b: nat, n: nat)
    requires |num| == NUM_ENTRIES && 0 < n < b < DIRECT && Count(num, 0) == b && DirectShape(num)
    requires forall i, j :: 0 <= i < j < NUM_ENTRIES && num[i] == num[j] ==> num[i] == 0
    ensures var kept := num[..b - n] + seq(n, _ => 0) + num[b..];
      && |kept| == NUM_ENTRIES && Count(kept, 0) == b - n && DirectShape(kept)
      && Pointers(kept) <= Pointers(num)
      && Pointers(num) - Pointers(kept) == set i | b - n <= i < b :: num[i]
  {
    var kept := num[..b - n] + seq(n, _ => 0) + num[b..];
    assert forall k :: 0 <= k < b - n ==> kept[k] == num[k];
    assert forall k :: b - n <= k < NUM_ENTRIES ==> kept[k] == 0;
    CountIs(kept, b - n);
    forall x | x in Pointers(num) - Pointers(kept)
      ensures exists i :: b - n <= i < b && num[i] == x
    {
      var k :| 0 <= k < NUM_ENTRIES && num[k] == x && x != 0;
      assert kept[k] == num[k] || b - n <= k < b;
    }
    forall i | b - n <= i < b
      ensures num[i] in Pointers(num) && num[i] !in Pointers(kept)
    {
      assert num[i] != 0;
    }
  }

  /** The pieces of the shrink case: the pointers it keeps, the blocks it gives back. */
  lemma ShrinkPieces(v: Volume, node: Inode, mem: seq<byte>)
      returns (w: Volume, num: seq<int>, gone: set<int>)
    requires LiveFile(v, node) && Writable(v, node, mem)
    requires Count(node.num, 0) > BlocksFor(node.size)
    ensures var b, n := Count(node.num, 0), BlocksFor(node.size);
      && num == node.num[..b - n] + seq(n, _ => 0) + node.num[b..]
      && ShrinkFile(v, node, mem) == (w, num)
      && gone == Released(node.num, b - n, n, ID_LIMIT) && w.used == v.used - gone
      && w.iused == v.iused && w.recs == v.recs && w.data.Keys == v.data.Keys
      && Chain(w, num, NUM_ENTRIES)
      && (forall i :: 0 <= i < n && num[i] != 0 ==>
            (num[i] in v.data && w.data[num[i]] ==
              if num[i] < ID_LIMIT then Overlay(v.data[num[i]], FullChunks(mem, n)[i]) else v.data[num[i]]))
      && (forall i :: n <= i < b - n ==> num[i] in v.data && w.data[num[i]] == v.data[num[i]])
      && (forall x :: x in v.data && x !in Pointers(node.num) ==> w.data[x] == v.data[x])
  {
    hide LiveFile, Overlay, Rewrite, Release, DirectShape, Pointers, Released, Chunks, FullChunks, Sized;
    LivePrefix(v, node);
    LiveChain(v, node);
    var b, n := Count(node.num, 0), BlocksFor(node.size);
    num := node.num[..b - n] + seq(n, _ => 0) + node.num[b..];
    gone := Released(node.num, b - n, n, ID_LIMIT);
    var v1 := v.(used := v.used - gone);
    ReleaseFacts(v, node.num, b - n, n, ID_LIMIT);
    NoBlockZero(v);
    KeptChain(v, v1, node.num, num, b, n, gone);
    w := Rewrite(v1, num, FullChunks(mem, n), n, ID_LIMIT);
    RewriteKept(v1, w, node.num, num, FullChunks(mem, n), b, n);
  }

  lemma RewriteKept(v1: Volume, w: Volume, num: seq<int>, kept: seq<int>, chunks: seq<seq<byte>>, b: nat, n: nat)
    requires |num| == |kept| == NUM_ENTRIES && n <= b <= NUM_ENTRIES && |chunks| == n && 0 !in v1.data
    requires Chain(v1, kept, NUM_ENTRIES)
    requires forall k :: 0 <= k < NUM_ENTRIES ==> kept[k] == if k < b - n then num[k] else 0
    requires w == Rewrite(v1, kept, chunks, n, ID_LIMIT)
    ensures w.used == v1.used && w.iused == v1.iused && w.recs == v1.recs && w.data.Keys == v1.data.Keys
    ensures Chain(w, kept, NUM_ENTRIES)
    ensures forall i :: 0 <= i < n && kept[i] != 0 ==>
      (kept[i] in v1.data && w.data[kept[i]] ==
        if kept[i] < ID_LIMIT then Overlay(v1.data[kept[i]], chunks[i]) else v1.data[kept[i]])
    ensures forall i :: n <= i < NUM_ENTRIES && kept[i] != 0 ==>
      kept[i] in v1.data && w.data[kept[i]] == v1.data[kept[i]]
    ensures forall x :: x in v1.data && x !in Pointers(num) ==> w.data[x] == v1.data[x]
  {
    hide Overlay, Rewrite, Pointers;
    ChainPrefix(v1, kept, n, NUM_ENTRIES);
    RewriteFacts(v1, kept, chunks, n, ID_LIMIT);
    KeptOthers(v1, v1, w, num, kept, b, n);
    ChainSameUse(v1, w, kept);
  }

  lemma ChainSameUse(v: Volume, w: Volume, num: seq<int>)
    requires |num| == NUM_ENTRIES && Chain(v, num, NUM_ENTRIES) && w.used == v.used && w.data.Keys == v.data.Keys
    ensures Chain(w, num, NUM_ENTRIES)
  {
    assert forall x :: x in v.data ==> x in w.data by {
      assert forall x :: x in v.data.Keys <==> x in w.data.Keys;
    }
  }

  lemma NoBlockZero(v: Volume)
    requires Sized(v)
    ensures 0 !in v.data
  {}

  lemma KeptOthers(v: Volume, v1: Volume, w: Volume, num: seq<int>, kept: seq<int>, b: nat, n: nat)
    requires |num| == |kept| == NUM_ENTRIES && n <= b <= NUM_ENTRIES && 0 !in v.data && v1.data == v.data
    requires forall k :: 0 <= k < NUM_ENTRIES ==> kept[k] == if k < b - n then num[k] else 0
    requires w.data.Keys == v.data.Keys
    requires forall x :: x in v.data && x !in kept[..n] ==> w.data[x] == v1.data[x]
    ensures forall x :: x in v.data && x !in Pointers(num) ==> w.data[x] == v.data[x]
  {
    forall x | x in v.data && x !in Pointers(num)
      ensures w.data[x] == v.data[x]
    {
      assert x !in kept[..n];
    }
  }

  lemma ShrinkKeepsSound(v: Volume, node: Inode, mem: seq<byte>)
    requires LiveFile(v, node) && Writable(v, node, mem)
    requires Count(node.num, 0) > BlocksFor(node.size)
    ensures var r := WriteFile(v, node, mem);
      && Sound(r.0) && Good(r.1, node.id) && WriteEffect(v, node, r.0, r.1.num)
      && Count(r.1.num, 0) == Count(node.num, 0) - BlocksFor(node.size)
      && Pointers(node.num) - Pointers(r.1.num) == Dropped(node.num, BlocksFor(node.size))
      && Pointers(r.1.num) <= Pointers(node.num)
  {
    hide Disjoint, Accounted, Representable, ShrinkFile, Chain, Owned, RecordsGood, GivenUp;
    LiveFileGood(v, node);
    var b, n := Count(node.num, 0), BlocksFor(node.size);
    var w0, num, gone := ShrinkPieces(v, node, mem);
    DistinctPointers(v, node.num);
    ShrunkPointers(node.num, b, n);
    StillGood(node, num);
    var w := w0.(recs := v.recs[node.id := node.(num := num)]);
    assert WriteFile(v, node, mem) == (w, node.(num := num));
    SameShell(v, w);
    assert Chain(w, num, NUM_ENTRIES) by { ChainFrame(w0, w, num); }
    ShrinkSound(v, w, node.(num := num), node.num, b, n, gone);
  }

  lemma DistinctPointers(v: Volume, num: seq<int>)
    requires |num| == NUM_ENTRIES && Chain(v, num, NUM_ENTRIES)
    ensures forall i, j :: 0 <= i < j < NUM_ENTRIES && num[i] == num[j] ==> num[i] == 0
  {}

  lemma ChainFrame(v: Volume, w: Volume, num: seq<int>)
    requires |num| == NUM_ENTRIES && Chain(v, num, NUM_ENTRIES) && w.used == v.used && w.data == v.data
    ensures Chain(w, num, NUM_ENTRIES)
  {}

  lemma KeptChain(v: Volume, v1: Volume, num: seq<int>, kept: seq<int>, b: nat, n: nat, gone: set<int>)
    requires |num| == |kept| == NUM_ENTRIES && n <= b <= NUM_ENTRIES
    requires Chain(v, num, NUM_ENTRIES)
    requires gone == Released(num, b - n, n, ID_LIMIT)
    requires v1.data == v.data && v1.used == v.used - gone
    requires forall k :: 0 <= k < NUM_ENTRIES ==> kept[k] == if k < b - n then num[k] else 0
    ensures Chain(v1, kept, NUM_ENTRIES)
  {
    forall i | 0 <= i < b - n && num[i] != 0
      ensures num[i] !in gone
    {}
  }

  lemma ShrinkSound(v: Volume, w: Volume, node: Inode, num: seq<int>, b: nat, n: nat, gone: set<int>)
    requires Sound(v) && Sized(w) && node.id in v.iused && Good(node, node.id)
    requires num == v.recs[node.id].num && n <= b <= NUM_ENTRIES && |num| == NUM_ENTRIES
    requires w.recs == v.recs[node.id := node] && w.iused == v.iused
    requires gone == Released(num, b - n, n, ID_LIMIT)
    requires w.used == v.used - gone
    requires Chain(w, node.num, NUM_ENTRIES)
    requires Pointers(node.num) <= Pointers(num)
    requires Pointers(num) - Pointers(node.num) == set i | b - n <= i < b :: num[i]
    ensures Sound(w)
    ensures w.used == v.used + Pointers(node.num) - GivenUp(Pointers(num), Pointers(node.num))
  {
    OwnChain(v, node.id);
    assert w.iused == v.iused + {node.id};
    var lost := Pointers(num) - Pointers(node.num);
    assert Good(v.recs[node.id], node.id);
    assert gone == set x | x in lost && x < ID_LIMIT by {
      forall x | x in lost && x < ID_LIMIT
        ensures x in gone
      {
        assert x in Pointers(num);
      }
    }
    assert gone == GivenUp(Pointers(num), Pointers(node.num));
    assert Pointers(num) <= v.used;
    PutKeepsSound(v, w, node);
  }

  // ------------------------------------------------------------- together

  /** write_file in all three cases: the volume stays sound, the pointers stay a prefix of known
      length, nobody else's record or data changes, and the block bitmap changes by exactly the new
      blocks and the dropped ones below the id limit. */
  lemma WriteKeepsSound(v: Volume, node: Inode, mem: seq<byte>)
    requires LiveFile(v, node) && Writable(v, node, mem)
    ensures var r := WriteFile(v, node, mem);
      && Sound(r.0) && Good(r.1, node.id) && r.1 == node.(num := r.1.num)
      && WriteEffect(v, node, r.0, r.1.num)
      && Count(r.1.num, 0) == FinalCount(Count(node.num, 0), BlocksFor(node.size), |FreeIds(v)|)
      && Pointers(node.num) - Pointers(r.1.num) == Dropped(node.num, BlocksFor(node.size))
      && (Count(node.num, 0) >= BlocksFor(node.size) ==> Pointers(r.1.num) <= Pointers(node.num))
  {
    var b, n := Count(node.num, 0), BlocksFor(node.size);
    if b < n {
      GrowKeepsSound(v, node, mem);
    } else if b > n {
      ShrinkKeepsSound(v, node, mem);
    } else {
      EqualKeepsSound(v, node, mem);
      LiveFileGood(v, node);
    }
  }

  // ------------------------------------------------- the end of the regime

  /** write_file learns how many blocks are in use: num[12] is clear, so it scans the direct pointers,
      and one of them is zero. Otherwise it scans an indirect block it never loaded, or finds nothing. */
  predicate CountIsFound(num: seq<int>)
    requires |num| == NUM_ENTRIES
  {
    num[DIRECT] == 0 && 0 in num[..DIRECT]
  }

  /** read_file and delete_file take num[11] for the indirect block and load it. */
  predicate LoadsIndirect(num: seq<int>)
    requires |num| == NUM_ENTRIES
  {
    num[DIRECT - 1] != 0
  }

  /** What the grow branch allocates for the chunks behind the blocks in use. */
  function Grown(v: Volume, num: seq<int>, chunks: seq<seq<byte>>): (r: (Volume, seq<int>))
    requires Count(num, 0) < |chunks|
    ensures |r.1| == |chunks| - Count(num, 0)
  {
    var b := Count(num, 0);
    Allocate(Rewrite(v, num, chunks, b, ID_LIMIT), chunks[b..], |chunks| - b)
  }

  /** The pointer array after growing to any number of blocks. Ids beyond the twelfth go into a struct;
      from thirteen blocks on one more block is made for it, and its id goes into num[12]. */
  function GrownArray(v: Volume, num: seq<int>, chunks: seq<seq<byte>>): (grown: seq<int>)
    requires |num| == NUM_ENTRIES && Count(num, 0) < |chunks| && Count(num, 0) < DIRECT
    ensures |grown| == NUM_ENTRIES
  {
    var r := Grown(v, num, chunks);
    ArrayOf(num, r.1, FirstFree(r.0.used, FIRST_DATA))
  }

  /** The ids behind the prefix, and the id of the next block in num[12] when more than twelve are in use. */
  function ArrayOf(num: seq<int>, ids: seq<int>, next: int): (grown: seq<int>)
    requires |num| == NUM_ENTRIES && Count(num, 0) < DIRECT
    ensures |grown| == NUM_ENTRIES
    ensures forall k :: 0 <= k < NUM_ENTRIES && k != DIRECT ==>
      grown[k] == if Count(num, 0) <= k < Min(Count(num, 0) + |ids|, DIRECT) then ids[k - Count(num, 0)] else num[k]
    ensures grown[DIRECT] == if Count(num, 0) + |ids| > DIRECT then next else num[DIRECT]
  {
    var b, n := Count(num, 0), Count(num, 0) + |ids|;
    seq(NUM_ENTRIES, (k: int) requires 0 <= k < NUM_ENTRIES =>
      if b <= k < Min(n, DIRECT) then ids[k - b] else if k == DIRECT && n > DIRECT then next else num[k])
  }

  /** Why 22528 bytes: after growing to n blocks the next write finds its block count, and the readers
      leave num[11] alone, exactly as long as fewer than twelve blocks came out; num[12] is set exactly
      when a thirteenth was asked for and a block for the indirect pointers was left. Below the
      boundary this is the array write_file leaves. */
  lemma RegimeEndsIff(v: Volume, node: Inode, chunks: seq<seq<byte>>)
    requires LiveFile(v, node) && Count(node.num, 0) < |chunks|
    ensures |node.num| == NUM_ENTRIES && Count(node.num, 0) < DIRECT
    ensures var b, n, free := Count(node.num, 0), |chunks|, |FreeIds(v)|;
      var grown := GrownArray(v, node.num, chunks);
      && (CountIsFound(grown) <==> Min(n, b + free) < DIRECT)
      && (LoadsIndirect(grown) <==> !CountIsFound(grown))
      && (grown[DIRECT] != 0 <==> n > DIRECT && free > n - b)
    ensures forall mem :: Writable(v, node, mem) && chunks == Chunks(mem, node.size) ==>
      GrownArray(v, node.num, chunks) == WriteFile(v, node, mem).1.num
  {
    hide LiveFile, FreeIds, GrownArray, CountIsFound, LoadsIndirect, WriteFile, Chunks;
    LivePrefix(v, node);
    RegimeScan(v, node, chunks);
    forall mem | Writable(v, node, mem) && chunks == Chunks(mem, node.size)
      ensures GrownArray(v, node.num, chunks) == WriteFile(v, node, mem).1.num
    {
      GrownArrayIsWritten(v, node, mem);
    }
  }

  lemma RegimeScan(v: Volume, node: Inode, chunks: seq<seq<byte>>)
    requires LiveFile(v, node) && Count(node.num, 0) < |chunks|
    requires |node.num| == NUM_ENTRIES && Count(node.num, 0) < DIRECT
    ensures var b, n, free := Count(node.num, 0), |chunks|, |FreeIds(v)|;
      var grown := GrownArray(v, node.num, chunks);
      && (CountIsFound(grown) <==> Min(n, b + free) < DIRECT)
      && (LoadsIndirect(grown) <==> !CountIsFound(grown))
      && (grown[DIRECT] != 0 <==> n > DIRECT && free > n - b)
  {
    hide LiveFile, FreeIds, Grown, ArrayOf, CountIsFound, LoadsIndirect;
    LivePrefix(v, node);
    GrownNonzero(v, node, chunks);
    var r := Grown(v, node.num, chunks);
    RegimeOf(node.num, |FreeIds(v)|, r.1, FirstFree(r.0.used, FIRST_DATA));
  }

  lemma RegimeOf(num: seq<int>, free: nat, ids: seq<int>, next: int)
    requires |num| == NUM_ENTRIES && Count(num, 0) < DIRECT && ids != []
    requires forall k :: Count(num, 0) <= k < NUM_ENTRIES ==> num[k] == 0
    requires forall i :: 0 <= i < |ids| ==> (ids[i] != 0 <==> i < free)
    requires next != 0 <==> free > |ids|
    ensures var b, n, grown := Count(num, 0), Count(num, 0) + |ids|, ArrayOf(num, ids, next);
      && (CountIsFound(grown) <==> Min(n, b + free) < DIRECT)
      && (LoadsIndirect(grown) <==> !CountIsFound(grown))
      && (grown[DIRECT] != 0 <==> n > DIRECT && free > n - b)
  {
    hide ArrayOf;
    ZeroFrom(ArrayOf(num, ids, next), Count(num, 0) + Min(|ids|, free));
  }

  lemma ZeroFrom(num: seq<int>, p: nat)
    requires |num| == NUM_ENTRIES && forall k :: 0 <= k < DIRECT ==> (num[k] != 0 <==> k < p)
    ensures 0 in num[..DIRECT] <==> p < DIRECT
    ensures num[DIRECT - 1] == 0 <==> p < DIRECT
  {
    if p < DIRECT {
      assert num[..DIRECT][p] == 0;
    }
  }

  lemma GrownNonzero(v: Volume, node: Inode, chunks: seq<seq<byte>>)
    requires LiveFile(v, node) && Count(node.num, 0) < |chunks|
    ensures var r, free := Grown(v, node.num, chunks), |FreeIds(v)|;
      && (forall i :: 0 <= i < |r.1| ==> (r.1[i] != 0 <==> i < free))
      && (FirstFree(r.0.used, FIRST_DATA) != 0 <==> free > |chunks| - Count(node.num, 0))
  {
    hide LiveFile, Good, Sized, Chain, Pointers, FreeIds, DirectShape, Rewrite, Allocate, Allocated, Stored;
    LiveFileGood(v, node);
    var b, n := Count(node.num, 0), |chunks|;
    var v1 := Rewrite(v, node.num, chunks, b, ID_LIMIT);
    RewriteShell(v, node, chunks, b);
    AllocateAfter(v, v1, chunks[b..], n - b);
    var r := Grown(v, node.num, chunks);
    NonzeroIds(v, r.0, n - b, r.1);
  }

  lemma NonzeroIds(v: Volume, w: Volume, k: nat, ids: seq<int>)
    requires Allocated(v, k, w, ids)
    ensures |ids| == k && forall i :: 0 <= i < k ==> (ids[i] != 0 <==> i < |FreeIds(v)|)
    ensures FirstFree(w.used, FIRST_DATA) != 0 <==> |FreeIds(v)| > k
  {
    TakenIds(v, w, k, ids, Min(k, |FreeIds(v)|));
    FreeIdsRange(v);
    FirstFreeIsLeast(w.used, FIRST_DATA);
    if FreeIds(w) == {} {
      assert |FreeIds(w)| == 0;
      assert forall x :: FIRST_DATA <= x < BLOCKS && x !in w.used ==> x in FreeIds(w);
    } else {
      assert |FreeIds(w)| != 0 by { SomeElement(FreeIds(w)); }
      var x :| x in FreeIds(w);
      assert x !in w.used;
    }
  }

  lemma SomeElement(x: set<int>)
    requires x != {}
    ensures |x| > 0
  {}

  lemma GrownArrayIsWritten(v: Volume, node: Inode, mem: seq<byte>)
    requires Writable(v, node, mem) && Count(node.num, 0) < BlocksFor(node.size)
    ensures GrownArray(v, node.num, Chunks(mem, node.size)) == WriteFile(v, node, mem).1.num
  {
    hide Allocate, Rewrite, Chunks, ShrinkFile, DirectShape;
    ShapeLength(node.num);
    var b, n := Count(node.num, 0), BlocksFor(node.size);
    hide ArrayOf;
    var r := Grown(v, node.num, Chunks(mem, node.size));
    ArrayBelow(node.num, r.1, FirstFree(r.0.used, FIRST_DATA));
    assert WriteFile(v, node, mem).1.num == node.num[..b] + r.1 + node.num[n..];
  }

  lemma ShapeLength(num: seq<int>)
    requires DirectShape(num)
    ensures |num| == NUM_ENTRIES && Count(num, 0) < DIRECT
  {}

  /** Below twelve blocks the new ids replace a slice of the array. */
  lemma ArrayBelow(num: seq<int>, ids: seq<int>, next: int)
    requires |num| == NUM_ENTRIES && Count(num, 0) + |ids| < DIRECT
    ensures var b, n := Count(num, 0), Count(num, 0) + |ids|;
      ArrayOf(num, ids, next) == num[..b] + ids + num[n..]
  {
    hide ArrayOf;
  }
}
