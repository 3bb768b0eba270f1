/** When a write can be read back: the exact condition, seen from the state before the write. */
module Content {
  import opened Bytes
  import opened Inodes
  import opened Volumes
  import opened Chains
  import opened Ownership
  import opened Writing
  import opened Directories
  import opened Invariant
  import opened Runs

  /** The byte k of a joined chain is byte k % 2048 of block k / 2048. */
  lemma {:induction false} JoinedAt(v: Volume, ptrs: seq<int>, p: nat, k: nat)
    requires p <= |ptrs| && (forall i :: 0 <= i < p ==> ptrs[i] in v.data) && k < p * BLOCK_SIZE
    ensures Joined(v, ptrs, p)[k] == v.data[ptrs[k / BLOCK_SIZE]][k % BLOCK_SIZE]
  {
    if k < (p - 1) * BLOCK_SIZE {
      JoinedAt(v, ptrs, p - 1, k);
    }
  }

  /** A chain whose blocks hold the same in two volumes joins to the same bytes. */
  lemma {:induction false} JoinedAlike(v: Volume, w: Volume, num: seq<int>, p: nat)
    requires p <= |num|
    requires forall k :: 0 <= k < p ==> num[k] in v.data && num[k] in w.data && w.data[num[k]] == v.data[num[k]]
    ensures Joined(w, num, p) == Joined(v, num, p)
  {
    if p > 0 {
      JoinedAlike(v, w, num, p - 1);
    }
  }

  /** The blocks already in use whose new content write_file cannot store, because modify_block
      refuses their id, must hold that content already. */
  ghost predicate OldBlocksTakeIt(v: Volume, node: Inode, mem: seq<byte>, p: nat)
    requires Writable(v, node, mem) && p <= BlocksFor(node.size)
  {
    forall i, j ::
      0 <= i < p && i < Count(node.num, 0) && 0 <= j < BLOCK_SIZE && i * BLOCK_SIZE + j < node.size ==>
        TakesByte(v, node.num[i], mem, i, j)
  }

  ghost predicate TakesByte(v: Volume, id: int, mem: seq<byte>, i: int, j: int) {
    id < ID_LIMIT
    || (0 <= j < BLOCK_SIZE && 0 <= i * BLOCK_SIZE + j < |mem|
        && id in v.data && v.data[id][j] == mem[i * BLOCK_SIZE + j])
  }

  /** The condition under which a write of 0 < size < 22528 bytes can be read back. The pointer
      prefix it will leave must cover the size, the last block at most empty or full; this fails
      when the disk fills up early and in every shrink but the one to half the blocks (or to half
      and a bit, for a multiple of the block size). */
  ghost predicate WriteLands(v: Volume, node: Inode, mem: seq<byte>)
    requires Writable(v, node, mem)
  {
    var p := FinalCount(Count(node.num, 0), BlocksFor(node.size), |FreeIds(v)|);
    && p > 0
    && (p - 1) * BLOCK_SIZE <= node.size <= p * BLOCK_SIZE
    && OldBlocksTakeIt(v, node, mem, p)
  }

  /** Byte j of block i of the file's chain after the write. A new block holds the data and zeros. In a
      block in use the data come in where modify_block takes the id, as far as the file reaches, and in
      the shrink branch, which offers whole blocks, to the end of the last one; all other bytes stay. */
  function ByteAfter(v: Volume, node: Inode, mem: seq<byte>, i: nat, j: nat): byte
    requires Writable(v, node, mem) && j < BLOCK_SIZE
    requires i < Count(node.num, 0) ==> node.num[i] in v.data
  {
    var b, n, k := Count(node.num, 0), BlocksFor(node.size), i * BLOCK_SIZE + j;
    if i >= b then (if k < node.size then mem[k] else 0)
    else if node.num[i] < ID_LIMIT && i < n && (k < node.size || b > n) then mem[k]
    else v.data[node.num[i]][j]
  }

  /** What block i holds after the write. */
  ghost predicate Landed(v: Volume, node: Inode, mem: seq<byte>, w: Volume, num: seq<int>, i: nat)
    requires Writable(v, node, mem) && |num| == NUM_ENTRIES && i < DIRECT
  {
    && num[i] in w.data
    && (i < Count(node.num, 0) ==> num[i] == node.num[i] && num[i] in v.data)
    && (forall j :: 0 <= j < BLOCK_SIZE ==> w.data[num[i]][j] == ByteAfter(v, node, mem, i, j))
  }

  /** Chunk i, cut or whole, supplies the file's bytes of block i, and what comes behind them. */
  lemma ChunkBytes(mem: seq<byte>, size: nat, i: nat, b: Block)
    requires BlocksFor(size) * BLOCK_SIZE <= |mem| && i < BlocksFor(size)
    ensures forall j :: 0 <= j < BLOCK_SIZE ==>
      && Overlay(b, Chunks(mem, size)[i])[j] == (if i * BLOCK_SIZE + j < size then mem[i * BLOCK_SIZE + j] else b[j])
      && Padded(Chunks(mem, size)[i])[j] == (if i * BLOCK_SIZE + j < size then mem[i * BLOCK_SIZE + j] else 0)
    ensures forall j :: 0 <= j < BLOCK_SIZE ==>
      Overlay(b, FullChunks(mem, BlocksFor(size))[i])[j] == mem[i * BLOCK_SIZE + j]
  {
    var c := Chunks(mem, size)[i];
    assert c == mem[i * BLOCK_SIZE..i * BLOCK_SIZE + ChunkLen(size, i)];
  }

  lemma EqualLands(v: Volume, node: Inode, mem: seq<byte>, i: nat)
    requires LiveFile(v, node) && Writable(v, node, mem)
    requires Count(node.num, 0) == BlocksFor(node.size) && i < BlocksFor(node.size)
    ensures var r := WriteFile(v, node, mem); Landed(v, node, mem, r.0, r.1.num, i)
  {
    hide Overlay, Padded, Chunks, FullChunks, Sound;
    LiveFileGood(v, node);
    var n := BlocksFor(node.size);
    ChainPrefix(v, node.num, n, NUM_ENTRIES);
    RewriteFacts(v, node.num, Chunks(mem, node.size), n, ID_LIMIT);
    ChunkBytes(mem, node.size, i, v.data[node.num[i]]);
  }

  lemma GrowLandsOld(v: Volume, node: Inode, mem: seq<byte>, i: nat)
    requires LiveFile(v, node) && Writable(v, node, mem)
    requires Count(node.num, 0) < BlocksFor(node.size) && i < Count(node.num, 0)
    ensures var r := WriteFile(v, node, mem); |r.1.num| == NUM_ENTRIES && Landed(v, node, mem, r.0, r.1.num, i)
  {
    hide Overlay, Padded, Chunks, FullChunks, LiveFile, DirectShape, Rewrite, Allocate, Sized, FreeIds, Chain, Good,
         Pointers, Owned, WriteFile, Rewritten, Landed;
    LiveFileGood(v, node);
    var b, n := Count(node.num, 0), BlocksFor(node.size);
    var chunks := Chunks(mem, node.size);
    var v1 := Rewrite(v, node.num, chunks, b, ID_LIMIT);
    InUse(v, node.num, i);
    ChainPrefix(v, node.num, b, NUM_ENTRIES);
    RewriteFacts(v, node.num, chunks, b, ID_LIMIT);
    RewrittenAt(v, node.num, chunks, b, ID_LIMIT, v1, i);
    RewriteShell(v, node, chunks, b);
    OldSurvive(v1, chunks[b..], n - b, node.num[i]);
    OldPointer(v, node, mem, i);
    OldLanded(v, node, mem, WriteFile(v, node, mem).0, WriteFile(v, node, mem).1.num, i);
  }

  lemma OldLanded(v: Volume, node: Inode, mem: seq<byte>, w: Volume, num: seq<int>, i: nat)
    requires Writable(v, node, mem) && |num| == NUM_ENTRIES && i < Count(node.num, 0) <= BlocksFor(node.size)
    requires num[i] == node.num[i] && num[i] in v.data && num[i] in w.data && i < DIRECT
    requires w.data[num[i]] ==
      if num[i] < ID_LIMIT then Overlay(v.data[num[i]], Chunks(mem, node.size)[i]) else v.data[num[i]]
    ensures Landed(v, node, mem, w, num, i)
  {
    hide Overlay, Chunks;
    ChunkBytes(mem, node.size, i, v.data[num[i]]);
  }

  /** Growing keeps the pointers in use. */
  lemma OldPointer(v: Volume, node: Inode, mem: seq<byte>, i: nat)
    requires Writable(v, node, mem) && i < Count(node.num, 0) < BlocksFor(node.size)
    ensures var num := WriteFile(v, node, mem).1.num; |num| == NUM_ENTRIES && num[i] == node.num[i]
    ensures var b, n, chunks := Count(node.num, 0), BlocksFor(node.size), Chunks(mem, node.size);
      WriteFile(v, node, mem).0.data == Allocate(Rewrite(v, node.num, chunks, b, ID_LIMIT), chunks[b..], n - b).0.data
  {
    hide Allocate, Rewrite, Chunks, ShrinkFile;
  }

  lemma InUse(v: Volume, num: seq<int>, i: nat)
    requires |num| == NUM_ENTRIES && Chain(v, num, NUM_ENTRIES) && i < NUM_ENTRIES && num[i] != 0
    ensures num[i] in v.used && num[i] in v.data
  {}

  /** Allocation leaves the data of blocks in use alone. */
  lemma OldSurvive(v: Volume, chunks: seq<seq<byte>>, k: nat, x: int)
    requires Sized(v) && k <= |chunks| && x in v.used && x in v.data
    ensures var w := Allocate(v, chunks, k).0; x in w.data && w.data[x] == v.data[x]
  {
    AllocateFacts(v, chunks, k);
    AllocateData(v, chunks, k);
    var ids, m := Allocate(v, chunks, k).1, Min(k, |FreeIds(v)|);
    forall i | 0 <= i < k
      ensures ids[i] != x
    {
      if i < m {
        InElems(ids[..m], ids[i]);
        assert ids[..m][i] == ids[i];
      }
    }
  }

  lemma GrowLandsNew(v: Volume, node: Inode, mem: seq<byte>, i: nat)
    requires LiveFile(v, node) && Writable(v, node, mem)
    requires var b, n := Count(node.num, 0), BlocksFor(node.size);
      b < n && b <= i < FinalCount(b, n, |FreeIds(v)|)
    ensures var r := WriteFile(v, node, mem);
      |r.1.num| == NUM_ENTRIES && i < BlocksFor(node.size) && Landed(v, node, mem, r.0, r.1.num, i)
  {
    hide Overlay, Padded, Chunks, FullChunks, Sound, DirectShape, Allocate, Allocated, GrowFile, Rewrite, Stored;
    LiveFileGood(v, node);
    var b, n := Count(node.num, 0), BlocksFor(node.size);
    var v1 := Rewrite(v, node.num, Chunks(mem, node.size), b, ID_LIMIT);
    var w, ids, m := GrowPieces(v, node, mem);
    TakenIds(v, w, n - b, ids, m);
    FreeIdsRange(v);
    NewLanded(v, v1, node, mem, w, ids, i);
  }

  lemma NewLanded(v: Volume, v1: Volume, node: Inode, mem: seq<byte>, w: Volume, ids: seq<int>, i: nat)
    requires Writable(v, node, mem)
    requires var b, n := Count(node.num, 0), BlocksFor(node.size);
      && b <= i < n && |ids| == n - b && ids[i - b] != 0
      && Stored(v1, Chunks(mem, node.size)[b..], n - b, w, ids)
    ensures var b, n := Count(node.num, 0), BlocksFor(node.size);
      var num := node.num[..b] + ids + node.num[n..];
      |num| == NUM_ENTRIES && Landed(v, node, mem, w, num, i)
  {
    hide Overlay, Padded, Chunks;
    var b := Count(node.num, 0);
    var chunks := Chunks(mem, node.size);
    assert chunks[b..][i - b] == chunks[i];
    ChunkBytes(mem, node.size, i, w.data[ids[i - b]]);
  }

  lemma ShrinkLands(v: Volume, node: Inode, mem: seq<byte>, i: nat)
    requires LiveFile(v, node) && Writable(v, node, mem)
    requires var b, n := Count(node.num, 0), BlocksFor(node.size);
      b > n && i < b - n
    ensures var r := WriteFile(v, node, mem); |r.1.num| == NUM_ENTRIES && Landed(v, node, mem, r.0, r.1.num, i)
  {
    hide Overlay, Padded, Chunks, FullChunks, Sound, DirectShape, Released, ShrinkFile;
    LiveFileGood(v, node);
    var b, n := Count(node.num, 0), BlocksFor(node.size);
    var w, num, gone := ShrinkPieces(v, node, mem);
    assert num[i] == node.num[i];
    if i < n {
      ChunkBytes(mem, node.size, i, v.data[node.num[i]]);
    }
  }

  /** Every byte of every block of the final prefix. */
  lemma AllLanded(v: Volume, node: Inode, mem: seq<byte>, i: nat)
    requires LiveFile(v, node) && Writable(v, node, mem)
    requires i < FinalCount(Count(node.num, 0), BlocksFor(node.size), |FreeIds(v)|)
    ensures var r := WriteFile(v, node, mem);
      |r.1.num| == NUM_ENTRIES && i < DIRECT && Landed(v, node, mem, r.0, r.1.num, i)
  {
    var b, n := Count(node.num, 0), BlocksFor(node.size);
    WriteKeepsSound(v, node, mem);
    if b == n {
      EqualLands(v, node, mem, i);
    } else if b > n {
      ShrinkLands(v, node, mem, i);
    } else if i < b {
      GrowLandsOld(v, node, mem, i);
    } else {
      GrowLandsNew(v, node, mem, i);
    }
  }

  /** What write_file leaves on disk, byte by byte, in all three cases: the tail of a rewritten last block
      and the blocks a shrink keeps but does not rewrite stay, a new last block is filled with zeros. */
  lemma BytesAfterWrite(v: Volume, node: Inode, mem: seq<byte>, i: nat, j: nat)
    requires LiveFile(v, node) && Writable(v, node, mem) && j < BLOCK_SIZE
    requires i < FinalCount(Count(node.num, 0), BlocksFor(node.size), |FreeIds(v)|)
    ensures var (w, made) := WriteFile(v, node, mem);
      && i < |made.num| && made.num[i] in w.data
      && (i < Count(node.num, 0) ==> node.num[i] in v.data && made.num[i] == node.num[i])
      && w.data[made.num[i]][j] == ByteAfter(v, node, mem, i, j)
  {
    hide WriteFile, FinalCount, ByteAfter, Sound;
    AllLanded(v, node, mem, i);
  }

  // ------------------------------------------------------------- reading

  /** Whether read_file is defined on a record: an empty file, or a prefix whose last block the size
      reaches into. */
  predicate ReadDefined(node: Inode)
    requires |node.num| == NUM_ENTRIES
  {
    var p := Count(node.num, 0);
    node.size == 0 || (p > 0 && (p - 1) * BLOCK_SIZE <= node.size <= p * BLOCK_SIZE)
  }

  /** The bytes of a file, one by one, from the blocks its pointers name, and one NUL. */
  ghost predicate FileBytes(v: Volume, node: Inode, bytes: seq<byte>)
    requires |node.num| == NUM_ENTRIES && 0 <= node.size
  {
    && |bytes| == node.size + 1 && bytes[node.size] == 0
    && forall k :: 0 <= k < node.size ==> HoldsByte(v, node, k, bytes[k])
  }

  ghost predicate HoldsByte(v: Volume, node: Inode, k: nat, b: byte)
    requires |node.num| == NUM_ENTRIES
  {
    var i := k / BLOCK_SIZE;
    i < NUM_ENTRIES && node.num[i] in v.data && v.data[node.num[i]][k % BLOCK_SIZE] == b
  }

  /** read_file: exactly the file's bytes where it is defined, undefined everywhere else. */
  lemma ReadIs(v: Volume, node: Inode)
    requires 0 <= node.size && DirectShape(node.num)
    requires forall k :: 0 <= k < Count(node.num, 0) ==> node.num[k] in v.data
    ensures ReadDefined(node) ==> ReadFile(v, node).Contents? && FileBytes(v, node, ReadFile(v, node).bytes)
    ensures !ReadDefined(node) ==> ReadFile(v, node) == Undefined
  {
    hide Joined;
    if ReadDefined(node) && node.size > 0 {
      var p := Count(node.num, 0);
      forall k | 0 <= k < node.size
        ensures HoldsByte(v, node, k, ReadFile(v, node).bytes[k])
      {
        JoinedAt(v, node.num, p, k);
      }
    }
  }

  /** A read by path: no file, or what the first live file of that name holds. An empty one reads as
      one NUL. */
  lemma ReadNowIs(s: FS, path: string)
    requires Inv(s)
    ensures ReadNow(s, path) == NoSuchFile <==> !NodeIn(s.table, path, FILE_KIND)
    ensures forall i :: FirstNode(s.table, path, FILE_KIND, i) ==> ReadsSlot(s, i, ReadNow(s, path))
  {
    hide ReadFile, Sound, DirectShape;
    InvReadable(s);
    var slot := FindFile(s.table, path, 0);
    if slot < |s.table| {
      LiveSlot(s, slot);
      ReadIs(s.vol, s.table[slot]);
      LengthOf(s.table[slot].num);
    }
  }

  lemma LengthOf(num: seq<int>)
    requires DirectShape(num)
    ensures |num| == NUM_ENTRIES
  {}

  /** The result is what the slot's record and the blocks say. */
  ghost predicate ReadsSlot(s: FS, i: int, result: ReadResult) {
    && 0 <= i < |s.table| && |s.table[i].num| == NUM_ENTRIES && 0 <= s.table[i].size
    && (ReadDefined(s.table[i]) ==>
          result.Read? && result.outcome.Contents? && FileBytes(s.vol, s.table[i], result.outcome.bytes))
    && (!ReadDefined(s.table[i]) ==> result == Read(Undefined))
  }

  /** A read after the write succeeds with the bytes written, if and only if the write lands. */
  lemma RoundTripIff(v: Volume, node: Inode, mem: seq<byte>)
    requires LiveFile(v, node) && Writable(v, node, mem) && node.size > 0
    ensures var r := WriteFile(v, node, mem);
      && LiveFile(r.0, r.1)
      && (LiveFileGood(r.0, r.1);
          ReadFile(r.0, r.1) == Contents(mem[..node.size] + [0]) <==> WriteLands(v, node, mem))
  {
    WriteKeepsSound(v, node, mem);
    var r := WriteFile(v, node, mem);
    LiveFileGood(r.0, r.1);
    var n, p := BlocksFor(node.size), Count(r.1.num, 0);
    if p > 0 && (p - 1) * BLOCK_SIZE <= node.size <= p * BLOCK_SIZE {
      CoveredRoundTrip(v, node, mem);
    }
  }

  lemma AfterWriteIsLive(v: Volume, node: Inode, mem: seq<byte>)
    requires LiveFile(v, node) && Writable(v, node, mem)
    ensures var r := WriteFile(v, node, mem);
      && LiveFile(r.0, r.1) && r.1 == node.(num := r.1.num) && |r.1.num| == NUM_ENTRIES
      && Count(r.1.num, 0) == FinalCount(Count(node.num, 0), BlocksFor(node.size), |FreeIds(v)|)
  {
    hide WriteFile;
    WriteKeepsSound(v, node, mem);
  }

  lemma CoveredRoundTrip(v: Volume, node: Inode, mem: seq<byte>)
    requires LiveFile(v, node) && Writable(v, node, mem) && node.size > 0
    requires var p := FinalCount(Count(node.num, 0), BlocksFor(node.size), |FreeIds(v)|);
      p > 0 && (p - 1) * BLOCK_SIZE <= node.size <= p * BLOCK_SIZE
    ensures var r := WriteFile(v, node, mem);
      && LiveFile(r.0, r.1)
      && (LiveFileGood(r.0, r.1);
          ReadFile(r.0, r.1) == Contents(mem[..node.size] + [0]) <==> WriteLands(v, node, mem))
  {
    hide Sound, WriteFile, Landed, OldBlocksTakeIt, Joined, DirectShape, Good, Chain, Pointers, Owned, FinalCount;
    AfterWriteIsLive(v, node, mem);
    var r := WriteFile(v, node, mem);
    LiveFileGood(r.0, r.1);
    var p := Count(r.1.num, 0);
    var joined := Joined(r.0, r.1.num, p);
    forall i | 0 <= i < p
      ensures i < DIRECT && Landed(v, node, mem, r.0, r.1.num, i)
    {
      AllLanded(v, node, mem, i);
    }
    if OldBlocksTakeIt(v, node, mem, p) {
      LandedJoins(v, node, mem, r.0, r.1.num, p);
    }
    if joined[..node.size] == mem[..node.size] {
      JoinedTakesIt(v, node, mem, r.0, r.1.num, p);
    }
    assert ReadFile(r.0, r.1) == Contents(joined[..node.size] + [0]);
    if joined[..node.size] + [0] == mem[..node.size] + [0] {
      assert joined[..node.size] == (joined[..node.size] + [0])[..node.size];
      assert mem[..node.size] == (mem[..node.size] + [0])[..node.size];
    }
  }

  lemma LandedJoins(v: Volume, node: Inode, mem: seq<byte>, w: Volume, num: seq<int>, p: nat)
    requires Writable(v, node, mem) && |num| == NUM_ENTRIES && p <= BlocksFor(node.size) && p <= DIRECT
    requires forall i :: 0 <= i < p ==> num[i] in w.data
    requires forall i :: 0 <= i < p ==> Landed(v, node, mem, w, num, i)
    requires node.size <= p * BLOCK_SIZE && OldBlocksTakeIt(v, node, mem, p)
    ensures Joined(w, num, p)[..node.size] == mem[..node.size]
  {
    hide Joined, Landed, OldBlocksTakeIt;
    forall k | 0 <= k < node.size
      ensures Joined(w, num, p)[k] == mem[k]
    {
      JoinedAt(w, num, p, k);
      LandedByte(v, node, mem, w, num, p, k / BLOCK_SIZE, k % BLOCK_SIZE);
      assert k / BLOCK_SIZE * BLOCK_SIZE + k % BLOCK_SIZE == k;
    }
  }

  /** Byte j of block i is the file's, written now or there before. */
  lemma LandedByte(v: Volume, node: Inode, mem: seq<byte>, w: Volume, num: seq<int>, p: nat, i: nat, j: nat)
    requires Writable(v, node, mem) && |num| == NUM_ENTRIES && i < p <= BlocksFor(node.size) && p <= DIRECT
    requires Landed(v, node, mem, w, num, i) && OldBlocksTakeIt(v, node, mem, p)
    requires j < BLOCK_SIZE && i * BLOCK_SIZE + j < node.size
    ensures num[i] in w.data && w.data[num[i]][j] == mem[i * BLOCK_SIZE + j]
  {
    assert i < Count(node.num, 0) ==> TakesByte(v, node.num[i], mem, i, j);
  }

  lemma JoinedByte(w: Volume, num: seq<int>, mem: seq<byte>, size: nat, p: nat, i: nat, j: nat)
    requires p <= |num| && (forall i :: 0 <= i < p ==> num[i] in w.data) && size <= |mem|
    requires size <= p * BLOCK_SIZE && Joined(w, num, p)[..size] == mem[..size]
    requires i < p && j < BLOCK_SIZE && i * BLOCK_SIZE + j < size
    ensures w.data[num[i]][j] == mem[i * BLOCK_SIZE + j]
  {
    var k := i * BLOCK_SIZE + j;
    JoinedAt(w, num, p, k);
    assert k / BLOCK_SIZE == i && k % BLOCK_SIZE == j;
    assert Joined(w, num, p)[k] == Joined(w, num, p)[..size][k] == mem[..size][k] == mem[k];
  }

  lemma JoinedTakesIt(v: Volume, node: Inode, mem: seq<byte>, w: Volume, num: seq<int>, p: nat)
    requires Writable(v, node, mem) && |num| == NUM_ENTRIES && p <= BlocksFor(node.size) && p <= DIRECT
    requires forall i :: 0 <= i < p ==> num[i] in w.data
    requires forall i :: 0 <= i < p ==> Landed(v, node, mem, w, num, i)
    requires node.size <= p * BLOCK_SIZE && Joined(w, num, p)[..node.size] == mem[..node.size]
    ensures OldBlocksTakeIt(v, node, mem, p)
  {
    forall i, j | 0 <= i < p && i < Count(node.num, 0) && 0 <= j < BLOCK_SIZE && i * BLOCK_SIZE + j < node.size
      ensures TakesByte(v, node.num[i], mem, i, j)
    {
      JoinedByte(w, num, mem, node.size, p, i, j);
      assert Landed(v, node, mem, w, num, i);
    }
  }

  // ------------------------------------------------------------- by path

  lemma FindFileStable(table: seq<Inode>, path: string, slot: nat, node: Inode, i: nat)
    requires i <= |table| && slot < |table|
    requires node.id == table[slot].id && node.name == table[slot].name && node.kind == table[slot].kind
    ensures FindFile(table[slot := node], path, i) == FindFile(table, path, i)
    decreases |table| - i
  {
    if i < |table| && FindFile(table, path, i) != i {
      FindFileStable(table, path, slot, node, i + 1);
    }
  }

  /** What write_file_by_path hands to write_file. */
  ghost predicate PathWriteLands(s: FS, path: string, buf: seq<byte>, size: int, beyond: seq<byte>)
    requires Inv(s) && 0 < size < MAX_SIZE && |beyond| == BLOCK_SIZE && FindFile(s.table, path, 0) < |s.table|
  {
    var slot := FindFile(s.table, path, 0);
    LiveSlot(s, slot);
    WriteLands(s.vol, s.table[slot].(size := size), StrNCpy(buf, size) + beyond)
  }

  /** Writing a file by its path and reading the same path gives the copied bytes and one NUL,
      if and only if the write lands. */
  lemma PathRoundTripIff(s: FS, path: string, buf: seq<byte>, size: int, beyond: seq<byte>)
    requires Inv(s) && 0 < size < MAX_SIZE && |beyond| == BLOCK_SIZE && FindFile(s.table, path, 0) < |s.table|
    ensures var t := Next(s, WriteTo(path, buf, size, beyond));
      ReadNow(t, path) == Read(Contents(StrNCpy(buf, size) + [0]))
      <==> PathWriteLands(s, path, buf, size, beyond)
  {
    hide Sound, WriteFile, ReadFile, WriteLands;
    var slot := FindFile(s.table, path, 0);
    LiveSlot(s, slot);
    InvReadable(s);
    var node, mem := s.table[slot].(size := size), StrNCpy(buf, size) + beyond;
    var t := Next(s, WriteTo(path, buf, size, beyond));
    InvReadable(t);
    AsLiveFile(s, slot, size);
    RoundTripIff(s.vol, node, mem);
    WriteKeepsSound(s.vol, node, mem);
    FindFileStable(s.table, path, slot, WriteFile(s.vol, node, mem).1, 0);
    assert mem[..size] == StrNCpy(buf, size);
  }

  lemma AsLiveFile(s: FS, slot: int, size: int)
    requires Inv(s) && 0 <= slot < INODES && s.table[slot].id != -1 && s.table[slot].kind == FILE_KIND
    requires 0 <= size < MAX_SIZE
    ensures LiveFile(s.vol, s.table[slot].(size := size))
  {
    LiveSlot(s, slot);
  }

  /** The plain case: NUL-free data, room on the disk, rewritten blocks below the limit, and a
      file that does not shrink or shrinks to exactly half its blocks. */
  lemma PathRoundTrip(s: FS, path: string, buf: seq<byte>, size: int, beyond: seq<byte>)
    requires Inv(s) && 0 < size < MAX_SIZE && |beyond| == BLOCK_SIZE && FindFile(s.table, path, 0) < |s.table|
    requires size <= |buf| && 0 !in buf[..size]
    requires var num := s.table[FindFile(s.table, path, 0)].num;
      var b, n := Count(num, 0), BlocksFor(size);
      && (b <= n <= b + |FreeIds(s.vol)| || b == 2 * n)
      && (forall i :: 0 <= i < b && i < n ==> i < |num| && num[i] < ID_LIMIT)
    ensures ReadNow(Next(s, WriteTo(path, buf, size, beyond)), path) == Read(Contents(buf[..size] + [0]))
  {
    PathRoundTripIff(s, path, buf, size, beyond);
    StrNCpyWithoutNul(buf, size);
    LiveSlot(s, FindFile(s.table, path, 0));
  }

  /** Does this NUL-free data come back when the path is written and read? */
  ghost predicate ComesBack(s: FS, path: string, buf: seq<byte>, beyond: seq<byte>)
    requires Inv(s) && 0 < |buf| < MAX_SIZE && |beyond| == BLOCK_SIZE
  {
    ReadNow(Next(s, WriteTo(path, buf, |buf|, beyond)), path) == Read(Contents(buf + [0]))
  }

  /** The prefix a write will leave covers the file, and no block it has to rewrite lies from id 2048 on. */
  predicate Reaches(num: seq<int>, size: nat, free: nat) {
    var b := Count(num, 0);
    var p := FinalCount(b, BlocksFor(size), free);
    && p > 0
    && (p - 1) * BLOCK_SIZE <= size <= p * BLOCK_SIZE
    && forall k :: 0 <= k < p && k < b && k * BLOCK_SIZE < size ==> num[k] < ID_LIMIT
  }

  /** A file takes every NUL-free content of a given size if and only if the prefix will fit and no
      block it has to rewrite lies beyond the reach of modify_block. */
  lemma EveryContentIff(s: FS, path: string, size: int, beyond: seq<byte>)
    requires Inv(s) && 0 < size < MAX_SIZE && |beyond| == BLOCK_SIZE && FindFile(s.table, path, 0) < |s.table|
    ensures var num := s.table[FindFile(s.table, path, 0)].num;
      (forall buf: seq<byte> :: |buf| == size && 0 !in buf ==> ComesBack(s, path, buf, beyond))
      <==> Reaches(num, size, |FreeIds(s.vol)|)
  {
    hide Inv, ComesBack, FreeIds, FinalCount;
    var num := s.table[FindFile(s.table, path, 0)].num;
    if Reaches(num, size, |FreeIds(s.vol)|) {
      forall buf: seq<byte> | |buf| == size && 0 !in buf
        ensures ComesBack(s, path, buf, beyond)
      {
        ReachedComesBack(s, path, buf, beyond);
      }
    } else {
      var buf := RefusedContent(s, path, size, beyond);
    }
  }

  lemma ReachedComesBack(s: FS, path: string, buf: seq<byte>, beyond: seq<byte>)
    requires Inv(s) && 0 < |buf| < MAX_SIZE && |beyond| == BLOCK_SIZE && FindFile(s.table, path, 0) < |s.table|
    requires 0 !in buf
    requires var num := s.table[FindFile(s.table, path, 0)].num;
      Reaches(num, |buf|, |FreeIds(s.vol)|)
    ensures ComesBack(s, path, buf, beyond)
  {
    hide Next, ReadNow, Sound, RootInPlace, SlotsSuffice, FreeIds, FinalCount;
    PathRoundTripIff(s, path, buf, |buf|, beyond);
    assert buf[..|buf|] == buf;
    StrNCpyWithoutNul(buf, |buf|);
    LiveSlot(s, FindFile(s.table, path, 0));
  }

  lemma RefusedContent(s: FS, path: string, size: int, beyond: seq<byte>) returns (buf: seq<byte>)
    requires Inv(s) && 0 < size < MAX_SIZE && |beyond| == BLOCK_SIZE && FindFile(s.table, path, 0) < |s.table|
    requires var num := s.table[FindFile(s.table, path, 0)].num;
      !Reaches(num, size, |FreeIds(s.vol)|)
    ensures |buf| == size && 0 !in buf && !ComesBack(s, path, buf, beyond)
  {
    hide Next, ReadNow, Sound, RootInPlace, SlotsSuffice, FreeIds, FinalCount, StrNCpy, Representable;
    var slot := FindFile(s.table, path, 0);
    LiveSlot(s, slot);
    var num, b := s.table[slot].num, Count(s.table[slot].num, 0);
    var p := FinalCount(b, BlocksFor(size), |FreeIds(s.vol)|);
    var fill: byte := 1;
    var at := 0;
    if k :| 0 <= k < p && k < b && k < |num| && k * BLOCK_SIZE < size && num[k] >= ID_LIMIT {
      at := k;
      fill := if num[k] in s.vol.data && s.vol.data[num[k]][0] == 1 then 2 else 1;
    }
    buf := seq(size, _ => fill);
    PathRoundTripIff(s, path, buf, size, beyond);
    assert buf[..size] == buf;
    StrNCpyWithoutNul(buf, size);
    if p > 0 && (p - 1) * BLOCK_SIZE <= size <= p * BLOCK_SIZE {
      assert !TakesByte(s.vol, num[at], StrNCpy(buf, size) + beyond, at, 0);
      assert at * BLOCK_SIZE + 0 < size;
    }
  }

  /** A shrink from eleven blocks to two keeps nine pointers, so its file can no longer be read:
      the loop that starts at b - n releases blocks from the middle of the kept range. */
  lemma ShrinkElevenToTwoIsUnreadable(v: Volume, node: Inode, mem: seq<byte>)
    requires LiveFile(v, node) && Writable(v, node, mem)
    requires Count(node.num, 0) == 11 && node.size == 3000
    ensures var r := WriteFile(v, node, mem);
      && LiveFile(r.0, r.1) && (LiveFileGood(r.0, r.1); ReadFile(r.0, r.1) == Undefined)
  {
    RoundTripIff(v, node, mem);
    WriteKeepsSound(v, node, mem);
  }
}
