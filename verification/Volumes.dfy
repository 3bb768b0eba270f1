/** What the image holds, seen through its bitmaps: the reference semantics of the block and
    inode operations. The classes in BlockStores.dfy and InodeStores.dfy are proved against it. */
module Volumes {
  import opened Bytes
  import opened Inodes

  const BLOCK_SIZE := 2048
  const BLOCKS := 4096
  const FIRST_DATA := 514
  const INODES := 4096
  const DIRECT := 12

  /** modify_block and delete_block compare ids with SIZE_OF_BLOCK instead of the block count. */
  const ID_LIMIT := 2048

  type Block = b: seq<byte> | |b| == BLOCK_SIZE witness Zeros(BLOCK_SIZE)

  /** `used` and `iused` are the ids whose bitmap bits are set, `data` the blocks behind the
      inode area, `recs` the 4096 inode records as they stand on disk. */
  datatype Volume = Volume(used: set<int>, data: map<int, Block>, iused: set<int>, recs: seq<Inode>)

  ghost predicate Sized(v: Volume) {
    && (forall x :: x in v.data <==> FIRST_DATA <= x < BLOCKS)
    && (forall x :: x in v.used ==> 0 <= x < BLOCKS)
    && (forall x :: 0 <= x < FIRST_DATA ==> x in v.used)
    && (forall x :: x in v.iused ==> 0 <= x < INODES)
    && |v.recs| == INODES
  }

  // ------------------------------------------------------------------ blocks

  /** Overwriting the front of a block, as modify_block does with a short buffer. */
  function Overlay(b: Block, d: seq<byte>): Block {
    if |d| < BLOCK_SIZE then d + b[|d|..] else d[..BLOCK_SIZE]
  }

  /** A fresh block: the buffer followed by zeros, as write_block leaves it. */
  function Padded(d: seq<byte>): Block {
    if |d| < BLOCK_SIZE then d + Zeros(BLOCK_SIZE - |d|) else d[..BLOCK_SIZE]
  }

  function FirstFree(used: set<int>, from: int): (id: int)
    requires 0 < from <= BLOCKS
    ensures id == 0 || from <= id < BLOCKS
    decreases BLOCKS - from
  {
    if from == BLOCKS then 0 else if from !in used then from else FirstFree(used, from + 1)
  }

  ghost function FreeIds(v: Volume): set<int> {
    set x | FIRST_DATA <= x < BLOCKS && x !in v.used
  }

  /** First fit: the least free data block, or 0 exactly when none is free. */
  lemma {:induction false} FirstFreeIsLeast(used: set<int>, from: int)
    requires 0 < from <= BLOCKS
    ensures var id := FirstFree(used, from);
      && (id != 0 ==> id !in used && forall x :: from <= x < id ==> x in used)
      && (id == 0 <==> forall x :: from <= x < BLOCKS ==> x in used)
    decreases BLOCKS - from
  {
    if from < BLOCKS && from in used {
      FirstFreeIsLeast(used, from + 1);
    }
  }

  function ModifyBlock(v: Volume, id: int, d: seq<byte>, limit: int): Volume {
    if id == 0 || id >= limit || id !in v.used || id !in v.data then v
    else v.(data := v.data[id := Overlay(v.data[id], d)])
  }

  function DeleteBlock(v: Volume, id: int, limit: int): Volume {
    if id <= 0 || id >= limit || id !in v.used then v else v.(used := v.used - {id})
  }

  function WriteBlock(v: Volume, d: seq<byte>): (Volume, int) {
    var id := FirstFree(v.used, FIRST_DATA);
    if id == 0 then (v, 0)
    else (v.(used := v.used + {id}, data := v.data[id := Padded(d)]), id)
  }

  // ------------------------------------------- runs of block operations

  /** modify_block on the first k pointers of a chain. */
  function Rewrite(v: Volume, ptrs: seq<int>, chunks: seq<seq<byte>>, k: nat, limit: int): Volume
    requires k <= |ptrs| && k <= |chunks|
  {
    if k == 0 then v
    else ModifyBlock(Rewrite(v, ptrs, chunks, k - 1, limit), ptrs[k - 1], chunks[k - 1], limit)
  }

  /** write_block for the first k chunks; an id of 0 reports a full disk. */
  function Allocate(v: Volume, chunks: seq<seq<byte>>, k: nat): (r: (Volume, seq<int>))
    requires k <= |chunks|
    ensures |r.1| == k
  {
    if k == 0 then (v, [])
    else
      var (w, ids) := Allocate(v, chunks, k - 1);
      var (u, id) := WriteBlock(w, chunks[k - 1]);
      (u, ids + [id])
  }

  /** delete_block on the pointers lo .. lo + k of a chain. */
  function Release(v: Volume, ptrs: seq<int>, lo: nat, k: nat, limit: int): Volume
    requires lo + k <= |ptrs|
  {
    if k == 0 then v
    else DeleteBlock(Release(v, ptrs, lo, k - 1, limit), ptrs[lo + k - 1], limit)
  }

  // ------------------------------------------------------- inode records

  function FirstFreeInode(iused: set<int>, from: int): (id: int)
    requires 0 <= from <= INODES
    ensures id == -1 || from <= id < INODES
    decreases INODES - from
  {
    if from == INODES then -1 else if from !in iused then from else FirstFreeInode(iused, from + 1)
  }

  lemma {:induction false} FirstFreeInodeIsLeast(iused: set<int>, from: int)
    requires 0 <= from <= INODES
    ensures var id := FirstFreeInode(iused, from);
      && (id != -1 ==> id !in iused && forall x :: from <= x < id ==> x in iused)
      && (id == -1 <==> forall x :: from <= x < INODES ==> x in iused)
    decreases INODES - from
  {
    if from < INODES && from in iused {
      FirstFreeInodeIsLeast(iused, from + 1);
    }
  }

  function UpdateInode(v: Volume, node: Inode): Volume
    requires 0 <= node.id < |v.recs|
  {
    v.(recs := v.recs[node.id := node])
  }

  /** query_inode: the record, unless its bit is clear or it carries another id. */
  function QueryInode(v: Volume, id: int): (r: Inode)
    requires 0 <= id < |v.recs|
  {
    if id in v.iused && v.recs[id].id == id then v.recs[id] else Blank()
  }

  /** An inode answers a query exactly when its bit is set and its record carries its id. */
  lemma QueryInodeIff(v: Volume, id: int)
    requires 0 <= id < |v.recs|
    ensures QueryInode(v, id).id == id <==> id in v.iused && v.recs[id].id == id
    ensures QueryInode(v, id).id == id ==> QueryInode(v, id) == v.recs[id]
    ensures QueryInode(v, id).id != id ==> QueryInode(v, id) == Inode(-1, 0, 0, 0, 0, "", 0, NoPointers())
  {}

  /** create_inode: the least free id, a clean pointer array, and the record on disk. */
  function CreateInode(v: Volume, node: Inode): (r: (Volume, Inode, bool))
    requires |v.recs| == INODES
  {
    var clean := node.(fileId := 0, groupId := 0, num := NoPointers());
    var id := FirstFreeInode(v.iused, 0);
    if id == -1 then (v, clean, false)
    else
      var made := clean.(id := id);
      (UpdateInode(v.(iused := v.iused + {id}), made), made, true)
  }

  // ---------------------------------------------------------------- files

  /** The length of the nonzero prefix of a pointer chain, starting at k. */
  function Count(ptrs: seq<int>, k: nat): (p: nat)
    requires k <= |ptrs|
    ensures k <= p <= |ptrs|
    ensures forall i :: k <= i < p ==> ptrs[i] != 0
    ensures p < |ptrs| ==> ptrs[p] == 0
    decreases |ptrs| - k
  {
    if k == |ptrs| || ptrs[k] == 0 then k else Count(ptrs, k + 1)
  }

  /** The number of blocks write_file asks for; a multiple of the block size gets an empty last one. */
  function BlocksFor(size: nat): (n: nat)
    ensures n > 0 && (n - 1) * BLOCK_SIZE <= size < n * BLOCK_SIZE
  {
    size / BLOCK_SIZE + 1
  }

  function ChunkLen(size: nat, i: nat): (len: nat)
    ensures len <= BLOCK_SIZE
  {
    if i + 1 == BlocksFor(size) then size % BLOCK_SIZE else BLOCK_SIZE
  }

  /** The pieces handed to the block layer, the last one cut to the file size. */
  function Chunks(mem: seq<byte>, size: nat): (chunks: seq<seq<byte>>)
    requires size <= |mem|
    ensures |chunks| == BlocksFor(size)
  {
    seq(BlocksFor(size), (i: int) requires 0 <= i < BlocksFor(size) =>
      mem[i * BLOCK_SIZE..i * BLOCK_SIZE + ChunkLen(size, i)])
  }

  /** The pieces the shrink branch hands over: whole blocks, also for the last one. */
  function FullChunks(mem: seq<byte>, n: nat): (chunks: seq<seq<byte>>)
    requires n * BLOCK_SIZE <= |mem|
    ensures |chunks| == n
  {
    seq(n, (i: int) requires 0 <= i < n => mem[i * BLOCK_SIZE..(i + 1) * BLOCK_SIZE])
  }

  /** Up to eleven direct pointers in front, zeros behind: the shape every write below
      22528 bytes keeps. */
  predicate DirectShape(num: seq<int>) {
    && |num| == NUM_ENTRIES
    && Count(num, 0) < DIRECT
    && (forall k :: Count(num, 0) <= k < NUM_ENTRIES ==> num[k] == 0)
    && (forall k :: 0 <= k < Count(num, 0) ==> FIRST_DATA <= num[k] < BLOCKS)
  }

  const MAX_SIZE := 22528

  /** What write_file is given: `mem` is the caller's buffer of node.size bytes and whatever
      follows it in memory up to the next block boundary. */
  predicate Writable(v: Volume, node: Inode, mem: seq<byte>) {
    && 0 <= node.size < MAX_SIZE && BlocksFor(node.size) * BLOCK_SIZE <= |mem|
    && 0 <= node.id < |v.recs| && DirectShape(node.num)
  }

  /** The three cases of write_file, the shrink case releasing from b - n as the code does. */
  function WriteFile(v: Volume, node: Inode, mem: seq<byte>): (r: (Volume, Inode))
    requires Writable(v, node, mem)
  {
    var b, n := Count(node.num, 0), BlocksFor(node.size);
    var (w, num) :=
      if b < n then GrowFile(v, node, mem)
      else if b > n then ShrinkFile(v, node, mem)
      else (Rewrite(v, node.num, Chunks(mem, node.size), n, ID_LIMIT), node.num);
    (w.(recs := v.recs[node.id := node.(num := num)]), node.(num := num))
  }

  function GrowFile(v: Volume, node: Inode, mem: seq<byte>): (r: (Volume, seq<int>))
    requires Writable(v, node, mem) && Count(node.num, 0) < BlocksFor(node.size)
  {
    var b, n := Count(node.num, 0), BlocksFor(node.size);
    var chunks := Chunks(mem, node.size);
    var (w, ids) := Allocate(Rewrite(v, node.num, chunks, b, ID_LIMIT), chunks[b..], n - b);
    (w, node.num[..b] + ids + node.num[n..])
  }

  function ShrinkFile(v: Volume, node: Inode, mem: seq<byte>): (r: (Volume, seq<int>))
    requires Writable(v, node, mem) && Count(node.num, 0) > BlocksFor(node.size)
  {
    var b, n := Count(node.num, 0), BlocksFor(node.size);
    var num := node.num[..b - n] + seq(n, _ => 0) + node.num[b..];
    (Rewrite(Release(v, node.num, b - n, n, ID_LIMIT), num, FullChunks(mem, n), n, ID_LIMIT), num)
  }

  /** delete_file: every block of the pointer prefix, then the inode bit. */
  function DeleteFile(v: Volume, node: Inode): Volume
    requires DirectShape(node.num)
  {
    var w := Release(v, node.num, 0, Count(node.num, 0), ID_LIMIT);
    w.(iused := w.iused - {node.id})
  }

  /** What a read gives back. `Undefined` stands for the runs of read_file that C leaves
      undefined: a copy length outside 0 .. 2048, or a result buffer never filled. */
  datatype Outcome = Contents(bytes: seq<byte>) | Undefined

  function Joined(v: Volume, ptrs: seq<int>, k: nat): (bs: seq<byte>)
    requires k <= |ptrs| && forall i :: 0 <= i < k ==> ptrs[i] in v.data
    ensures |bs| == k * BLOCK_SIZE
  {
    if k == 0 then [] else Joined(v, ptrs, k - 1) + v.data[ptrs[k - 1]]
  }

  function ReadFile(v: Volume, node: Inode): Outcome
    requires 0 <= node.size && DirectShape(node.num)
    requires forall k :: 0 <= k < Count(node.num, 0) ==> node.num[k] in v.data
  {
    var p := Count(node.num, 0);
    if node.size == 0 then Contents([0])
    else if p == 0 || !((p - 1) * BLOCK_SIZE <= node.size <= p * BLOCK_SIZE) then Undefined
    else Contents(Joined(v, node.num, p)[..node.size] + [0])
  }
}
