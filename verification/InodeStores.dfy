/** inode.c: the inode bitmap in memory and in block 1, the records in blocks 2 .. 257, and the
    file operations over them. */
module InodeStores {
  import opened Bytes
  import opened Inodes
  import opened Volumes
  import opened Chains
  import opened Layout
  import opened BlockStores

  /** Data of the right sizes for the fifteen pointer fields. */
  ghost predicate PointersFit(num: seq<int>) {
    |num| == NUM_ENTRIES && forall k :: 0 <= k < NUM_ENTRIES ==> 0 <= num[k] < BLOCKS
  }

  lemma ShapeFits(num: seq<int>)
    requires DirectShape(num)
    ensures PointersFit(num)
  {
    forall k | 0 <= k < NUM_ENTRIES
      ensures 0 <= num[k] < BLOCKS
    {
      assert k >= Count(num, 0) || FIRST_DATA <= num[k] < BLOCKS;
    }
  }

  lemma FitsRepresentable(node: Inode, num: seq<int>)
    requires Representable(node) && PointersFit(num)
    ensures Representable(node.(num := num))
  {
    forall x | x in num
      ensures Int32(x)
    {
      var k :| 0 <= k < |num| && num[k] == x;
    }
  }

  lemma NoNameInZeros(b: Block, k: int)
    requires b == Zeros(BLOCK_SIZE) && 0 <= k < PER_BLOCK
    ensures Decode(RecordBytes(b, k)).name == ""
  {
    hide DecodeInt, DecodeInts;
    var bs := RecordBytes(b, k);
    assert bs[20..52][0] == bs[20] == b[k * INODE_SIZE + 20];
  }

  lemma BitsOfSlice(sb: seq<byte>, id: int)
    requires |sb| == SUPERBLOCK_SIZE && 0 <= id < INODES
    ensures var m := sb[INODE_MAP_AT..INODE_MAP_AT + MAP_BYTES];
      && sb[INODE_MAP_AT + id / 8 := sb[INODE_MAP_AT + id / 8] | Mask(id % 8)][INODE_MAP_AT..INODE_MAP_AT + MAP_BYTES]
           == SetBit(m, id)
      && sb[INODE_MAP_AT + id / 8 := sb[INODE_MAP_AT + id / 8] & !Mask(id % 8)][INODE_MAP_AT..INODE_MAP_AT + MAP_BYTES]
           == ClearBit(m, id)
  {
    hide Mask;
  }

  lemma InodeBitSet(used: set<int>, blocks: map<int, Block>, sb: seq<byte>, id: int)
    requires AllBlocks(blocks) && |sb| == SUPERBLOCK_SIZE && 0 <= id < INODES
    ensures var v, at := VolumeOf(used, blocks, sb), INODE_MAP_AT + id / 8;
      VolumeOf(used, blocks, sb[at := sb[at] | Mask(id % 8)]) == v.(iused := v.iused + {id})
  {
    hide Mask;
    var at := INODE_MAP_AT + id / 8;
    BitsOfSlice(sb, id);
    SetBitInserts(sb[INODE_MAP_AT..INODE_MAP_AT + MAP_BYTES], id);
    InodeBitsSeen(used, blocks, sb, sb[at := sb[at] | Mask(id % 8)]);
  }

  lemma InodeBitClear(used: set<int>, blocks: map<int, Block>, sb: seq<byte>, id: int)
    requires AllBlocks(blocks) && |sb| == SUPERBLOCK_SIZE && 0 <= id < INODES
    ensures var v, at := VolumeOf(used, blocks, sb), INODE_MAP_AT + id / 8;
      VolumeOf(used, blocks, sb[at := sb[at] & !Mask(id % 8)]) == v.(iused := v.iused - {id})
  {
    hide Mask;
    var at := INODE_MAP_AT + id / 8;
    BitsOfSlice(sb, id);
    ClearBitRemoves(sb[INODE_MAP_AT..INODE_MAP_AT + MAP_BYTES], id);
    InodeBitsSeen(used, blocks, sb, sb[at := sb[at] & !Mask(id % 8)]);
  }

  /** Shifting and parity on the byte in memory test membership in the set of used inodes. */
  lemma InodeBitTest(used: set<int>, blocks: map<int, Block>, sb: seq<byte>, id: int)
    requires AllBlocks(blocks) && |sb| == SUPERBLOCK_SIZE && 0 <= id < INODES
    ensures (sb[INODE_MAP_AT + id / 8] >> (id % 8)) % 2 == 1 <==> id in VolumeOf(used, blocks, sb).iused
  {
    hide Bits;
    var m := sb[INODE_MAP_AT..INODE_MAP_AT + MAP_BYTES];
    ShiftTestsBits(m, id);
    assert m[id / 8] == sb[INODE_MAP_AT + id / 8];
  }

  class InodeStore {
    const store: BlockStore
    const superblock: array<byte>

    ghost predicate Shaped() {
      superblock.Length == SUPERBLOCK_SIZE && superblock != store.image && superblock != store.blockMap
    }

    /** The block bitmap in memory mirrors the image and has the reserved bits set. The superblock in
        memory may hold anything. */
    ghost predicate Loaded()
      reads store.image, store.blockMap
    {
      Shaped() && store.Valid() && forall x :: 0 <= x < FIRST_DATA ==> x in store.Used()
    }

    /** Moreover block 1 equals the first 2048 bytes of the superblock in memory. */
    ghost predicate Valid()
      reads store.image, store.blockMap, superblock
    {
      Loaded() && store.Blocks()[SUPERBLOCK_ID] == superblock[..BLOCK_SIZE]
    }

    ghost function View(): (v: Volume)
      requires Shaped() && store.Shaped()
      reads store.image, store.blockMap, superblock
      ensures |v.recs| == INODES
    {
      VolumeOf(store.Used(), store.Blocks(), superblock[..])
    }

    /** The volume the image stands for, whatever memory holds. */
    ghost function OnDisk(): (v: Volume)
      requires store.Shaped()
      reads store.image
      ensures |v.recs| == INODES
    {
      ImageVolume(store.image[..])
    }

    /** In a valid store memory and image tell the same. */
    lemma ViewIsOnDisk()
      requires Valid()
      ensures View() == OnDisk()
    {
      SuperblockIs(store.Used(), store.Blocks(), superblock[..]);
    }

    /** Only the first 2048 bytes of the superblock matter. */
    static lemma SuperblockIs(used: set<int>, blocks: map<int, Block>, sb: seq<byte>)
      requires AllBlocks(blocks) && |sb| == SUPERBLOCK_SIZE && blocks[SUPERBLOCK_ID] == sb[..BLOCK_SIZE]
      ensures VolumeOf(used, blocks, sb)
        == VolumeOf(used, blocks, blocks[SUPERBLOCK_ID] + Zeros(SUPERBLOCK_SIZE - BLOCK_SIZE))
    {
      var onDisk := blocks[SUPERBLOCK_ID] + Zeros(SUPERBLOCK_SIZE - BLOCK_SIZE);
      SameInodeBits(sb, onDisk);
      InodeBitsSeen(used, blocks, onDisk, sb);
      InodeBitsSeen(used, blocks, onDisk, onDisk);
    }

    lemma ViewSized()
      requires Valid()
      ensures Sized(View())
    {}

    /** The store create_filesystem leaves, with the zeroed superblock a fresh process starts from. */
    constructor Format()
      ensures Valid() && fresh(store) && fresh(store.image) && fresh(store.blockMap) && fresh(superblock)
      ensures forall x :: x in View().used <==> 0 <= x < FIRST_DATA
      ensures View().iused == {}
      ensures forall i :: 0 <= i < INODES ==> View().recs[i].name == ""
    {
      store := new BlockStore.Create();
      superblock := new byte[SUPERBLOCK_SIZE](_ => 0);
      new;
      NoBits(superblock[INODE_MAP_AT..INODE_MAP_AT + MAP_BYTES]);
      assert superblock[..][INODE_MAP_AT..INODE_MAP_AT + MAP_BYTES]
        == superblock[INODE_MAP_AT..INODE_MAP_AT + MAP_BYTES];
      forall i | 0 <= i < INODES
        ensures View().recs[i].name == ""
      {
        NoNameInZeros(store.Blocks()[InodeBlock(i)], InodeSeat(i));
      }
    }

    /** A new process on an existing image. */
    constructor Attach(bytes: seq<byte>)
      requires |bytes| == IMAGE_SIZE
      ensures Shaped() && store.Shaped() && OnDisk() == ImageVolume(bytes) && store.image[..] == bytes
      ensures fresh(store) && fresh(store.image) && fresh(store.blockMap) && fresh(superblock)
    {
      store := new BlockStore.Attach(bytes);
      superblock := new byte[SUPERBLOCK_SIZE](_ => 0);
    }

    /** init_superblock: clear the superblock in memory, then read block 1 over its front. Whatever
        memory held, the inode bits are those of the image afterwards. */
    method InitSuperblock()
      requires Loaded()
      modifies superblock
      ensures Valid() && View() == old(OnDisk())
    {
      hide VolumeOf, BlocksOf, MapOf, Bits, ImageVolume;
      forall i | 0 <= i < superblock.Length {
        superblock[i] := 0;
      }
      var count, block := store.ReadBlock(SUPERBLOCK_ID);
      forall i | 0 <= i < BLOCK_SIZE {
        superblock[i] := block[i];
      }
      assert superblock[..BLOCK_SIZE] == block;
      ViewIsOnDisk();
    }

    static lemma SameInodeBits(before: seq<byte>, after: seq<byte>)
      requires |before| == |after| == SUPERBLOCK_SIZE && before[..BLOCK_SIZE] == after[..BLOCK_SIZE]
      ensures before[INODE_MAP_AT..INODE_MAP_AT + MAP_BYTES] == after[INODE_MAP_AT..INODE_MAP_AT + MAP_BYTES]
    {
      assert forall i :: 0 <= i < BLOCK_SIZE ==>
        before[i] == before[..BLOCK_SIZE][i] == after[..BLOCK_SIZE][i] == after[i];
    }

    /** load_filesystem: whatever memory held, the block bitmap is that of the image afterwards, if the
        header is there. */
    method Load() returns (status: int)
      requires Shaped() && store.Shaped()
      modifies store.blockMap
      ensures status == 0 <==> store.image[..][..HEADER_SIZE] == Header()
      ensures status == 0 ==> store.Valid() && store.Used() == old(OnDisk()).used
      ensures status != 0 ==> store.blockMap[..] == old(store.blockMap[..])
    {
      hide VolumeOf;
      UsedOnDisk();
      status := store.Load();
    }

    lemma UsedOnDisk()
      requires store.Shaped()
      ensures OnDisk().used == Bits(MapOf(store.image[..]))
    {
      UsedIs(Bits(MapOf(store.image[..])), store.Blocks(),
             store.Blocks()[SUPERBLOCK_ID] + Zeros(SUPERBLOCK_SIZE - BLOCK_SIZE));
    }

    // ---------------------------------------------------------- inode bitmap

    /** The superblock goes to block 1; modify_block takes its first 2048 bytes. */
    method DumpSuperblock()
      requires Loaded()
      modifies store.image
      ensures Valid() && View() == old(View())
    {
      ghost var v := View();
      SuperblockUpdate(store.Used(), store.Blocks(), superblock[..], superblock[..BLOCK_SIZE]);
      assert Overlay(store.Blocks()[SUPERBLOCK_ID], superblock[..]) == superblock[..BLOCK_SIZE];
      var written := store.ModifyBlock(SUPERBLOCK_ID, superblock[..]);
    }

    /** One byte of the superblock changes in memory, then block 1 follows. */
    method StoreMapByte(at: nat, b: byte)
      requires Valid() && at < SUPERBLOCK_SIZE
      modifies store.image, superblock
      ensures Valid()
      ensures View() == VolumeOf(old(store.Used()), old(store.Blocks()), old(superblock[..])[at := b])
    {
      hide VolumeOf, BlocksOf, Bits, MapOf;
      ghost var sb := superblock[..];
      superblock[at] := b;
      assert superblock[..] == sb[at := b];
      DumpSuperblock();
    }

    method SetInodeBitmap(id: int)
      requires Valid() && 0 <= id < INODES
      modifies store.image, superblock
      ensures Valid() && View() == old(View()).(iused := old(View()).iused + {id})
    {
      hide Mask, VolumeOf, BlocksOf, Bits, MapOf;
      InodeBitSet(store.Used(), store.Blocks(), superblock[..], id);
      StoreMapByte(INODE_MAP_AT + id / 8, superblock[INODE_MAP_AT + id / 8] | Mask(id % 8));
    }

    method ClearInodeBitmap(id: int)
      requires Valid() && 0 <= id < INODES
      modifies store.image, superblock
      ensures Valid() && View() == old(View()).(iused := old(View()).iused - {id})
    {
      hide Mask, VolumeOf, BlocksOf, Bits, MapOf;
      InodeBitClear(store.Used(), store.Blocks(), superblock[..], id);
      StoreMapByte(INODE_MAP_AT + id / 8, superblock[INODE_MAP_AT + id / 8] & !Mask(id % 8));
    }

    /** This bitmap is read from memory, by shifting and parity. */
    method QueryInodeBitmap(id: int) returns (isSet: bool)
      requires Valid() && 0 <= id < INODES
      ensures isSet <==> id in View().iused
    {
      hide Mask, VolumeOf, BlocksOf, Bits, MapOf;
      var b := superblock[INODE_MAP_AT + id / 8];
      InodeBitTest(store.Used(), store.Blocks(), superblock[..], id);
      isSet := (b >> (id % 8)) % 2 == 1;
    }

    // --------------------------------------------------------------- records

    method QueryInode(id: int) returns (node: Inode)
      requires Valid() && 0 <= id < INODES
      ensures node == Volumes.QueryInode(View(), id)
    {
      var isSet := QueryInodeBitmap(id);
      if !isSet {
        return Blank();
      }
      var count, group := store.ReadBlock(InodeBlock(id));
      var found := Decode(RecordBytes(group, InodeSeat(id)));
      assert found == View().recs[id];
      node := if found.id == id then found else Blank();
    }

    static lemma WholeOverlay(b: Block, d: Block)
      ensures Overlay(b, d) == d
    {}

    /** Read the group of sixteen, replace one, write the group back. */
    method UpdateInode(node: Inode)
      requires Valid() && Representable(node) && 0 <= node.id < INODES
      modifies store.image
      ensures Valid() && View() == Volumes.UpdateInode(old(View()), node)
    {
      hide VolumeOf, Encode, BlocksOf, MapOf, Bits, Header, Splice, Representable, Overlay;
      var at := InodeBlock(node.id);
      var count, group := store.ReadBlock(at);
      var patched: Block := Splice(group, InodeSeat(node.id) * INODE_SIZE, Encode(node));
      RecordUpdate(store.Used(), store.Blocks(), superblock[..], node);
      WholeOverlay(group, patched);
      var written := store.ModifyBlock(at, patched);
    }

    /** The scan of create_inode: the least clear bit, -1 when all 4096 are set. */
    method FindFreeInode() returns (id: int)
      requires Valid()
      ensures id == FirstFreeInode(View().iused, 0)
    {
      ghost var iused := View().iused;
      FirstFreeInodeIsLeast(iused, 0);
      id := 0;
      while true
        invariant 0 <= id < INODES && forall x :: 0 <= x < id ==> x in iused
        decreases INODES - id
      {
        var isSet := QueryInodeBitmap(id);
        if !isSet {
          return;
        } else {
          id := id + 1;
        }
        if id >= INODES {
          return -1;
        }
      }
    }

    /** create_inode: the found bit is set and the cleaned record stored under that id. */
    method CreateInode(node: Inode) returns (made: Inode, ok: bool)
      requires Valid() && Representable(node.(id := 0, fileId := 0, groupId := 0, num := NoPointers()))
      modifies store.image, superblock
      ensures Valid()
      ensures (View(), made, ok) == Volumes.CreateInode(old(View()), node)
    {
      hide VolumeOf, BlocksOf, MapOf, Bits;
      made := node.(fileId := 0, groupId := 0, num := NoPointers());
      var id := FindFreeInode();
      if id == -1 {
        return made, false;
      }
      SetInodeBitmap(id);
      made := made.(id := id);
      DumpSuperblock();
      UpdateInode(made);
      ok := true;
    }

    method DeleteInode(id: int)
      requires Valid() && 0 <= id < INODES
      modifies store.image, superblock
      ensures Valid() && View() == old(View()).(iused := old(View()).iused - {id})
    {
      ClearInodeBitmap(id);
    }

    // ---------------------------------------------- data blocks of a file

    method ModifyData(id: int, d: seq<byte>)
      requires Valid() && (id == 0 || FIRST_DATA <= id)
      modifies store.image
      ensures Valid() && View() == ModifyBlock(old(View()), id, d, ID_LIMIT)
    {
      hide VolumeOf, Overlay, ModifyBlock;
      ModifySeen(store.Used(), store.Blocks(), superblock[..], id, d);
      var written := store.ModifyBlock(id, d);
    }

    method WriteData(d: seq<byte>) returns (id: int)
      requires Valid()
      modifies store.image, store.blockMap
      ensures Valid() && (View(), id) == WriteBlock(old(View()), d)
      ensures id == 0 || FIRST_DATA <= id < BLOCKS
    {
      hide VolumeOf, Padded, WriteBlock;
      WriteSeen(store.Used(), store.Blocks(), superblock[..], d);
      var written;
      id, written := store.WriteBlock(d);
    }

    method DeleteData(id: int)
      requires Valid() && (id <= 0 || FIRST_DATA <= id)
      modifies store.image, store.blockMap
      ensures Valid() && View() == DeleteBlock(old(View()), id, ID_LIMIT)
    {
      hide VolumeOf;
      UsedSeen(store.Used(), store.Used() - {id}, store.Blocks(), superblock[..]);
      UsedIs(store.Used(), store.Blocks(), superblock[..]);
      var status := store.DeleteBlock(id);
    }

    static lemma UsedIs(used: set<int>, blocks: map<int, Block>, sb: seq<byte>)
      requires AllBlocks(blocks) && |sb| == SUPERBLOCK_SIZE
      ensures VolumeOf(used, blocks, sb).used == used
    {}

    method ReadData(id: int) returns (block: Block)
      requires Valid() && FIRST_DATA <= id && id in View().used
      ensures id in View().data && block == View().data[id]
    {
      var count;
      count, block := store.ReadBlock(id);
    }

    // ----------------------------------------------------------- file layer

    /** read_file for a file of at most eleven blocks. Bytes are collected in order; a copy length
        outside 0 .. 2048 for the last block, or no block at all, leaves the result undefined. */
    method ReadFile(node: Inode) returns (outcome: Outcome)
      requires Valid() && 0 <= node.size && DirectShape(node.num)
      requires forall k :: 0 <= k < Count(node.num, 0) ==> node.num[k] in View().used
      requires forall k :: 0 <= k < Count(node.num, 0) ==> node.num[k] in View().data
      ensures outcome == Volumes.ReadFile(View(), node)
    {
      if node.size == 0 {
        return Contents([0]);
      }
      ghost var p := Count(node.num, 0);
      var file: seq<byte> := [];
      outcome := Undefined;
      var i := 0;
      var next := node.num[0];
      while next != 0
        invariant 0 <= i <= p && (i < p ==> next == node.num[i] && file == Joined(View(), node.num, i))
        invariant i < p ==> outcome == Undefined
        invariant i == p ==> next == 0 && outcome == Volumes.ReadFile(View(), node)
        decreases p - i
      {
        hide Joined, DirectShape;
        var block := ReadData(next);
        JoinedNext(View(), node.num, i, file, block);
        next := node.num[i + 1];
        if next != 0 {
          file := file + block;
        } else {
          var len := node.size - i * BLOCK_SIZE;
          if 0 <= len <= BLOCK_SIZE {
            CutJoined(file, block, node.size, len);
            outcome := Contents(file + block[..len] + [0]);
          }
        }
        i := i + 1;
      }
    }

    static lemma JoinedNext(v: Volume, num: seq<int>, i: nat, file: seq<byte>, block: Block)
      requires i < |num| && (forall k :: 0 <= k <= i ==> num[k] in v.data)
      requires file == Joined(v, num, i) && block == v.data[num[i]]
      ensures Joined(v, num, i + 1) == file + block
    {}

    static lemma CutJoined(file: seq<byte>, block: Block, size: nat, len: nat)
      requires len <= BLOCK_SIZE && size == |file| + len
      ensures (file + block)[..size] == file + block[..len]
    {}

    /** delete_file: blocks up to the first zero pointer, then the inode bit. */
    method DeleteFile(node: Inode)
      requires Valid() && 0 <= node.id < INODES && DirectShape(node.num)
      modifies store.image, store.blockMap, superblock
      ensures Valid() && View() == Volumes.DeleteFile(old(View()), node)
    {
      hide VolumeOf, BlocksOf, MapOf, Bits, DeleteBlock;
      ghost var v := View();
      for i := 0 to DIRECT
        invariant Valid() && i <= Count(node.num, 0) && View() == Release(v, node.num, 0, i, ID_LIMIT)
      {
        if node.num[i] != 0 {
          DeleteData(node.num[i]);
        } else {
          break;
        }
      }
      ClearInodeBitmap(node.id);
    }

    /** The scan for the first zero among the twelve direct pointers. The C variable is set only when
        there is one, so `b` means nothing otherwise. */
    method BlocksInUse(num: seq<int>) returns (found: bool, b: nat)
      requires |num| == NUM_ENTRIES
      ensures found <==> 0 in num[..DIRECT]
      ensures found ==> b == Count(num, 0) < DIRECT
    {
      found, b := false, 0;
      for i := 0 to DIRECT
        invariant !found && i <= Count(num, 0) && 0 !in num[..i]
      {
        if num[i] == 0 {
          assert num[..DIRECT][i] == 0;
          return true, i;
        }
      }
    }

    /** The loop that rewrites the first k blocks from memory in whole blocks, as the grow branch does
        for the blocks in use and the shrink branch for all of them: the shrink branch means to cut
        the last one, but its test compares the index with n and never holds. */
    method RewriteWhole(num: seq<int>, mem: seq<byte>, k: nat)
      requires Valid() && PointersFit(num) && k <= NUM_ENTRIES && k * BLOCK_SIZE <= |mem|
      requires forall i :: 0 <= i < k ==> num[i] == 0 || FIRST_DATA <= num[i]
      modifies store.image
      ensures Valid() && View() == Rewrite(old(View()), num, FullChunks(mem, k), k, ID_LIMIT)
    {
      hide VolumeOf, BlocksOf, MapOf, Bits, ModifyBlock;
      ghost var v := View();
      for i := 0 to k
        invariant Valid() && View() == Rewrite(v, num, FullChunks(mem, k), i, ID_LIMIT)
      {
        ModifyData(num[i], mem[i * BLOCK_SIZE..(i + 1) * BLOCK_SIZE]);
      }
    }

    /** The loop of the equal branch: the last block is cut to the file size. */
    method RewriteCut(num: seq<int>, mem: seq<byte>, size: nat)
      requires Valid() && PointersFit(num) && BlocksFor(size) <= NUM_ENTRIES && size <= |mem|
      requires forall i :: 0 <= i < BlocksFor(size) ==> num[i] == 0 || FIRST_DATA <= num[i]
      modifies store.image
      ensures Valid() && View() == Rewrite(old(View()), num, Chunks(mem, size), BlocksFor(size), ID_LIMIT)
    {
      hide VolumeOf, BlocksOf, MapOf, Bits, ModifyBlock;
      ghost var v := View();
      var n := BlocksFor(size);
      for i := 0 to n
        invariant Valid() && View() == Rewrite(v, num, Chunks(mem, size), i, ID_LIMIT)
      {
        var len := if i + 1 == n then size % BLOCK_SIZE else BLOCK_SIZE;
        ModifyData(num[i], mem[i * BLOCK_SIZE..i * BLOCK_SIZE + len]);
      }
    }

    /** The second loop of the grow branch: a new block for each piece from b on, its id stored in
        the next pointer, the last piece cut to the file size. */
    method AppendBlocks(oldNum: seq<int>, b: nat, mem: seq<byte>, size: nat)
        returns (num: seq<int>, ghost ids: seq<int>)
      requires Valid() && PointersFit(oldNum) && b < BlocksFor(size) <= NUM_ENTRIES && size <= |mem|
      modifies store.image, store.blockMap
      ensures Valid() && |ids| == BlocksFor(size) - b
      ensures (View(), ids) == Allocate(old(View()), Chunks(mem, size)[b..], BlocksFor(size) - b)
      ensures num == oldNum[..b] + ids + oldNum[BlocksFor(size)..] && PointersFit(num)
    {
      hide VolumeOf, BlocksOf, MapOf, Bits, WriteBlock, Padded;
      ghost var v, rest := View(), Chunks(mem, size)[b..];
      var n := BlocksFor(size);
      num, ids := oldNum, [];
      for i := b to n
        invariant Valid() && |ids| == i - b
        invariant (View(), ids) == Allocate(v, rest, i - b)
        invariant num == oldNum[..b] + ids + oldNum[i..] && PointersFit(num)
      {
        var len := if i + 1 == n then size % BLOCK_SIZE else BLOCK_SIZE;
        assert rest[i - b] == mem[i * BLOCK_SIZE..i * BLOCK_SIZE + len];
        var id := WriteData(mem[i * BLOCK_SIZE..i * BLOCK_SIZE + len]);
        num := num[i := id];
        ids := ids + [id];
      }
    }

    /** The grow branch. Its tail, which stores an indirect block, is idle below twelve blocks. */
    method GrowFile(node: Inode, mem: seq<byte>, b: nat) returns (num: seq<int>)
      requires Valid() && Writable(View(), node, mem)
      requires b == Count(node.num, 0) < BlocksFor(node.size)
      modifies store.image, store.blockMap
      ensures Valid() && (View(), num) == Volumes.GrowFile(old(View()), node, mem)
      ensures PointersFit(num)
    {
      hide VolumeOf, BlocksOf, MapOf, Bits, Rewrite, Allocate;
      ShapeFits(node.num);
      WholePrefix(View(), node.num, mem, node.size, b);
      RewriteWhole(node.num, mem, b);
      ghost var ids;
      num, ids := AppendBlocks(node.num, b, mem, node.size);
    }

    /** delete_block for the pointers lo .. lo + k, each set to zero afterwards. */
    method ReleaseBlocks(oldNum: seq<int>, lo: nat, k: nat) returns (num: seq<int>)
      requires Valid() && PointersFit(oldNum) && lo + k <= NUM_ENTRIES
      requires forall i :: lo <= i < lo + k ==> oldNum[i] == 0 || FIRST_DATA <= oldNum[i]
      modifies store.image, store.blockMap
      ensures Valid() && View() == Release(old(View()), oldNum, lo, k, ID_LIMIT)
      ensures num == oldNum[..lo] + seq(k, _ => 0) + oldNum[lo + k..] && PointersFit(num)
    {
      hide VolumeOf, BlocksOf, MapOf, Bits, DeleteBlock;
      ghost var v := View();
      num := oldNum;
      for i := 0 to k
        invariant Valid() && View() == Release(v, oldNum, lo, i, ID_LIMIT)
        invariant num == oldNum[..lo] + seq(i, _ => 0) + oldNum[lo + i..] && PointersFit(num)
      {
        hide PointersFit;
        assert num[lo + i] == oldNum[lo + i];
        DeleteData(num[lo + i]);
        num := num[lo + i := 0];
        OneMoreCleared(oldNum, lo, i);
        FitsUpdate(oldNum, oldNum[..lo] + seq(i, _ => 0) + oldNum[lo + i..], lo + i, 0);
      }
    }

    static lemma OneMoreCleared(num: seq<int>, lo: nat, i: nat)
      requires lo + i < |num|
      ensures (num[..lo] + seq(i, _ => 0) + num[lo + i..])[lo + i := 0]
        == num[..lo] + seq(i + 1, _ => 0) + num[lo + i + 1..]
    {}

    static lemma FitsUpdate(oldNum: seq<int>, num: seq<int>, at: nat, id: int)
      requires PointersFit(num) && at < |num| && 0 <= id < BLOCKS
      ensures PointersFit(num[at := id])
    {}

    /** The shrink branch as written: it releases the pointers from b - n on, then offers the first
        n pointers whole blocks. Releasing the indirect pointer, which is 0, does nothing. */
    method ShrinkFile(node: Inode, mem: seq<byte>, b: nat) returns (num: seq<int>)
      requires Valid() && Writable(View(), node, mem)
      requires b == Count(node.num, 0) > BlocksFor(node.size)
      modifies store.image, store.blockMap
      ensures Valid() && (View(), num) == Volumes.ShrinkFile(old(View()), node, mem)
      ensures PointersFit(num)
    {
      hide VolumeOf, BlocksOf, MapOf, Bits, Rewrite, Release;
      var n := BlocksFor(node.size);
      ShapeFits(node.num);
      num := ReleaseBlocks(node.num, b - n, n);
      assert forall k :: 0 <= k < n ==> num[k] == 0 || num[k] == node.num[k];
      RewriteWhole(num, mem, n);
      if n < DIRECT {
        assert num[DIRECT] == node.num[DIRECT] == 0;
        DeleteData(num[DIRECT]);
        DeleteNothing(Volumes.ShrinkFile(old(View()), node, mem).0);
        assert num[DIRECT := 0] == num;
        num := num[DIRECT := 0];
      }
    }

    /** write_file for files below 22528 bytes: grow, shrink or rewrite, then store the record. */
    method WriteFile(node: Inode, mem: seq<byte>) returns (made: Inode)
      requires Valid() && Writable(View(), node, mem) && Representable(node)
      modifies store.image, store.blockMap
      ensures Valid() && (View(), made) == Volumes.WriteFile(old(View()), node, mem)
    {
      ghost var v := View();
      var n := BlocksFor(node.size);
      var num := node.num;
      var found, b := BlocksInUse(node.num);
      assert node.num[..DIRECT][Count(node.num, 0)] == 0;
      ShapeFits(node.num);
      if b < n {
        num := GrowFile(node, mem, b);
      } else if b > n {
        num := ShrinkFile(node, mem, b);
      } else {
        RewriteCut(num, mem, node.size);
      }
      FitsRepresentable(node, num);
      made := node.(num := num);
      RecordsKept(v, node, mem);
      UpdateInode(made);
    }
  }

  lemma DeleteNothing(v: Volume)
    ensures DeleteBlock(v, 0, ID_LIMIT) == v
  {}

  /** All pieces before the last one are whole. */
  lemma WholePrefix(v: Volume, num: seq<int>, mem: seq<byte>, size: nat, b: nat)
    requires b <= |num| && b < BlocksFor(size) && BlocksFor(size) * BLOCK_SIZE <= |mem|
    ensures Rewrite(v, num, FullChunks(mem, b), b, ID_LIMIT) == Rewrite(v, num, Chunks(mem, size), b, ID_LIMIT)
  {
    assert FullChunks(mem, b)[..b] == Chunks(mem, size)[..b];
    RewriteOfPrefix(v, num, num, FullChunks(mem, b), Chunks(mem, size), b, ID_LIMIT);
  }

  /** write_file touches no record before the final update. */
  lemma RecordsKept(v: Volume, node: Inode, mem: seq<byte>)
    requires Writable(v, node, mem)
    ensures var b, n := Count(node.num, 0), BlocksFor(node.size);
      (if b < n then Volumes.GrowFile(v, node, mem).0
       else if b > n then Volumes.ShrinkFile(v, node, mem).0
       else Rewrite(v, node.num, Chunks(mem, node.size), n, ID_LIMIT)).recs == v.recs
  {
    hide Rewrite, Allocate, Release, Chunks, FullChunks, Count, BlocksFor;
    var b, n := Count(node.num, 0), BlocksFor(node.size);
    var chunks := Chunks(mem, node.size);
    if b < n {
      RewriteKeepsRecords(v, node.num, chunks, b, ID_LIMIT);
      AllocateKeepsRecords(Rewrite(v, node.num, chunks, b, ID_LIMIT), chunks[b..], n - b);
    } else if b > n {
      var num := node.num[..b - n] + seq(n, _ => 0) + node.num[b..];
      ReleaseKeepsRecords(v, node.num, b - n, n, ID_LIMIT);
      RewriteKeepsRecords(Release(v, node.num, b - n, n, ID_LIMIT), num, FullChunks(mem, n), n, ID_LIMIT);
    } else {
      RewriteKeepsRecords(v, node.num, chunks, n, ID_LIMIT);
    }
  }

  lemma {:induction false} RewriteKeepsRecords(v: Volume, ptrs: seq<int>, chunks: seq<seq<byte>>, k: nat, limit: int)
    requires k <= |ptrs| && k <= |chunks|
    ensures Rewrite(v, ptrs, chunks, k, limit).recs == v.recs
  {
    if k > 0 {
      RewriteKeepsRecords(v, ptrs, chunks, k - 1, limit);
    }
  }

  lemma {:induction false} AllocateKeepsRecords(v: Volume, chunks: seq<seq<byte>>, k: nat)
    requires k <= |chunks|
    ensures Allocate(v, chunks, k).0.recs == v.recs
  {
    if k > 0 {
      AllocateKeepsRecords(v, chunks, k - 1);
    }
  }

  lemma {:induction false} ReleaseKeepsRecords(v: Volume, ptrs: seq<int>, lo: nat, k: nat, limit: int)
    requires lo + k <= |ptrs|
    ensures Release(v, ptrs, lo, k, limit).recs == v.recs
  {
    if k > 0 {
      ReleaseKeepsRecords(v, ptrs, lo, k - 1, limit);
    }
  }

  /** update_inode then query_inode gives the record written, and every other record of the disk
      stays as it was. */
  method UpdateThenQuery(s: InodeStore, node: Inode, other: int) returns (found: Inode, neighbour: Inode)
    requires s.Valid() && Representable(node) && 0 <= node.id < INODES && node.id in s.View().iused
    requires 0 <= other < INODES && other != node.id
    modifies s.store.image
    ensures s.Valid() && found == node && neighbour == QueryInode(old(s.View()), other)
  {
    hide VolumeOf, Representable, BlocksOf, MapOf, Bits;
    s.UpdateInode(node);
    found := s.QueryInode(node.id);
    neighbour := s.QueryInode(other);
  }
}
