/** Where things lie in the image: header, block bitmap, inode bitmap, inode records, data. */
module Layout {
  import opened Bytes
  import opened Inodes
  import opened Volumes

  const IMAGE_SIZE := 8388608
  const HEADER_SIZE := 10
  const MAP_BYTES := 512
  const SUPERBLOCK_ID := 1
  const SUPERBLOCK_SIZE := 4104
  const INODE_MAP_AT := 8
  const FIRST_INODE_BLOCK := 2
  const PER_BLOCK := 16

  /** The ten bytes of "filesystem". */
  function Header(): (h: seq<byte>)
    ensures |h| == HEADER_SIZE
  {
    [102, 105, 108, 101, 115, 121, 115, 116, 101, 109]
  }

  // ------------------------------------------------------------------ blocks

  /** `lseek` to `at` and `write`. */
  function Splice(img: seq<byte>, at: nat, d: seq<byte>): (r: seq<byte>)
    requires at + |d| <= |img|
    ensures |r| == |img|
    ensures forall k :: 0 <= k < |img| ==> r[k] == if at <= k < at + |d| then d[k - at] else img[k]
  {
    img[..at] + d + img[at + |d|..]
  }

  function BlockOf(img: seq<byte>, id: int): Block
    requires |img| == IMAGE_SIZE && 0 <= id < BLOCKS
  {
    img[id * BLOCK_SIZE..(id + 1) * BLOCK_SIZE]
  }

  /** The contents of blocks 1 .. 4095; block 0 holds the header and the bitmap. */
  function BlocksOf(img: seq<byte>): (m: map<int, Block>)
    requires |img| == IMAGE_SIZE
    ensures forall id :: id in m <==> 0 < id < BLOCKS
  {
    map id | 0 < id < BLOCKS :: BlockOf(img, id)
  }

  function MapOf(img: seq<byte>): seq<byte>
    requires |img| == IMAGE_SIZE
  {
    img[HEADER_SIZE..HEADER_SIZE + MAP_BYTES]
  }

  /** Writing inside one block changes that block and no other byte of the image. */
  lemma SpliceBlock(img: seq<byte>, id: int, off: nat, d: seq<byte>)
    requires |img| == IMAGE_SIZE && 0 < id < BLOCKS && off + |d| <= BLOCK_SIZE
    ensures var r := Splice(img, id * BLOCK_SIZE + off, d);
      && BlocksOf(r) == BlocksOf(img)[id := Splice(BlockOf(img, id), off, d)]
      && r[..HEADER_SIZE] == img[..HEADER_SIZE] && MapOf(r) == MapOf(img)
  {
    var r := Splice(img, id * BLOCK_SIZE + off, d);
    var before, after := BlocksOf(img), BlocksOf(r);
    forall j | 0 < j < BLOCKS
      ensures after[j] == if j == id then Splice(BlockOf(img, id), off, d) else before[j]
    {
      BlockAfterSplice(img, id, off, d, j);
    }
  }

  lemma BlockAfterSplice(img: seq<byte>, id: int, off: nat, d: seq<byte>, j: int)
    requires |img| == IMAGE_SIZE && 0 < id < BLOCKS && 0 < j < BLOCKS && off + |d| <= BLOCK_SIZE
    ensures BlockOf(Splice(img, id * BLOCK_SIZE + off, d), j)
      == if j == id then Splice(BlockOf(img, id), off, d) else BlockOf(img, j)
  {
    var r := Splice(img, id * BLOCK_SIZE + off, d);
    var want := if j == id then Splice(BlockOf(img, id), off, d) else BlockOf(img, j);
    forall k | 0 <= k < BLOCK_SIZE
      ensures BlockOf(r, j)[k] == want[k]
    {
      assert BlockOf(r, j)[k] == r[j * BLOCK_SIZE + k];
      assert BlockOf(img, j)[k] == img[j * BLOCK_SIZE + k];
    }
  }

  /** Writing the bitmap area changes no block from 1 on, and not the header. */
  lemma SpliceMap(img: seq<byte>, m: seq<byte>)
    requires |img| == IMAGE_SIZE && |m| == MAP_BYTES
    ensures var r := Splice(img, HEADER_SIZE, m);
      && BlocksOf(r) == BlocksOf(img) && r[..HEADER_SIZE] == img[..HEADER_SIZE] && MapOf(r) == m
  {
    var r := Splice(img, HEADER_SIZE, m);
    forall j | 0 < j < BLOCKS
      ensures BlockOf(r, j) == BlockOf(img, j)
    {}
  }

  // ------------------------------------------------------- inode records

  /** Where inode `id` lives: its block, and its place among the sixteen records of the block. */
  function InodeBlock(id: int): (b: int)
    requires 0 <= id < INODES
    ensures FIRST_INODE_BLOCK <= b <= 257 && b < FIRST_DATA && b != SUPERBLOCK_ID
  {
    id / PER_BLOCK + FIRST_INODE_BLOCK
  }

  function InodeSeat(id: int): (k: int)
    requires 0 <= id < INODES
    ensures 0 <= k < PER_BLOCK
  {
    id % PER_BLOCK
  }

  /** No two inodes share a place. */
  lemma InodePlacesDistinct(a: int, b: int)
    requires 0 <= a < INODES && 0 <= b < INODES
    ensures InodeBlock(a) == InodeBlock(b) && InodeSeat(a) == InodeSeat(b) <==> a == b
  {}

  function RecordBytes(b: Block, k: int): (bs: seq<byte>)
    requires 0 <= k < PER_BLOCK
    ensures |bs| == INODE_SIZE
  {
    b[k * INODE_SIZE..(k + 1) * INODE_SIZE]
  }

  /** Patching one record leaves the other fifteen of its block as they were, byte for byte. */
  lemma PatchRecord(b: Block, k: int, bs: seq<byte>, j: int)
    requires 0 <= k < PER_BLOCK && 0 <= j < PER_BLOCK && |bs| == INODE_SIZE
    ensures RecordBytes(Splice(b, k * INODE_SIZE, bs), j) == if j == k then bs else RecordBytes(b, j)
  {
    var r: Block := Splice(b, k * INODE_SIZE, bs);
    var want := if j == k then bs else RecordBytes(b, j);
    forall i | 0 <= i < INODE_SIZE
      ensures RecordBytes(r, j)[i] == want[i]
    {
      assert RecordBytes(r, j)[i] == r[j * INODE_SIZE + i];
      assert RecordBytes(b, j)[i] == b[j * INODE_SIZE + i];
    }
  }

  ghost predicate AllBlocks(blocks: map<int, Block>) {
    forall id :: id in blocks <==> 0 < id < BLOCKS
  }

  function RecordAt(blocks: map<int, Block>, id: int): Inode
    requires 0 <= id < INODES && InodeBlock(id) in blocks
  {
    Decode(RecordBytes(blocks[InodeBlock(id)], InodeSeat(id)))
  }

  /** The volume an image stands for, given the bitmaps in memory. */
  ghost function VolumeOf(used: set<int>, blocks: map<int, Block>, superblock: seq<byte>): (v: Volume)
    requires AllBlocks(blocks) && |superblock| == SUPERBLOCK_SIZE
    ensures |v.recs| == INODES
  {
    Volume(used,
           map id | FIRST_DATA <= id < BLOCKS :: blocks[id],
           Bits(superblock[INODE_MAP_AT..INODE_MAP_AT + MAP_BYTES]),
           seq(INODES, (id: int) requires 0 <= id < INODES => RecordAt(blocks, id)))
  }

  /** The volume an image stands for by itself: both bitmaps as they lie on disk. */
  ghost function ImageVolume(img: seq<byte>): (v: Volume)
    requires |img| == IMAGE_SIZE
    ensures |v.recs| == INODES
  {
    var blocks := BlocksOf(img);
    VolumeOf(Bits(MapOf(img)), blocks, blocks[SUPERBLOCK_ID] + Zeros(SUPERBLOCK_SIZE - BLOCK_SIZE))
  }

  /** A data block changes the data of the volume only. */
  lemma DataBlockUpdate(used: set<int>, blocks: map<int, Block>, sb: seq<byte>, id: int, b: Block)
    requires AllBlocks(blocks) && |sb| == SUPERBLOCK_SIZE && FIRST_DATA <= id < BLOCKS
    ensures var v := VolumeOf(used, blocks, sb);
      AllBlocks(blocks[id := b]) && VolumeOf(used, blocks[id := b], sb) == v.(data := v.data[id := b])
  {
    var v, w := VolumeOf(used, blocks, sb), VolumeOf(used, blocks[id := b], sb);
    forall i | 0 <= i < INODES
      ensures w.recs[i] == v.recs[i]
    {
      assert InodeBlock(i) != id;
    }
    assert w.data == v.data[id := b];
  }

  /** Patching a record's bytes changes that record of the volume only. */
  lemma RecordUpdate(used: set<int>, blocks: map<int, Block>, sb: seq<byte>, node: Inode)
    requires AllBlocks(blocks) && |sb| == SUPERBLOCK_SIZE
    requires Representable(node) && 0 <= node.id < INODES
    ensures var v, at := VolumeOf(used, blocks, sb), InodeBlock(node.id);
      var b: Block := Splice(blocks[at], InodeSeat(node.id) * INODE_SIZE, Encode(node));
      && AllBlocks(blocks[at := b])
      && VolumeOf(used, blocks[at := b], sb) == v.(recs := v.recs[node.id := node])
  {
    hide Encode, Decode, Splice, RecordBytes, Representable;
    var v, at, k := VolumeOf(used, blocks, sb), InodeBlock(node.id), InodeSeat(node.id);
    var b: Block := Splice(blocks[at], k * INODE_SIZE, Encode(node));
    var w := VolumeOf(used, blocks[at := b], sb);
    forall i | 0 <= i < INODES
      ensures w.recs[i] == if i == node.id then node else v.recs[i]
    {
      InodePlacesDistinct(i, node.id);
      PatchRecord(blocks[at], k, Encode(node), InodeSeat(i));
      RecordRoundTrip(node);
    }
    assert w.recs == v.recs[node.id := node];
    assert w.data == v.data;
  }

  /** Rewriting block 1 does not touch the volume otherwise: its inode bits come from memory. */
  lemma SuperblockUpdate(used: set<int>, blocks: map<int, Block>, sb: seq<byte>, b: Block)
    requires AllBlocks(blocks) && |sb| == SUPERBLOCK_SIZE
    ensures AllBlocks(blocks[SUPERBLOCK_ID := b])
    ensures VolumeOf(used, blocks[SUPERBLOCK_ID := b], sb) == VolumeOf(used, blocks, sb)
  {
    var v, w := VolumeOf(used, blocks, sb), VolumeOf(used, blocks[SUPERBLOCK_ID := b], sb);
    assert w.recs == v.recs;
    assert w.data == v.data;
  }

  // -------------------------------------- block operations seen as volumes

  /** modify_block on a data block is ModifyBlock on the volume. */
  lemma ModifySeen(used: set<int>, blocks: map<int, Block>, sb: seq<byte>, id: int, d: seq<byte>)
    requires AllBlocks(blocks) && |sb| == SUPERBLOCK_SIZE
    requires (id == 0 || FIRST_DATA <= id) && forall x :: x in used ==> 0 <= x < BLOCKS
    ensures var ok := id != 0 && id < ID_LIMIT && id in used;
      var after := if ok then blocks[id := Overlay(blocks[id], d)] else blocks;
      AllBlocks(after) && VolumeOf(used, after, sb) == ModifyBlock(VolumeOf(used, blocks, sb), id, d, ID_LIMIT)
  {
    if id != 0 && id < ID_LIMIT && id in used {
      DataBlockUpdate(used, blocks, sb, id, Overlay(blocks[id], d));
    }
  }

  /** write_block is WriteBlock on the volume. */
  lemma WriteSeen(used: set<int>, blocks: map<int, Block>, sb: seq<byte>, d: seq<byte>)
    requires AllBlocks(blocks) && |sb| == SUPERBLOCK_SIZE
    ensures var id := FirstFree(used, FIRST_DATA);
      var w := WriteBlock(VolumeOf(used, blocks, sb), d);
      && w.1 == id
      && (id == 0 ==> w.0 == VolumeOf(used, blocks, sb))
      && (id != 0 ==>
            AllBlocks(blocks[id := Padded(d)])
            && w.0 == VolumeOf(used + {id}, blocks[id := Padded(d)], sb))
  {
    var id := FirstFree(used, FIRST_DATA);
    if id != 0 {
      DataBlockUpdate(used, blocks, sb, id, Padded(d));
      UsedSeen(used, used + {id}, blocks[id := Padded(d)], sb);
    }
  }

  /** The block bitmap is a component of its own. */
  lemma UsedSeen(used: set<int>, after: set<int>, blocks: map<int, Block>, sb: seq<byte>)
    requires AllBlocks(blocks) && |sb| == SUPERBLOCK_SIZE
    ensures VolumeOf(after, blocks, sb) == VolumeOf(used, blocks, sb).(used := after)
  {}

  /** So is the inode bitmap: a volume with other superblock bytes differs in `iused` only. */
  lemma InodeBitsSeen(used: set<int>, blocks: map<int, Block>, sb: seq<byte>, after: seq<byte>)
    requires AllBlocks(blocks) && |sb| == |after| == SUPERBLOCK_SIZE
    ensures VolumeOf(used, blocks, after) ==
      VolumeOf(used, blocks, sb).(iused := Bits(after[INODE_MAP_AT..INODE_MAP_AT + MAP_BYTES]))
  {}

  // ---------------------------------------------------------- absolute offsets

  /** Bit x of the bitmap that starts at byte `at`. */
  predicate BitAt(img: seq<byte>, at: nat, x: nat) {
    at + x / 8 < |img| && (img[at + x / 8] >> (x % 8)) % 2 == 1
  }

  /** The whole image by byte offsets: the block bitmap behind the ten bytes "filesystem", the inode
      bitmap eight bytes into block 1, the records of 128 bytes from block 2 on, then the data. */
  lemma ImageByOffsets(img: seq<byte>)
    requires |img| == 2048 * 4096
    ensures var v := ImageVolume(img);
      && (forall x :: 0 <= x < 4096 ==> (x in v.used <==> BitAt(img, 10, x)))
      && (forall id :: 0 <= id < 4096 ==> (id in v.iused <==> BitAt(img, 2048 + 8, id)))
      && (forall id :: 0 <= id < 4096 ==> RecordAtOffset(img, 2 * 2048 + 128 * id, v.recs[id]))
      && (forall x :: 514 <= x < 4096 ==> x in v.data && v.data[x] == img[2048 * x..2048 * x + 2048])
  {
    hide Bits, BlocksOf, RecordAtOffset;
    forall x | 0 <= x < 4096
      ensures x in ImageVolume(img).used <==> BitAt(img, 10, x)
    {
      UsedByOffset(img, x);
    }
    forall id | 0 <= id < 4096
      ensures id in ImageVolume(img).iused <==> BitAt(img, 2048 + 8, id)
    {
      InodeBitByOffset(img, id);
    }
    forall id | 0 <= id < 4096
      ensures RecordAtOffset(img, 2 * 2048 + 128 * id, ImageVolume(img).recs[id])
    {
      RecordByOffset(img, id);
    }
    forall x | 514 <= x < 4096
      ensures x in ImageVolume(img).data && ImageVolume(img).data[x] == img[2048 * x..2048 * x + 2048]
    {
      DataByOffset(img, x);
    }
  }

  lemma UsedByOffset(img: seq<byte>, x: nat)
    requires |img| == IMAGE_SIZE && x < BLOCKS
    ensures x in ImageVolume(img).used <==> BitAt(img, 10, x)
  {
    hide Bits, BlocksOf;
    ShiftTestsBits(MapOf(img), x);
    assert MapOf(img)[x / 8] == img[10 + x / 8];
  }

  lemma InodeBitByOffset(img: seq<byte>, id: nat)
    requires |img| == IMAGE_SIZE && id < INODES
    ensures id in ImageVolume(img).iused <==> BitAt(img, 2048 + 8, id)
  {
    hide Bits;
    var sb := BlocksOf(img)[SUPERBLOCK_ID] + Zeros(SUPERBLOCK_SIZE - BLOCK_SIZE);
    var m := sb[INODE_MAP_AT..INODE_MAP_AT + MAP_BYTES];
    ShiftTestsBits(m, id);
    assert m[id / 8] == sb[8 + id / 8] == img[2048 + 8 + id / 8];
  }

  lemma RecordByOffset(img: seq<byte>, id: nat)
    requires |img| == IMAGE_SIZE && id < INODES
    ensures RecordAtOffset(img, 2 * 2048 + 128 * id, ImageVolume(img).recs[id])
  {
    hide RecordAtOffset, Decode, Bits;
    var at := 2 * 2048 + 128 * id;
    var bs := RecordBytes(BlocksOf(img)[InodeBlock(id)], InodeSeat(id));
    assert bs == img[at..at + INODE_SIZE] by { SeatByOffset(img, id); }
    DecodeIsAtOffset(bs);
    OffsetWithin(img, at, Decode(bs));
  }

  lemma SeatByOffset(img: seq<byte>, id: nat)
    requires |img| == IMAGE_SIZE && id < INODES
    ensures var at := 2 * 2048 + 128 * id;
      at + INODE_SIZE <= |img|
      && RecordBytes(BlocksOf(img)[InodeBlock(id)], InodeSeat(id)) == img[at..at + INODE_SIZE]
  {
    var b, k, at := InodeBlock(id), InodeSeat(id), 2 * 2048 + 128 * id;
    assert id == (b - 2) * 16 + k;
    assert b * BLOCK_SIZE + k * INODE_SIZE == at;
    var block := BlockOf(img, b);
    assert forall i :: 0 <= i < BLOCK_SIZE ==> block[i] == img[b * BLOCK_SIZE + i];
  }

  lemma DataByOffset(img: seq<byte>, x: nat)
    requires |img| == IMAGE_SIZE && FIRST_DATA <= x < BLOCKS
    ensures x in ImageVolume(img).data && ImageVolume(img).data[x] == img[2048 * x..2048 * x + 2048]
  {
    hide Bits;
  }

  /** The header spells the word. */
  lemma HeaderSpells()
    ensures forall i :: 0 <= i < 10 ==> Header()[i] as int == "filesystem"[i] as int
  {}
}
