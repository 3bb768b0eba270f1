/** filesystem_and_blocks.c: the image as a byte array, the free bitmap on disk and its mirror in
    memory, and the block operations on them. */
module BlockStores {
  import opened Bytes
  import opened Volumes
  import opened Layout

  lemma FreshImage(img: seq<byte>)
    requires img == Splice(Zeros(IMAGE_SIZE), 0, Header())
    ensures img[..HEADER_SIZE] == Header()
    ensures forall id :: 0 < id < BLOCKS ==> BlocksOf(img)[id] == Zeros(BLOCK_SIZE)
  {
    forall id | 0 < id < BLOCKS
      ensures BlocksOf(img)[id] == Zeros(BLOCK_SIZE)
    {
      assert BlockOf(img, id) == Zeros(BLOCK_SIZE);
    }
  }

  lemma NoBits(m: seq<byte>)
    requires forall i :: 0 <= i < |m| ==> m[i] == 0
    ensures Bits(m) == {}
  {
    forall id | 0 <= id < 8 * |m|
      ensures !TestBit(m, id)
    {
      assert m[id / 8] == 0;
    }
  }

  lemma OverlayIsSplice(b: Block, d: seq<byte>)
    ensures Overlay(b, d) == Splice(b, 0, if |d| < BLOCK_SIZE then d else d[..BLOCK_SIZE])
  {}

  lemma BlocksAt(img: seq<byte>, id: int)
    requires |img| == IMAGE_SIZE && 0 < id < BLOCKS
    ensures BlocksOf(img)[id] == BlockOf(img, id)
  {}

  lemma NoZeroYet(b: Block, from: nat)
    requires from <= BLOCK_SIZE
    ensures Splice(b, from, Zeros(0)) == b
  {}

  lemma OneMoreZero(b: Block, from: nat, i: nat)
    requires from + i < BLOCK_SIZE
    ensures Splice(Splice(b, from, Zeros(i)), from + i, [0]) == Splice(b, from, Zeros(i + 1))
  {}

  lemma PaddedIsSplices(b: Block, d: seq<byte>)
    ensures if |d| < BLOCK_SIZE
            then Splice(Splice(b, 0, d), |d|, Zeros(BLOCK_SIZE - |d|)) == Padded(d)
            else Splice(b, 0, d[..BLOCK_SIZE]) == Padded(d)
  {}

  lemma FirstFreeIs(used: set<int>, id: int)
    requires FIRST_DATA <= id < BLOCKS && id !in used
    requires forall x :: FIRST_DATA <= x < id ==> x in used
    ensures FirstFree(used, FIRST_DATA) == id
  {
    FirstFreeIsLeast(used, FIRST_DATA);
  }

  class BlockStore {
    const image: array<byte>
    const blockMap: array<byte>

    /** The sizes, and nothing about the contents. */
    ghost predicate Shaped() {
      image.Length == IMAGE_SIZE && blockMap.Length == MAP_BYTES && image != blockMap
    }

    /** The header is in place and bytes 10 .. 521 of the image equal the bitmap in memory. */
    ghost predicate Valid()
      reads image, blockMap
    {
      Shaped() && image[..][..HEADER_SIZE] == Header() && MapOf(image[..]) == blockMap[..]
    }

    /** The ids whose bit is set. */
    ghost function Used(): set<int>
      reads blockMap
    {
      Bits(blockMap[..])
    }

    ghost function Blocks(): (m: map<int, Block>)
      requires Shaped()
      reads image
      ensures AllBlocks(m)
    {
      BlocksOf(image[..])
    }

    /** create_filesystem: zeros, the header, and the bits of the first 514 blocks. */
    constructor Create()
      ensures Valid() && fresh(image) && fresh(blockMap)
      ensures forall x :: x in Used() <==> 0 <= x < FIRST_DATA
      ensures forall id :: 0 < id < BLOCKS ==> Blocks()[id] == Zeros(BLOCK_SIZE)
    {
      image := new byte[IMAGE_SIZE](_ => 0);
      blockMap := new byte[MAP_BYTES](_ => 0);
      new;
      hide BlocksOf, MapOf, Splice, BlockOf, Header, Mask;
      assert image[..] == Zeros(IMAGE_SIZE);
      NoBits(blockMap[..]);
      WriteBytes(0, Header());
      ghost var img := image[..];
      FreshImage(img);
      for i := 0 to FIRST_DATA
        invariant Shaped() && image[..] == img
        invariant forall x :: x in Used() <==> 0 <= x < i
      {
        MapSet(i);
      }
      UpdateSuperBlock();
    }

    /** A new process on an existing image: the globals are zero and nothing has been loaded. */
    constructor Attach(bytes: seq<byte>)
      requires |bytes| == IMAGE_SIZE
      ensures Shaped() && fresh(image) && fresh(blockMap)
      ensures image[..] == bytes && blockMap[..] == Zeros(MAP_BYTES)
    {
      image := new byte[IMAGE_SIZE](i requires 0 <= i < |bytes| => bytes[i]);
      blockMap := new byte[MAP_BYTES](_ => 0);
    }

    /** `lseek` and `write` within the image. */
    method WriteBytes(at: nat, d: seq<byte>)
      requires Shaped() && at + |d| <= image.Length
      modifies image
      ensures image[..] == Splice(old(image[..]), at, d)
    {
      forall i | 0 <= i < |d| {
        image[at + i] := d[i];
      }
    }

    method MapSet(id: int)
      requires Shaped() && 0 <= id < BLOCKS
      modifies blockMap
      ensures blockMap[..] == SetBit(old(blockMap[..]), id)
      ensures Used() == old(Used()) + {id}
    {
      SetBitInserts(blockMap[..], id);
      blockMap[id / 8] := blockMap[id / 8] | Mask(id % 8);
      assert blockMap[..] == SetBit(old(blockMap[..]), id);
    }

    method MapClear(id: int)
      requires Shaped() && 0 <= id < BLOCKS
      modifies blockMap
      ensures blockMap[..] == ClearBit(old(blockMap[..]), id)
      ensures Used() == old(Used()) - {id}
    {
      ClearBitRemoves(blockMap[..], id);
      blockMap[id / 8] := blockMap[id / 8] & !Mask(id % 8);
      assert blockMap[..] == ClearBit(old(blockMap[..]), id);
    }

    /** The bit is read from the image, not from memory; with the mirror intact it is the same. */
    method MapCheck(id: int) returns (isSet: bool)
      requires Valid() && 0 <= id < BLOCKS
      ensures isSet <==> id in Used()
    {
      var onDisk := image[HEADER_SIZE..HEADER_SIZE + MAP_BYTES];
      assert onDisk == MapOf(image[..]);
      isSet := onDisk[id / 8] & Mask(id % 8) != 0;
    }

    method UpdateSuperBlock()
      requires Shaped() && image[..][..HEADER_SIZE] == Header()
      modifies image
      ensures Valid() && Blocks() == old(Blocks())
      ensures image[..] == Splice(old(image[..]), HEADER_SIZE, blockMap[..])
    {
      SpliceMap(image[..], blockMap[..]);
      WriteBytes(HEADER_SIZE, blockMap[..]);
    }

    /** load_filesystem: the header is checked, the bitmap in memory is replaced by the one on disk. */
    method Load() returns (status: int)
      requires Shaped()
      modifies blockMap
      ensures status == 0 <==> image[..][..HEADER_SIZE] == Header()
      ensures status == 0 ==> Valid()
      ensures status != 0 ==> blockMap[..] == old(blockMap[..])
    {
      if image[..HEADER_SIZE] != Header() {
        assert image[..][..HEADER_SIZE] == image[..HEADER_SIZE];
        return -4;
      }
      forall i | 0 <= i < MAP_BYTES {
        blockMap[i] := image[HEADER_SIZE + i];
      }
      assert blockMap[..] == MapOf(image[..]);
      assert image[..][..HEADER_SIZE] == image[..HEADER_SIZE];
      status := 0;
    }

    /** assign_block: the least free data block, its bit set on disk and in memory, or 0. */
    method AssignBlock() returns (id: int)
      requires Valid()
      modifies image, blockMap
      ensures Valid() && Blocks() == old(Blocks())
      ensures id == FirstFree(old(Used()), FIRST_DATA)
      ensures Used() == if id == 0 then old(Used()) else old(Used()) + {id}
    {
      ghost var used := Used();
      for i := FIRST_DATA to BLOCKS
        invariant forall x :: FIRST_DATA <= x < i ==> x in used
        invariant image[..] == old(image[..]) && blockMap[..] == old(blockMap[..])
      {
        var taken := MapCheck(i);
        if !taken {
          FirstFreeIs(used, i);
          MapSet(i);
          UpdateSuperBlock();
          return i;
        }
      }
      FirstFreeIsLeast(used, FIRST_DATA);
      id := 0;
    }

    /** delete_block: ids from 2048 on are refused although such blocks exist. */
    method DeleteBlock(id: int) returns (status: int)
      requires Valid()
      modifies image, blockMap
      ensures Valid() && Blocks() == old(Blocks())
      ensures status == if 0 < id < ID_LIMIT && id in old(Used()) then 0 else -2
      ensures Used() == if status == 0 then old(Used()) - {id} else old(Used())
    {
      if id >= ID_LIMIT || id <= 0 {
        return -2;
      }
      var taken := MapCheck(id);
      if !taken {
        return -2;
      }
      MapClear(id);
      UpdateSuperBlock();
      status := 0;
    }

    /** modify_block: overwrites the front of an allocated block; ids from 2048 on are refused. */
    method ModifyBlock(id: int, d: seq<byte>) returns (written: int)
      requires Valid() && 0 <= id
      modifies image
      ensures Valid() && Used() == old(Used())
      ensures var ok := id != 0 && id < ID_LIMIT && id in Used();
        && written == (if !ok then -2 else if |d| < BLOCK_SIZE then |d| else BLOCK_SIZE)
        && Blocks() == if ok then old(Blocks())[id := Overlay(old(Blocks())[id], d)] else old(Blocks())
    {
      if id >= ID_LIMIT || id == 0 {
        return -2;
      }
      var taken := MapCheck(id);
      if !taken {
        return -2;
      }
      var piece := if |d| < BLOCK_SIZE then d else d[..BLOCK_SIZE];
      WriteInBlock(id, 0, piece);
      OverlayIsSplice(old(Blocks())[id], d);
      written := |piece|;
    }

    /** Seeking to a block and writing at an offset within it. */
    method WriteInBlock(id: int, off: nat, d: seq<byte>)
      requires Valid() && 0 < id < BLOCKS && off + |d| <= BLOCK_SIZE
      modifies image
      ensures Valid() && Blocks() == old(Blocks())[id := Splice(old(Blocks())[id], off, d)]
    {
      hide Splice, BlocksOf, Bits, Header;
      SpliceBlock(image[..], id, off, d);
      BlocksAt(image[..], id);
      WriteBytes(id * BLOCK_SIZE + off, d);
    }

    /** write_block: a new block with the data in front and zeros behind, written byte by byte. */
    method WriteBlock(d: seq<byte>) returns (id: int, written: int)
      requires Valid()
      modifies image, blockMap
      ensures Valid()
      ensures id == FirstFree(old(Used()), FIRST_DATA)
      ensures written == if id == 0 then -2 else if |d| < BLOCK_SIZE then |d| else BLOCK_SIZE
      ensures id == 0 ==> Used() == old(Used()) && Blocks() == old(Blocks())
      ensures id != 0 ==> Used() == old(Used()) + {id} && Blocks() == old(Blocks())[id := Padded(d)]
    {
      hide BlocksOf, MapOf, Bits, Splice, Padded;
      id := AssignBlock();
      if id == 0 {
        return id, -2;
      }
      if |d| < BLOCK_SIZE {
        WriteInBlock(id, 0, d);
        PadWithZeros(id, |d|);
        written := |d|;
      } else {
        WriteInBlock(id, 0, d[..BLOCK_SIZE]);
        written := BLOCK_SIZE;
      }
      PaddedIsSplices(old(Blocks())[id], d);
    }

    /** The loop of single-byte writes behind the data. */
    method PadWithZeros(id: int, from: nat)
      requires Valid() && 0 < id < BLOCKS && from <= BLOCK_SIZE
      modifies image
      ensures Valid()
      ensures Blocks() == old(Blocks())[id := Splice(old(Blocks())[id], from, Zeros(BLOCK_SIZE - from))]
    {
      hide BlocksOf, MapOf, Bits;
      ghost var before := Blocks();
      NoZeroYet(before[id], from);
      assert before == before[id := before[id]];
      for i := 0 to BLOCK_SIZE - from
        invariant Valid() && Blocks() == before[id := Splice(before[id], from, Zeros(i))]
      {
        OneMoreZero(before[id], from, i);
        WriteInBlock(id, from + i, [0]);
      }
    }

    /** read_block: the whole block, for any allocated id up to 4095. */
    method ReadBlock(id: int) returns (count: int, block: Block)
      requires Valid() && 0 <= id
      ensures var ok := id != 0 && id < BLOCKS && id in Used();
        && count == (if ok then BLOCK_SIZE else -2)
        && (ok ==> block == Blocks()[id])
    {
      block := Zeros(BLOCK_SIZE);
      if id >= BLOCKS || id == 0 {
        return -2, block;
      }
      var taken := MapCheck(id);
      if !taken {
        return -2, block;
      }
      block := image[id * BLOCK_SIZE..(id + 1) * BLOCK_SIZE];
      assert block == BlockOf(image[..], id);
      count := BLOCK_SIZE;
    }
  }

  /** write_block then read_block gives the input padded with zeros. */
  method WriteThenRead(store: BlockStore, d: seq<byte>) returns (id: int, count: int, block: Block)
    requires store.Valid() && |d| <= BLOCK_SIZE
    modifies store.image, store.blockMap
    ensures store.Valid()
    ensures id != 0 ==> count == BLOCK_SIZE && block == d + Zeros(BLOCK_SIZE - |d|)
    ensures id == 0 <==> forall x :: FIRST_DATA <= x < BLOCKS ==> x in old(store.Used())
  {
    FirstFreeIsLeast(store.Used(), FIRST_DATA);
    var written;
    id, written := store.WriteBlock(d);
    count, block := store.ReadBlock(id);
  }
}
