/** The inode record (inode.h) and its 128-byte image on disk. */
module Inodes {
  import opened Bytes

  const INODE_SIZE := 128
  const NAME_FIELD := 32
  const NUM_ENTRIES := 15

  const FREE_KIND := 0
  const FILE_KIND := 1
  const DIR_KIND := 2

  datatype Inode = Inode(
    id: int,
    size: int,
    kind: int,
    nameLen: int,
    fileId: int,
    name: string,
    groupId: int,
    num: seq<int>)

  /** What fits the C struct: 32-bit fields and a terminated file name. */
  predicate Representable(n: Inode) {
    && Int32(n.id) && Int32(n.size) && Int32(n.kind) && Int32(n.nameLen)
    && Int32(n.fileId) && Int32(n.groupId)
    && |n.num| == NUM_ENTRIES && (forall x :: x in n.num ==> Int32(x))
    && IsCString(n.name) && |n.name| < NAME_FIELD
  }

  function NoPointers(): (num: seq<int>)
    ensures |num| == NUM_ENTRIES
    ensures forall k :: 0 <= k < NUM_ENTRIES ==> num[k] == 0
  {
    seq(NUM_ENTRIES, _ => 0)
  }

  /** A zeroed record whose id says "no inode": an empty table slot. */
  function Blank(): Inode {
    Inode(-1, 0, FREE_KIND, 0, 0, "", 0, NoPointers())
  }

  /** The struct as memory holds it: five ints, the name field, an int, fifteen ints, padding. */
  function Encode(n: Inode): (bs: seq<byte>)
    requires Representable(n)
    ensures |bs| == INODE_SIZE
  {
    EncodeInt(n.id) + EncodeInt(n.size) + EncodeInt(n.kind) + EncodeInt(n.nameLen)
    + EncodeInt(n.fileId) + EncodeString(n.name, NAME_FIELD) + EncodeInt(n.groupId)
    + EncodeInts(n.num) + Zeros(12)
  }

  function Decode(bs: seq<byte>): (n: Inode)
    requires |bs| == INODE_SIZE
    ensures |n.num| == NUM_ENTRIES
  {
    Inode(
      DecodeInt(bs[0..4]),
      DecodeInt(bs[4..8]),
      DecodeInt(bs[8..12]),
      DecodeInt(bs[12..16]),
      DecodeInt(bs[16..20]),
      DecodeString(bs[20..52]),
      DecodeInt(bs[52..56]),
      DecodeInts(bs[56..116], NUM_ENTRIES))
  }

  /** Copying a record to disk and back gives the record. */
  lemma RecordRoundTrip(n: Inode)
    requires Representable(n)
    ensures Decode(Encode(n)) == n
  {
    hide EncodeInt, DecodeInt, EncodeInts, DecodeInts, EncodeString, DecodeString, Zeros;
    var bs := Encode(n);
    assert bs[0..4] == EncodeInt(n.id);
    assert bs[4..8] == EncodeInt(n.size);
    assert bs[8..12] == EncodeInt(n.kind);
    assert bs[12..16] == EncodeInt(n.nameLen);
    assert bs[16..20] == EncodeInt(n.fileId);
    assert bs[20..52] == EncodeString(n.name, NAME_FIELD);
    assert bs[52..56] == EncodeInt(n.groupId);
    assert bs[56..116] == EncodeInts(n.num);
    IntRoundTrip(n.id);
    IntRoundTrip(n.size);
    IntRoundTrip(n.kind);
    IntRoundTrip(n.nameLen);
    IntRoundTrip(n.fileId);
    StringRoundTrip(n.name, NAME_FIELD);
    IntRoundTrip(n.groupId);
    IntsRoundTrip(n.num);
  }

  /** Where each field of `struct inode` lies in the bytes from `at` on. */
  ghost predicate RecordAtOffset(bs: seq<byte>, at: nat, n: Inode) {
    && IntAt(bs, at, n.id)
    && IntAt(bs, at + 4, n.size)
    && IntAt(bs, at + 8, n.kind)
    && IntAt(bs, at + 12, n.nameLen)
    && IntAt(bs, at + 16, n.fileId)
    && NameAt(bs, at + 20, 32, n.name)
    && IntAt(bs, at + 52, n.groupId)
    && |n.num| == 15 && forall k :: 0 <= k < 15 ==> IntAt(bs, at + 56 + 4 * k, n.num[k])
  }

  /** Decoding reads every field at its offset; by the round trip, encoding puts it there. */
  lemma DecodeIsAtOffset(bs: seq<byte>)
    requires |bs| == INODE_SIZE
    ensures RecordAtOffset(bs, 0, Decode(bs))
  {
    hide IntAt, NameAt, DecodeInt, DecodeInts, DecodeString;
    DecodeIntIs(bs, 0);
    DecodeIntIs(bs, 4);
    DecodeIntIs(bs, 8);
    DecodeIntIs(bs, 12);
    DecodeIntIs(bs, 16);
    DecodeIntIs(bs, 52);
    NameWithin(bs, 20, 52);
    forall k | 0 <= k < NUM_ENTRIES
      ensures IntAt(bs, 56 + 4 * k, Decode(bs).num[k])
    {
      DecodeIntsIs(bs, 56, NUM_ENTRIES, k);
    }
  }

  lemma NameWithin(bs: seq<byte>, lo: nat, hi: nat)
    requires lo <= hi <= |bs|
    ensures NameAt(bs, lo, hi - lo, DecodeString(bs[lo..hi]))
  {
    hide DecodeString;
    DecodeStringIs(bs[lo..hi]);
    NameShift(bs, lo, hi, 0, hi - lo, DecodeString(bs[lo..hi]));
  }

  lemma NameShift(bs: seq<byte>, lo: nat, hi: nat, off: nat, width: nat, s: string)
    requires lo <= hi <= |bs| && NameAt(bs[lo..hi], off, width, s)
    ensures NameAt(bs, lo + off, width, s)
  {
    var part := bs[lo..hi];
    forall i | 0 <= i < |s|
      ensures IsChar(bs, lo + off + i, s[i])
    {
      assert IsChar(part, off + i, s[i]);
    }
  }

  lemma EncodeIsAtOffset(n: Inode)
    requires Representable(n)
    ensures RecordAtOffset(Encode(n), 0, n)
  {
    hide Encode, Decode, RecordAtOffset;
    DecodeIsAtOffset(Encode(n));
    RecordRoundTrip(n);
  }

  lemma OffsetWithin(bs: seq<byte>, at: nat, n: Inode)
    requires at + INODE_SIZE <= |bs| && RecordAtOffset(bs[at..at + INODE_SIZE], 0, n)
    ensures RecordAtOffset(bs, at, n)
  {
    hide IntAt, NameAt;
    NameShift(bs, at, at + INODE_SIZE, 20, 32, n.name);
    IntWithin(bs, at, 0, n.id);
    IntWithin(bs, at, 4, n.size);
    IntWithin(bs, at, 8, n.kind);
    IntWithin(bs, at, 12, n.nameLen);
    IntWithin(bs, at, 16, n.fileId);
    IntWithin(bs, at, 52, n.groupId);
    forall k | 0 <= k < 15
      ensures IntAt(bs, at + 56 + 4 * k, n.num[k])
    {
      IntWithin(bs, at, 56 + 4 * k, n.num[k]);
    }
  }

  lemma IntWithin(bs: seq<byte>, at: nat, off: nat, x: int)
    requires at + INODE_SIZE <= |bs| && off + 4 <= INODE_SIZE && IntAt(bs[at..at + INODE_SIZE], off, x)
    ensures IntAt(bs, at + off, x)
  {
    var s := bs[at..at + INODE_SIZE];
    assert s[off] == bs[at + off] && s[off + 1] == bs[at + off + 1];
    assert s[off + 2] == bs[at + off + 2] && s[off + 3] == bs[at + off + 3];
  }
}
