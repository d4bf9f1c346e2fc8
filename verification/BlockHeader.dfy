/** The header before and the footer just below every user region. */
module BlockHeader {
  import opened Arithmetic
  import opened ArenaBytes
  import opened BlockTree

  const HEADER_SIZE: nat := 56
  const FOOTER_SIZE: nat := 4
  const MAGIC: nat := 0xAC1D_CAFE_DEAD_BEEF

  /** `r` is the least multiple of the alignment that leaves room for header and footer. */
  predicate IsOffset(alignment: nat, r: nat) {
    if alignment == 0 then r == 60 else r % alignment == 0 && 60 <= r < 60 + alignment
  }

  /** Distance from the block start to the user pointer. */
  function OffsetToUser(alignment: nat): (r: nat)
    ensures r >= HEADER_SIZE + FOOTER_SIZE
  {
    var overhead := HEADER_SIZE + FOOTER_SIZE;
    var padding := if alignment > 0 && overhead % alignment != 0 then alignment - overhead % alignment else 0;
    overhead + padding
  }

  /** The offset is the least one that is aligned and leaves room for header and footer. */
  lemma OffsetExact(alignment: nat)
    ensures IsOffset(alignment, OffsetToUser(alignment))
    ensures forall r :: IsOffset(alignment, r) ==> r == OffsetToUser(alignment)
  {
    var off := OffsetToUser(alignment);
    PaddedMultiple(HEADER_SIZE + FOOTER_SIZE, alignment);
    forall r | IsOffset(alignment, r) ensures r == off {
      if alignment > 0 { ModInjective(if r < off then r else off, if r < off then off else r, alignment); }
    }
  }

  lemma PaddedMultiple(x: nat, a: nat)
    ensures a > 0 && x % a != 0 ==> (x + (a - x % a)) % a == 0
  {
    if a > 0 && x % a != 0 {
      var q := x / a;
      assert x == a * q + x % a;
      assert x + (a - x % a) == a * q + a == a * (q + 1);
      MultipleMod(a, q + 1);
    }
  }

  /** The user pointer is as aligned as the block start. */
  lemma UserAligned(raw: nat, alignment: nat)
    requires alignment > 0
    ensures (raw + OffsetToUser(alignment)) % alignment == 0 <==> raw % alignment == 0
  {
    var off, a := OffsetToUser(alignment), alignment;
    OffsetExact(a);
    assert off == a * (off / a) + off % a;
    AddMultiple(raw, off / a, a);
  }

  /** What `alloc_raw` writes: magic, sizes, tag, footer, zeroed user bytes. */
  function WriteBlock(m: Bytes, raw: int, size: nat, actual: nat, offset: nat, tag: seq<nat>): Bytes {
    var len := if |tag| < 31 then |tag| else 31;
    var m1 := Store(m, raw + 16, Encode(MAGIC, 8));
    var m2 := Store(m1, raw, Encode(size, 8));
    var m3 := Store(m2, raw + 8, Encode(actual, 8));
    var m4 := Store(m3, raw + 24, tag[..len] + [0]);
    var m5 := Store(m4, raw + offset - 4, Encode(offset, 4));
    Store(m5, raw + offset, Zeros(size))
  }

  datatype Found = NotFound | Found(raw: int, actual: nat)

  /** What `dealloc_raw` reads, starting from the user pointer alone. */
  function ReadBack(m: Bytes, user: int): Found {
    var raw := user - Decode(Load(m, user - 4, 4));
    if Decode(Load(m, raw + 16, 8)) != MAGIC then NotFound
    else Found(raw, Decode(Load(m, raw + 8, 8)))
  }

  predicate Fields(size: nat, actual: nat, offset: nat) {
    HEADER_SIZE + FOOTER_SIZE <= offset && offset + size <= actual && actual < 0x1_0000_0000
  }

  /** Header and footer of a block are in place. */
  predicate HeaderOk(m: Bytes, raw: int, size: nat, actual: nat, offset: nat) {
    Fields(size, actual, offset) &&
    Load(m, raw, 8) == Encode(size, 8) && Load(m, raw + 8, 8) == Encode(actual, 8) &&
    Load(m, raw + 16, 8) == Encode(MAGIC, 8) && Load(m, raw + offset - 4, 4) == Encode(offset, 4)
  }

  /** The first 31 bytes of the tag, and a terminating zero. */
  predicate TagStored(m: Bytes, raw: int, tag: seq<nat>) {
    if |tag| <= 31 then Load(m, raw + 24, |tag|) == tag && Get(m, raw + 24 + |tag|) == 0
    else Load(m, raw + 24, 31) == tag[..31] && Get(m, raw + 55) == 0
  }

  /** A new block: user bytes zero, tag in place. */
  predicate Blank(m: Bytes, raw: int, size: nat, offset: nat, tag: seq<nat>) {
    Load(m, raw + offset, size) == Zeros(size) && TagStored(m, raw, tag)
  }

  lemma TagFrom(m: Bytes, raw: int, tag: seq<nat>, len: nat)
    requires len == (if |tag| < 31 then |tag| else 31) && Load(m, raw + 24, len + 1) == tag[..len] + [0]
    ensures TagStored(m, raw, tag)
  {
    var s := Load(m, raw + 24, len + 1);
    assert Load(m, raw + 24, len) == s[..len] == tag[..len];
    assert s[len] == 0 == Get(m, raw + 24 + len);
    assert |tag| <= 31 ==> tag[..len] == tag;
  }

  lemma WriteBlockOk(m: Bytes, raw: int, size: nat, actual: nat, offset: nat, tag: seq<nat>)
    requires Fields(size, actual, offset)
    ensures HeaderOk(WriteBlock(m, raw, size, actual, offset, tag), raw, size, actual, offset)
    ensures Blank(WriteBlock(m, raw, size, actual, offset, tag), raw, size, offset, tag)
  {
    var len := if |tag| < 31 then |tag| else 31;
    var m3 := NumbersWritten(m, raw, Encode(MAGIC, 8), Encode(size, 8), Encode(actual, 8));
    TailWritten(m3, raw, tag[..len] + [0], offset, Encode(offset, 4), Zeros(size));
    TagFrom(WriteBlock(m, raw, size, actual, offset, tag), raw, tag, len);
  }

  /** The three numeric fields, written in the code's order. */
  lemma NumbersWritten(m: Bytes, raw: int, magic: seq<nat>, size: seq<nat>, actual: seq<nat>) returns (m3: Bytes)
    requires |magic| == 8 && |size| == 8 && |actual| == 8
    ensures m3 == Store(Store(Store(m, raw + 16, magic), raw, size), raw + 8, actual)
    ensures Load(m3, raw, 8) == size && Load(m3, raw + 8, 8) == actual && Load(m3, raw + 16, 8) == magic
  {
    var m1 := Store(m, raw + 16, magic);
    var m2 := Store(m1, raw, size);
    m3 := Store(m2, raw + 8, actual);
    LoadStore(m, raw + 16, magic);
    LoadStore(m1, raw, size);
    LoadStore(m2, raw + 8, actual);
    LoadApart(m1, raw, size, raw + 16, 8);
    LoadApart(m2, raw + 8, actual, raw + 16, 8);
    LoadApart(m2, raw + 8, actual, raw, 8);
  }

  /** Tag, footer and user bytes, written behind the numeric fields. */
  lemma TailWritten(m3: Bytes, raw: int, t: seq<nat>, offset: nat, footer: seq<nat>, zeros: seq<nat>)
    requires offset >= HEADER_SIZE + FOOTER_SIZE && |footer| == 4 && |t| <= 32
    ensures var m6 := Store(Store(Store(m3, raw + 24, t), raw + offset - 4, footer), raw + offset, zeros);
            Load(m6, raw + offset, |zeros|) == zeros && Load(m6, raw + 24, |t|) == t &&
            Load(m6, raw, 8) == Load(m3, raw, 8) && Load(m6, raw + 8, 8) == Load(m3, raw + 8, 8) &&
            Load(m6, raw + 16, 8) == Load(m3, raw + 16, 8) && Load(m6, raw + offset - 4, 4) == footer
  {
    var m4 := Store(m3, raw + 24, t);
    var m5 := Store(m4, raw + offset - 4, footer);
    LaterStores(m3, m4, raw + 24, t, raw);
    LaterStores(m4, m5, raw + offset - 4, footer, raw);
    LaterStores(m5, Store(m5, raw + offset, zeros), raw + offset, zeros, raw);
    LoadStore(m4, raw + offset - 4, footer);
    LoadApart(m5, raw + offset, zeros, raw + offset - 4, 4);
    LoadStore(m5, raw + offset, zeros);
    LoadStore(m3, raw + 24, t);
    LoadApart(m4, raw + offset - 4, footer, raw + 24, |t|);
    LoadApart(m5, raw + offset, zeros, raw + 24, |t|);
  }

  /** A store at or behind byte 24 leaves the three numeric fields alone. */
  lemma LaterStores(m: Bytes, m': Bytes, a: int, s: seq<nat>, raw: int)
    requires m' == Store(m, a, s) && a >= raw + 24
    ensures Load(m', raw, 8) == Load(m, raw, 8) && Load(m', raw + 8, 8) == Load(m, raw + 8, 8)
    ensures Load(m', raw + 16, 8) == Load(m, raw + 16, 8)
  {
    LoadApart(m, a, s, raw, 8);
    LoadApart(m, a, s, raw + 8, 8);
    LoadApart(m, a, s, raw + 16, 8);
  }

  /** `WriteBlock` stays inside the block. */
  lemma WriteBlockInside(m: Bytes, raw: int, size: nat, actual: nat, offset: nat, tag: seq<nat>, x: int)
    requires Fields(size, actual, offset) && !(raw <= x < raw + actual)
    ensures Get(WriteBlock(m, raw, size, actual, offset, tag), x) == Get(m, x)
  {
    var len := if |tag| < 31 then |tag| else 31;
    var t := tag[..len] + [0];
    var m1 := Store(m, raw + 16, Encode(MAGIC, 8));
    var m2 := Store(m1, raw, Encode(size, 8));
    var m3 := Store(m2, raw + 8, Encode(actual, 8));
    var m4 := Store(m3, raw + 24, t);
    var m5 := Store(m4, raw + offset - 4, Encode(offset, 4));
    StoreFrame(m, raw + 16, Encode(MAGIC, 8), x);
    StoreFrame(m1, raw, Encode(size, 8), x);
    StoreFrame(m2, raw + 8, Encode(actual, 8), x);
    StoreFrame(m3, raw + 24, t, x);
    StoreFrame(m4, raw + offset - 4, Encode(offset, 4), x);
    StoreFrame(m5, raw + offset, Zeros(size), x);
  }

  lemma HeaderFrame(m: Bytes, m': Bytes, raw: int, size: nat, actual: nat, offset: nat)
    requires HeaderOk(m, raw, size, actual, offset) && SameBytes(m, m', raw, raw + offset)
    ensures HeaderOk(m', raw, size, actual, offset)
  {
    LoadSame(m, m', raw, 8);
    LoadSame(m, m', raw + 8, 8);
    LoadSame(m, m', raw + 16, 8);
    LoadSame(m, m', raw + offset - 4, 4);
  }

  /** The user pointer alone leads back to the block and its size. */
  lemma ReadBackExact(m: Bytes, raw: int, size: nat, actual: nat, offset: nat)
    requires HeaderOk(m, raw, size, actual, offset)
    ensures ReadBack(m, raw + offset) == Found(raw, actual)
  {
    FieldFits();
    EncodeDecode(offset, 4);
    EncodeDecode(MAGIC, 8);
    EncodeDecode(actual, 8);
  }

  lemma FieldFits()
    ensures Power256(4) == 0x1_0000_0000 && Power256(8) == 0x1_0000_0000_0000_0000
  {
    assert Power256(0) == 1 && Power256(1) == 256 && Power256(2) == 0x1_0000;
    assert Power256(3) == 0x100_0000;
    assert Power256(4) == 0x1_0000_0000;
    assert Power256(5) == 0x100_0000_0000 && Power256(6) == 0x1_0000_0000_0000;
    assert Power256(7) == 0x100_0000_0000_0000;
  }

  /** After the magic is cleared, a second free of the same pointer finds nothing. */
  lemma ClearedNotFound(m: Bytes, raw: int, size: nat, actual: nat, offset: nat)
    requires HeaderOk(m, raw, size, actual, offset)
    ensures ReadBack(Store(m, raw + 16, Encode(0, 8)), raw + offset) == NotFound
  {
    FieldFits();
    EncodeDecode(0, 8);
    MagicReplaced(m, raw, offset, Encode(0, 8));
  }

  lemma MagicReplaced(m: Bytes, raw: int, offset: nat, z: seq<nat>)
    requires |z| == 8 && Decode(z) != MAGIC && HEADER_SIZE + FOOTER_SIZE <= offset < 0x1_0000_0000
    requires Load(m, raw + offset - 4, 4) == Encode(offset, 4)
    ensures ReadBack(Store(m, raw + 16, z), raw + offset) == NotFound
  {
    LoadApart(m, raw + 16, z, raw + offset - 4, 4);
    LoadStore(m, raw + 16, z);
    FieldFits();
    EncodeDecode(offset, 4);
  }
}
