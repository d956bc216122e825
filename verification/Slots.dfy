/**
  What a slot of a heap holds, and the shift and mask expressions of digit1 to
  digit9 that read it.

  A slot is a row of 4-byte units. After round r its first units end in the last
  HashSize(r) bytes of the tree's hash, and the unit after them holds the tree tag.
*/
module Slots {
  import opened Arith
  import opened HashBits
  import opened Wagner
  import opened Layers

  /** One unit of memory, seen as bytes in address order. */
  datatype HtUnit = HtUnit(b0: Byte, b1: Byte, b2: Byte, b3: Byte)

  type Slot = seq<HtUnit>

  function UnitByte(u: HtUnit, k: nat): Byte
    requires k < 4
  {
    match k
    case 0 => u.b0
    case 1 => u.b1
    case 2 => u.b2
    case 3 => u.b3
  }

  function WithByte(u: HtUnit, k: nat, b: Byte): HtUnit
    requires k < 4
  {
    match k
    case 0 => u.(b0 := b)
    case 1 => u.(b1 := b)
    case 2 => u.(b2 := b)
    case 3 => u.(b3 := b)
  }

  /** The same memory seen as a 32-bit word on a little-endian host. */
  function Word(u: HtUnit): (w: nat)
    ensures w < U32
  {
    u.b0 + 256 * u.b1 + 65536 * u.b2 + 16777216 * u.b3
  }

  function WordUnit(w: nat): (u: HtUnit)
    requires w < U32
    ensures Word(u) == w
  {
    var u := HtUnit(w % 256, w / 256 % 256, w / 65536 % 256, w / 16777216);
    WordBytes(w);
    u
  }

  lemma WordBytes(w: nat)
    ensures w == w % 256 + 256 * (w / 256 % 256) + 65536 * (w / 65536 % 256) + 16777216 * (w / 16777216)
  {
    DivDiv(w, 256, 256);
    DivDiv(w, 65536, 256);
    DivMod(w, 256);
    DivMod(w / 256, 256);
    DivMod(w / 65536, 256);
  }

  /** Words are xored byte by byte. */
  function XorUnit(u: HtUnit, v: HtUnit): HtUnit
  {
    HtUnit(XorByte(u.b0, v.b0), XorByte(u.b1, v.b1), XorByte(u.b2, v.b2), XorByte(u.b3, v.b3))
  }

  function SlotByte(s: Slot, k: nat): Byte
    requires k < 4 * |s|
  {
    UnitByte(s[k / 4], k % 4)
  }

  /** hashsize(r): the bytes of the hash kept after round r. */
  function HashSize(r: nat): nat
    requires r <= WK
  {
    match r
    case 0 => 26
    case 1 => 23
    case 2 => 20
    case 3 => 18
    case 4 => 15
    case 5 => 13
    case 6 => 10
    case 7 => 7
    case 8 => 5
    case 9 => 0
  }

  /** hashwords: bytes rounded up to units. */
  function HashWords(bytes: nat): nat
  {
    (bytes + 3) / 4
  }

  /** The unit where the tag of a tree of height r lies. */
  function TagUnit(r: nat): nat
    requires r <= WK
  {
    HashWords(HashSize(r))
  }

  /** Slots of heap 0 have 8 units, slots of heap 1 have 7. */
  function SlotUnits(heap: nat): nat
  {
    if heap == 0 then 8 else 7
  }

  /** prevbo: where in a slot of round r - 1 the kept bytes begin. */
  function PrevBo(r: nat): nat
    requires 1 <= r <= WK
  {
    4 * TagUnit(r - 1) - HashSize(r - 1)
  }

  /** dunits: by how many units the hash shrinks in round r. */
  function DUnits(r: nat): nat
    requires 1 <= r <= WK
  {
    TagUnit(r - 1) - TagUnit(r)
  }

  /**
    What a slot keeps after round r begins with the byte of the first rest bit of digit r, the hash ends
    right before the tag, and the units it takes are as few as hold it.
  */
  lemma KeptBytesExact(r: nat)
    requires r < WK
    ensures HashSize(r) == 27 - (21 * r + 14) / 8
    ensures 4 * TagUnit(r) - 4 < HashSize(r) <= 4 * TagUnit(r)
    ensures PrevBo(r + 1) == 4 * TagUnit(r) - HashSize(r) && TagUnit(r) == DUnits(r + 1) + TagUnit(r + 1)
  {
  }

  /** Each reuse of a heap puts its tag strictly below the tags that are still needed. */
  lemma TagUnitsFall(r: nat, q: nat)
    requires r <= WK && q < r && q % 2 == r % 2
    ensures TagUnit(r) < TagUnit(q) < SlotUnits(q % 2)
  {
  }

  lemma TagUnitFits(r: nat)
    requires r < WK
    ensures 1 < TagUnit(r) < SlotUnits(r % 2) && HashSize(r) <= 4 * TagUnit(r) <= 28
  {
  }

  /** The kept bytes of x, its last HashSize(r) ones, end right before the tag unit. */
  predicate Holds(s: Slot, r: nat, x: Hash)
    requires r < WK
  {
    && TagUnit(r) < |s|
    && forall k :: 4 * TagUnit(r) - HashSize(r) <= k < 4 * TagUnit(r) ==>
         SlotByte(s, k) == x[HASHLEN - 4 * TagUnit(r) + k]
  }

  // ---------- rest bits ----------

  /** xhash0 and xhash1: the rest bits of digit r - 1, as round r extracts them. */
  function XHash(r: nat, s: Slot): nat
    requires 1 <= r <= WK && TagUnit(r - 1) < |s|
  {
    var o := PrevBo(r);
    match r
    case 1 => SlotByte(s, o) % 0x4 * 32 + SlotByte(s, o + 1) / 8
    case 2 => SlotByte(s, o) % 0x20 * 4 + SlotByte(s, o + 1) / 64
    case 3 => SlotByte(s, o) / 2
    case 4 => SlotByte(s, o) % 0x8 * 16 + SlotByte(s, o + 1) / 16
    case 5 => SlotByte(s, o) % 0x40 * 2 + SlotByte(s, o + 1) / 128
    case 6 => SlotByte(s, o) % 0x2 * 64 + SlotByte(s, o + 1) / 4
    case 7 => SlotByte(s, o) % 0x10 * 8 + SlotByte(s, o + 1) / 32
    case 8 => SlotByte(s, o) % 0x80
    case 9 => SlotByte(s, o) % 0x4 * 32 + SlotByte(s, o + 1) / 8
  }

  /** A byte of the slot, xored with the same byte of the other slot. */
  function XByte(s0: Slot, s1: Slot, k: nat): Byte
    requires k < 4 * |s0| && k < 4 * |s1|
  {
    XorByte(SlotByte(s0, k), SlotByte(s1, k))
  }

  /** xorbucketid: the bucket bits of digit r of the xor, as round r extracts them. */
  function XorBucket(r: nat, s0: Slot, s1: Slot): nat
    requires 1 <= r < WK && TagUnit(r - 1) < |s0| && TagUnit(r - 1) < |s1|
  {
    var o := PrevBo(r);
    match r
    case 1 => (XByte(s0, s1, o + 1) % 0x8 * 256 + XByte(s0, s1, o + 2)) * 8 + XByte(s0, s1, o + 3) / 32
    case 2 => XByte(s0, s1, o + 1) % 0x40 * 256 + XByte(s0, s1, o + 2)
    case 3 => (XByte(s0, s1, o) % 0x2 * 256 + XByte(s0, s1, o + 1)) * 32 + XByte(s0, s1, o + 2) / 8
    case 4 => (XByte(s0, s1, o + 1) % 0x10 * 256 + XByte(s0, s1, o + 2)) * 4 + XByte(s0, s1, o + 3) / 64
    case 5 => XByte(s0, s1, o + 1) % 0x80 * 128 + XByte(s0, s1, o + 2) / 2
    case 6 => (XByte(s0, s1, o + 1) % 0x4 * 256 + XByte(s0, s1, o + 2)) * 16 + XByte(s0, s1, o + 3) / 16
    case 7 => (XByte(s0, s1, o + 1) % 0x20 * 256 + XByte(s0, s1, o + 2)) * 2 + XByte(s0, s1, o + 3) / 128
    case 8 => XByte(s0, s1, o + 1) as nat * 64 + XByte(s0, s1, o + 2) / 4
  }

  /** A field made of the a low bits of byte i and the b high bits of byte i + 1. */
  lemma TwoBytes(x: Hash, i: nat, a: nat, b: nat, mask: nat, up: nat, down: nat)
    requires i + 1 < HASHLEN && a <= 8 && b <= 8
    requires mask == Pow2(a) && up == Pow2(b) && down == Pow2(8 - b)
    ensures Field(x, 8 * i + 8 - a, a + b) == x[i] % mask * up + x[i + 1] / down
  {
    hide Field;
    hide Pow2;
    FieldSplit(x, 8 * i + 8 - a, a, b);
    FieldLow(x, i, a);
    FieldHigh(x, i + 1, b);
  }

  /** The a low bits of byte i, byte i + 1, and the b high bits of byte i + 2. */
  lemma ThreeBytes(x: Hash, i: nat, a: nat, b: nat, mask: nat, up: nat, down: nat)
    requires i + 2 < HASHLEN && a <= 8 && b <= 8
    requires mask == Pow2(a) && up == Pow2(b) && down == Pow2(8 - b)
    ensures Field(x, 8 * i + 8 - a, a + 8 + b) == (x[i] % mask * 256 + x[i + 1]) * up + x[i + 2] / down
  {
    Pow2Table();
    hide Field;
    hide Pow2;
    FieldSplit(x, 8 * i + 8 - a, a + 8, b);
    TwoBytes(x, i, a, 8, mask, 256, 1);
    FieldHigh(x, i + 2, b);
  }

  /** Byte k of a slot, when it lies among the kept ones. */
  lemma KeptByte(s: Slot, r: nat, x: Hash, j: nat)
    requires 1 <= r <= WK && Holds(s, r - 1, x) && j < HashSize(r - 1)
    ensures SlotByte(s, PrevBo(r) + j) == x[HASHLEN - HashSize(r - 1) + j]
  {
  }

  /** The extracted rest bits are bits 21(r-1)+14 to 21r of the stored hash. */
  lemma XHashReads(r: nat, s: Slot, x: Hash)
    requires 1 <= r <= WK && Holds(s, r - 1, x)
    ensures XHash(r, s) == RestOf(x, r - 1) == Field(x, 21 * (r - 1) + 14, 7)
  {
    hide Field;
    hide Holds;
    hide SlotByte;
    KeptByte(s, r, x, 0);
    KeptByte(s, r, x, 1);
    RestBytes(x, r);
  }

  lemma RestBytes(x: Hash, r: nat)
    requires 1 <= r <= WK
    ensures var i := HASHLEN - HashSize(r - 1);
            RestOf(x, r - 1) ==
              match r
              case 1 => x[i] % 0x4 * 32 + x[i + 1] / 8
              case 2 => x[i] % 0x20 * 4 + x[i + 1] / 64
              case 3 => x[i] / 2
              case 4 => x[i] % 0x8 * 16 + x[i + 1] / 16
              case 5 => x[i] % 0x40 * 2 + x[i + 1] / 128
              case 6 => x[i] % 0x2 * 64 + x[i + 1] / 4
              case 7 => x[i] % 0x10 * 8 + x[i + 1] / 32
              case 8 => x[i] % 0x80
              case 9 => x[i] % 0x4 * 32 + x[i + 1] / 8
  {
    hide Field;
    Pow2Table();
    hide Pow2;
    match r
    case 1 => TwoBytes(x, 1, 2, 5, 4, 32, 8);
    case 2 => TwoBytes(x, 4, 5, 2, 32, 4, 64);
    case 3 => FieldHigh(x, 7, 7);
    case 4 => TwoBytes(x, 9, 3, 4, 8, 16, 16);
    case 5 => TwoBytes(x, 12, 6, 1, 64, 2, 128);
    case 6 => TwoBytes(x, 14, 1, 6, 2, 64, 4);
    case 7 => TwoBytes(x, 17, 4, 3, 16, 8, 32);
    case 8 => FieldLow(x, 20, 7);
    case 9 => TwoBytes(x, 22, 2, 5, 4, 32, 8);
  }

  /** The extracted bucket bits are bits 21r to 21r+14 of the xor of the stored hashes. */
  lemma XorBucketReads(r: nat, s0: Slot, s1: Slot, x: Hash, y: Hash)
    requires 1 <= r < WK && Holds(s0, r - 1, x) && Holds(s1, r - 1, y)
    ensures XorBucket(r, s0, s1) == BucketOf(XorHash(x, y), r) == Field(XorHash(x, y), 21 * r, 14)
  {
    hide Field;
    hide Holds;
    hide SlotByte;
    BucketBits(XorHash(x, y), r);
    hide BucketOf;
    XorKept(s0, s1, r, x, y, 0);
    XorKept(s0, s1, r, x, y, 1);
    XorKept(s0, s1, r, x, y, 2);
    XorKept(s0, s1, r, x, y, 3);
    BucketBytes(XorHash(x, y), r);
  }

  lemma BucketBits(x: Hash, r: nat)
    requires r <= WK
    ensures BucketOf(x, r) == Field(x, 21 * r, 14)
  {
    hide Field;
  }

  lemma XorKept(s0: Slot, s1: Slot, r: nat, x: Hash, y: Hash, j: nat)
    requires 1 <= r <= WK && Holds(s0, r - 1, x) && Holds(s1, r - 1, y) && j < HashSize(r - 1)
    ensures XByte(s0, s1, PrevBo(r) + j) == XorHash(x, y)[HASHLEN - HashSize(r - 1) + j]
  {
    KeptByte(s0, r, x, j);
    KeptByte(s1, r, y, j);
  }

  /** The bytes of z that hold the bucket bits of digit r. */
  function BucketFrom(z: Hash, r: nat): nat
    requires 1 <= r < WK
  {
    var i := HASHLEN - HashSize(r - 1);
    match r
    case 1 => (z[i + 1] % 0x8 * 256 + z[i + 2]) * 8 + z[i + 3] / 32
    case 2 => z[i + 1] % 0x40 * 256 + z[i + 2]
    case 3 => (z[i] % 0x2 * 256 + z[i + 1]) * 32 + z[i + 2] / 8
    case 4 => (z[i + 1] % 0x10 * 256 + z[i + 2]) * 4 + z[i + 3] / 64
    case 5 => z[i + 1] % 0x80 * 128 + z[i + 2] / 2
    case 6 => (z[i + 1] % 0x4 * 256 + z[i + 2]) * 16 + z[i + 3] / 16
    case 7 => (z[i + 1] % 0x20 * 256 + z[i + 2]) * 2 + z[i + 3] / 128
    case 8 => z[i + 1] as nat * 64 + z[i + 2] / 4
  }

  lemma BucketBytes(z: Hash, r: nat)
    requires 1 <= r < WK
    ensures BucketOf(z, r) == BucketFrom(z, r)
  {
    if r % 2 == 1 {
      BucketBytesOdd(z, r);
    } else {
      BucketBytesEven(z, r);
    }
  }

  lemma BucketBytesOdd(z: Hash, r: nat)
    requires 1 <= r < WK && r % 2 == 1
    ensures BucketOf(z, r) == BucketFrom(z, r)
  {
    hide Field;
    Pow2Table();
    hide Pow2;
    match r
    case 1 => ThreeBytes(z, 2, 3, 3, 8, 8, 32);
    case 3 => ThreeBytes(z, 7, 1, 5, 2, 32, 8);
    case 5 => TwoBytes(z, 13, 7, 7, 128, 128, 2);
    case 7 => ThreeBytes(z, 18, 5, 1, 32, 2, 128);
  }

  lemma BucketBytesEven(z: Hash, r: nat)
    requires 1 <= r < WK && r % 2 == 0
    ensures BucketOf(z, r) == BucketFrom(z, r)
  {
    hide Field;
    Pow2Table();
    hide Pow2;
    match r
    case 2 => TwoBytes(z, 5, 6, 8, 64, 256, 1);
    case 4 => ThreeBytes(z, 10, 4, 2, 16, 4, 64);
    case 6 => ThreeBytes(z, 15, 2, 4, 4, 16, 16);
    case 8 => TwoBytes(z, 21, 8, 6, 256, 64, 4);
  }

  // ---------- the tests on two slots ----------

  /** equal: the last hash unit of the two slots is the same. */
  predicate EqualLast(r: nat, s0: Slot, s1: Slot)
    requires 1 <= r < WK && TagUnit(r - 1) < |s0| && TagUnit(r - 1) < |s1|
  {
    Word(s0[TagUnit(r - 1) - 1]) == Word(s1[TagUnit(r - 1) - 1])
  }

  lemma WordInjective(u: HtUnit, v: HtUnit)
    requires Word(u) == Word(v)
    ensures u == v
  {
    hide Word;
    WordParts(u);
    WordParts(v);
  }

  lemma WordParts(u: HtUnit)
    ensures u == HtUnit(Word(u) % 256, Word(u) / 256 % 256, Word(u) / 65536 % 256, Word(u) / 16777216)
  {
    var w := Word(u);
    var w1, w2: nat := u.b1 as nat + 256 * u.b2 + 65536 * u.b3, u.b2 as nat + 256 * u.b3;
    DivUnique(w, 256, w1, u.b0);
    DivUnique(w1, 256, w2, u.b1);
    DivUnique(w2, 256, u.b3, u.b2);
    DivDiv(w, 256, 256);
    DivDiv(w, 65536, 256);
  }

  lemma EqualLastReads(r: nat, s0: Slot, s1: Slot, x: Hash, y: Hash)
    requires 1 <= r < WK && Holds(s0, r - 1, x) && Holds(s1, r - 1, y)
    ensures EqualLast(r, s0, s1) <==> Field(x, 184, 32) == Field(y, 184, 32)
  {
    hide Field;
    LastWordBits(x, y);
    LastUnit(r, s0, x);
    LastUnit(r, s1, y);
    if EqualLast(r, s0, s1) {
      WordInjective(s0[TagUnit(r - 1) - 1], s1[TagUnit(r - 1) - 1]);
    }
  }

  lemma LastUnit(r: nat, s: Slot, x: Hash)
    requires 1 <= r < WK && Holds(s, r - 1, x)
    ensures s[TagUnit(r - 1) - 1] == HtUnit(x[23], x[24], x[25], x[26])
  {
    var k := 4 * TagUnit(r - 1) - 4;
    assert SlotByte(s, k) == x[23] && SlotByte(s, k + 1) == x[24];
    assert SlotByte(s, k + 2) == x[25] && SlotByte(s, k + 3) == x[26];
  }

  /** The test of digit9: the last 21 bits agree. */
  predicate LastDigitEqual(s0: Slot, s1: Slot)
    requires TagUnit(8) < |s0| && TagUnit(8) < |s1|
  {
    var o := PrevBo(9);
    && SlotByte(s0, o + 1) % 0x8 == SlotByte(s1, o + 1) % 0x8
    && SlotByte(s0, o + 2) == SlotByte(s1, o + 2)
    && SlotByte(s0, o + 3) == SlotByte(s1, o + 3)
    && SlotByte(s0, o + 4) / 64 == SlotByte(s1, o + 4) / 64
  }

  lemma LastDigitReads(s0: Slot, s1: Slot, x: Hash, y: Hash)
    requires Holds(s0, 8, x) && Holds(s1, 8, y)
    ensures LastDigitEqual(s0, s1) <==> Field(XorHash(x, y), DIGITBITS * WK, DIGITBITS) == 0
  {
    hide Field;
    hide Holds;
    hide SlotByte;
    hide XorHash;
    KeptBytes(s0, x);
    KeptBytes(s1, y);
    XorFieldZero(x, y, DIGITBITS * WK, DIGITBITS);
    LastDigitBytes(x);
    LastDigitBytes(y);
    SameParts(x[23] % 8, x[24], x[25], x[26] / 64, y[23] % 8, y[24], y[25], y[26] / 64);
  }

  /** Four digits in the bases 256, 256 and 4. */
  lemma SameParts(a: nat, b: nat, c: nat, d: nat, a': nat, b': nat, c': nat, d': nat)
    requires b < 256 && b' < 256 && c < 256 && c' < 256 && d < 4 && d' < 4
    ensures ((a * 256 + b) * 256 + c) * 4 + d == ((a' * 256 + b') * 256 + c') * 4 + d' <==>
            a == a' && b == b' && c == c' && d == d'
  {
  }

  lemma KeptBytes(s: Slot, x: Hash)
    requires Holds(s, 8, x)
    ensures TagUnit(8) < |s|
    ensures SlotByte(s, PrevBo(9) + 1) == x[23] && SlotByte(s, PrevBo(9) + 2) == x[24]
    ensures SlotByte(s, PrevBo(9) + 3) == x[25] && SlotByte(s, PrevBo(9) + 4) == x[26]
  {
    KeptByte(s, 9, x, 1);
    KeptByte(s, 9, x, 2);
    KeptByte(s, 9, x, 3);
    KeptByte(s, 9, x, 4);
  }

  lemma LastDigitBytes(x: Hash)
    ensures Field(x, DIGITBITS * WK, DIGITBITS) == ((x[23] as nat % 8 * 256 + x[24]) * 256 + x[25]) * 4 + x[26] / 64
  {
    hide Field;
    Pow2Table();
    hide Pow2;
    FieldSplit(x, 189, 19, 2);
    ThreeBytes(x, 23, 3, 8, 8, 256, 1);
    FieldHigh(x, 26, 2);
  }

  // ---------- storing a tree ----------

  /**
    after is before with the xor of the two slots, less the units that cancelled,
    written to its front and the tag word right behind; the units above stay.
  */
  predicate Combined(r: nat, before: Slot, after: Slot, s0: Slot, s1: Slot, tag: nat)
    requires 1 <= r < WK && TagUnit(r - 1) < |s0| && TagUnit(r - 1) < |s1|
  {
    && TagUnit(r) < |after| == |before|
    && (forall i :: 0 <= i < TagUnit(r) ==> after[i] == XorUnit(s0[DUnits(r) + i], s1[DUnits(r) + i]))
    && Word(after[TagUnit(r)]) == tag
    && forall i :: TagUnit(r) < i < |after| ==> after[i] == before[i]
  }

  lemma SizesFall(r: nat)
    requires 1 <= r < WK
    ensures TagUnit(r) <= TagUnit(r - 1) && HashSize(r) <= HashSize(r - 1) < HASHLEN
  {
  }

  /** The stored slot holds the xor of the hashes the two slots held. */
  lemma CombinedHolds(r: nat, before: Slot, after: Slot, s0: Slot, s1: Slot, tag: nat, x: Hash, y: Hash)
    requires 1 <= r < WK && Holds(s0, r - 1, x) && Holds(s1, r - 1, y)
    requires Combined(r, before, after, s0, s1, tag)
    ensures Holds(after, r, XorHash(x, y))
  {
    hide XorHash;
    hide HashSize;
    hide TagUnit;
    hide SlotByte;
    TagUnitFits(r);
    SizesFall(r);
    forall k | 4 * TagUnit(r) - HashSize(r) <= k < 4 * TagUnit(r)
      ensures SlotByte(after, k) == XorHash(x, y)[HASHLEN - 4 * TagUnit(r) + k]
    {
      CombinedByte(r, before, after, s0, s1, tag, k);
      HeldByte(r, s0, x, k);
      HeldByte(r, s1, y, k);
    }
  }

  /** Byte k of the stored slot is the xor of the bytes DUnits(r) units further on. */
  lemma CombinedByte(r: nat, before: Slot, after: Slot, s0: Slot, s1: Slot, tag: nat, k: nat)
    requires 1 <= r < WK && TagUnit(r - 1) < |s0| && TagUnit(r - 1) < |s1| && k < 4 * TagUnit(r)
    requires Combined(r, before, after, s0, s1, tag)
    ensures 4 * DUnits(r) + k < 4 * TagUnit(r - 1)
    ensures SlotByte(after, k) ==
            XorByte(SlotByte(s0, 4 * DUnits(r) + k), SlotByte(s1, 4 * DUnits(r) + k))
  {
    hide XorByte;
    hide TagUnit;
    SizesFall(r);
    assert (4 * DUnits(r) + k) / 4 == DUnits(r) + k / 4 && (4 * DUnits(r) + k) % 4 == k % 4;
  }

  lemma HeldByte(r: nat, s: Slot, x: Hash, k: nat)
    requires 1 <= r < WK && Holds(s, r - 1, x) && 4 * TagUnit(r) - HashSize(r) <= k < 4 * TagUnit(r)
    ensures 4 * DUnits(r) + k < 4 * |s| && HashSize(r) <= 4 * TagUnit(r) <= 28
    ensures SlotByte(s, 4 * DUnits(r) + k) == x[HASHLEN - 4 * TagUnit(r) + k]
  {
    hide HashSize;
    hide TagUnit;
    hide SlotByte;
    TagUnitFits(r);
    TagUnitFits(r - 1);
    SizesFall(r);
  }
}
