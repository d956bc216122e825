/**
  The 27-byte hash of one index, its bits numbered from the most significant bit
  of byte 0, and the big-endian number held in a range of bits.

  Of the 216 bits the first 210 matter; they are read as ten digits of 21 bits.
  A digit is split into 14 bucket bits followed by 7 rest bits.
*/
module HashBits {
  import opened Arith

  const HASHLEN: nat := 27
  const HASHBITS: nat := 8 * HASHLEN
  const DIGITBITS: nat := 21
  const BUCKBITS: nat := 14
  const RESTBITS: nat := 7

  /** Buckets by the bucket bits, lists by the rest bits, and the slots that a bucket has room for. */
  const NBUCKETS: nat := 16384
  const NRESTS: nat := 128
  const NSLOTS: nat := 512

  type Hash = s: seq<Byte> | |s| == 27 witness seq(27, _ => 0)

  /** The hash function of one header and nonce: every index has a 27-byte hash. */
  type IndexHash = nat -> Hash

  predicate Bit(h: Hash, i: nat)
    requires i < HASHBITS
  {
    BitAt(h[i / 8], 7 - i % 8)
  }

  /** The n bits that start at bit lo, read as a big-endian number. */
  function Field(h: Hash, lo: nat, n: nat): nat
    requires lo + n <= HASHBITS
    decreases n
  {
    if n == 0 then 0 else 2 * Field(h, lo, n - 1) + (if Bit(h, lo + n - 1) then 1 else 0)
  }

  /** The first n bits are all zero. */
  predicate ZeroPrefix(h: Hash, n: nat)
    requires n <= HASHBITS
  {
    forall i :: 0 <= i < n ==> !Bit(h, i)
  }

  function XorHash(a: Hash, b: Hash): (r: Hash)
    ensures forall i :: 0 <= i < HASHLEN ==> r[i] == XorByte(a[i], b[i])
  {
    seq(HASHLEN, i requires 0 <= i < HASHLEN => XorByte(a[i], b[i]))
  }

  const ZERO_HASH: Hash := seq(HASHLEN, _ => 0)

  lemma XorHashComm(a: Hash, b: Hash)
    ensures XorHash(a, b) == XorHash(b, a)
  {
    forall i | 0 <= i < HASHLEN
      ensures XorHash(a, b)[i] == XorHash(b, a)[i]
    {
      XorComm(a[i], b[i]);
    }
  }

  lemma XorHashAssoc(a: Hash, b: Hash, c: Hash)
    ensures XorHash(XorHash(a, b), c) == XorHash(a, XorHash(b, c))
  {
    forall i | 0 <= i < HASHLEN
      ensures XorHash(XorHash(a, b), c)[i] == XorHash(a, XorHash(b, c))[i]
    {
      XorAssoc(a[i], b[i], c[i]);
    }
  }

  lemma XorHashIdentity(a: Hash)
    ensures XorHash(ZERO_HASH, a) == a
  {
    forall i | 0 <= i < HASHLEN
      ensures XorHash(ZERO_HASH, a)[i] == a[i]
    {
      XorIdentity(a[i]);
    }
  }

  lemma XorHashBit(a: Hash, b: Hash, i: nat)
    requires i < HASHBITS
    ensures Bit(XorHash(a, b), i) == (Bit(a, i) != Bit(b, i))
  {
    XorBit(a[i / 8], b[i / 8], 7 - i % 8);
  }

  /** A field of a xor b is zero exactly when a and b agree on that field. */
  lemma {:induction false} XorFieldZero(a: Hash, b: Hash, lo: nat, n: nat)
    requires lo + n <= HASHBITS
    ensures Field(XorHash(a, b), lo, n) == 0 <==> Field(a, lo, n) == Field(b, lo, n)
    decreases n
  {
    hide Bit;
    hide XorHash;
    if n == 0 {
    } else {
      XorFieldZero(a, b, lo, n - 1);
      XorHashBit(a, b, lo + n - 1);
    }
  }

  lemma {:induction false} FieldZeroBits(h: Hash, lo: nat, n: nat)
    requires lo + n <= HASHBITS
    ensures Field(h, lo, n) == 0 <==> forall i :: lo <= i < lo + n ==> !Bit(h, i)
    decreases n
  {
    if n == 0 {
    } else {
      FieldZeroBits(h, lo, n - 1);
      assert Field(h, lo, n) == 0 <==> Field(h, lo, n - 1) == 0 && !Bit(h, lo + n - 1);
    }
  }

  lemma ZeroPrefixExtend(h: Hash, lo: nat, n: nat)
    requires lo + n <= HASHBITS
    ensures ZeroPrefix(h, lo + n) <==> ZeroPrefix(h, lo) && Field(h, lo, n) == 0
  {
    FieldZeroBits(h, lo, n);
  }

  lemma XorZeroPrefix(a: Hash, b: Hash, n: nat)
    requires n <= HASHBITS && ZeroPrefix(a, n) && ZeroPrefix(b, n)
    ensures ZeroPrefix(XorHash(a, b), n)
  {
    forall i | 0 <= i < n
      ensures !Bit(XorHash(a, b), i)
    {
      XorHashBit(a, b, i);
    }
  }

  lemma {:induction false} FieldBound(h: Hash, lo: nat, n: nat)
    requires lo + n <= HASHBITS
    ensures Field(h, lo, n) < Pow2(n)
    decreases n
  {
    if n == 0 {
    } else {
      FieldBound(h, lo, n - 1);
    }
  }

  lemma FieldStep(h: Hash, lo: nat, n: nat)
    requires 0 < n && lo + n <= HASHBITS
    ensures Field(h, lo, n) == 2 * Field(h, lo, n - 1) + (if Bit(h, lo + n - 1) then 1 else 0)
  {
    hide Bit;
  }

  /** A field splits into a high part and a low part. */
  lemma {:induction false} FieldSplit(h: Hash, lo: nat, n: nat, m: nat)
    requires lo + n + m <= HASHBITS
    ensures Field(h, lo, n + m) == Field(h, lo, n) * Pow2(m) + Field(h, lo + n, m)
    decreases m
  {
    hide Bit;
    if m == 0 {
    } else {
      FieldSplit(h, lo, n, m - 1);
      FieldStep(h, lo, n + m);
      FieldStep(h, lo + n, m);
      hide *;
      SplitStep(Field(h, lo, n), Pow2(m - 1), Field(h, lo + n, m - 1), if Bit(h, lo + n + m - 1) then 1 else 0);
      Pow2Step(m);
    }
  }

  lemma SplitStep(f: nat, p: nat, g: nat, b: nat)
    ensures 2 * (f * p + g) + b == f * (2 * p) + (2 * g + b)
  {
    MulDouble(f, p);
  }

  lemma Pow2Step(m: nat)
    requires m > 0
    ensures Pow2(m) == 2 * Pow2(m - 1)
  {
  }

  /** The n high bits of byte i are that byte shifted right by 8 - n. */
  lemma {:induction false} FieldHigh(h: Hash, i: nat, n: nat)
    requires i < HASHLEN && n <= 8
    ensures Field(h, 8 * i, n) == h[i] / Pow2(8 - n)
  {
    if n == 0 {
      Pow2Table();
    } else {
      FieldHigh(h, i, n - 1);
      ShiftStep(h[i], 8 - n);
      assert (8 * i + n - 1) / 8 == i && (8 * i + n - 1) % 8 == n - 1;
    }
  }

  /** The n low bits of byte i are that byte masked by 2^n - 1. */
  lemma FieldLow(h: Hash, i: nat, n: nat)
    requires i < HASHLEN && n <= 8
    ensures Field(h, 8 * i + 8 - n, n) == h[i] % Pow2(n)
  {
    hide Field;
    hide Pow2;
    FieldSplit(h, 8 * i, 8 - n, n);
    FieldHigh(h, i, 8 - n);
    WholeByte(h, i);
    FieldBound(h, 8 * i + 8 - n, n);
    DivUnique(h[i], Pow2(n), h[i] / Pow2(n), Field(h, 8 * i + 8 - n, n));
  }

  lemma WholeByte(h: Hash, i: nat)
    requires i < HASHLEN
    ensures Field(h, 8 * i, 8) == h[i]
  {
    hide Field;
    FieldHigh(h, i, 8);
    Pow2Table();
  }

  /** Four whole bytes, read as a big-endian number. */
  lemma FourBytes(h: Hash, i: nat)
    requires i + 3 < HASHLEN
    ensures Field(h, 8 * i, 32) == ((h[i] as nat * 256 + h[i + 1]) * 256 + h[i + 2]) * 256 + h[i + 3]
  {
    hide Field;
    hide Pow2;
    Pow2Table();
    FieldSplit(h, 8 * i, 8, 8);
    FieldSplit(h, 8 * i, 16, 8);
    FieldSplit(h, 8 * i, 24, 8);
    WholeByte(h, i);
    WholeByte(h, i + 1);
    WholeByte(h, i + 2);
    WholeByte(h, i + 3);
  }
}
