/**
  The compact format of a difficulty target: one byte of exponent in base 256, a sign
  bit and 23 bits of mantissa in a 32-bit word.
*/
module Compact {
  import opened Arith
  import opened Limbs
  import opened Uint256

  const SIGN: nat := 0x80_0000
  const MANTISSAS: nat := 0x100_0000

  function Exponent(c: nat): (e: nat)
  {
    c / MANTISSAS
  }

  function Mantissa(c: nat): (m: nat)
    ensures m < SIGN
  {
    c % SIGN
  }

  predicate Negative(c: nat)
  {
    c / SIGN % 2 == 1
  }

  /** mantissa * 256^(exponent - 3), rounded down, with no bound on its size. */
  function Magnitude(c: nat): nat
  {
    var e, m := Exponent(c), Mantissa(c);
    if e <= 3 then Shr(m, 8 * (3 - e)) else m * Pow2(8 * (e - 3))
  }

  /** A word of exponent byte e, sign bit s and mantissa m. */
  lemma FieldsExact(e: nat, s: nat, m: nat)
    requires s < 2 && m < 0x80_0000
    ensures var c := 0x100_0000 * e + 0x80_0000 * s + m;
            && Exponent(c) == e && Mantissa(c) == m && (Negative(c) <==> s == 1)
            && (e <= 3 ==> Magnitude(c) == m / Pow2(8 * (3 - e)))
            && (e >= 3 ==> Magnitude(c) == m * Pow2(8 * (e - 3)))
  {
    hide Pow2, Shr;
    Pow2Table();
    PlainFields(e, s, m);
    if e <= 3 {
      ShrIs(m, 8 * (3 - e));
    }
  }

  lemma PlainFields(e: nat, s: nat, m: nat)
    requires s < 2 && m < 0x80_0000
    ensures var c := 0x100_0000 * e + 0x80_0000 * s + m;
            c / 0x100_0000 == e && c % 0x80_0000 == m && c / 0x80_0000 % 2 == s
  {
    var c := 0x100_0000 * e + 0x80_0000 * s + m;
    DivUnique(c, 0x100_0000, e, 0x80_0000 * s + m);
    DivUnique(c, 0x80_0000, 2 * e + s, m);
  }

  lemma ShrIs(x: nat, b: nat)
    ensures Shr(x, b) == x / Pow2(b)
  {
  }

  // ---------- the size of a number in bytes ----------

  function BitLength(x: nat): nat
  {
    if x == 0 then 0 else 1 + BitLength(x / 2)
  }

  function Size(x: nat): nat
  {
    (BitLength(x) + 7) / 8
  }

  lemma {:induction false} BitLengthIs(x: nat, r: nat)
    requires r > 0 && Pow2(r - 1) <= x < Pow2(r)
    ensures BitLength(x) == r
  {
    if r == 1 {
      assert BitLength(1) == 1 + BitLength(0);
    } else {
      BitLengthIs(x / 2, r - 1);
    }
  }

  lemma {:induction false} BitLengthBounds(x: nat)
    requires x > 0
    ensures BitLength(x) > 0 && Pow2(BitLength(x) - 1) <= x < Pow2(BitLength(x))
  {
    if x == 1 {
      assert BitLength(1) == 1 + BitLength(0);
    } else {
      BitLengthBounds(x / 2);
    }
  }

  lemma PowMono(a: nat, b: nat)
    requires a <= b
    ensures Pow2(a) <= Pow2(b)
  {
    hide Pow2;
    Pow2Add(a, b - a);
    MulMono(Pow2(a), 1, Pow2(b - a));
  }

  lemma PowOrder(a: nat, b: nat)
    requires Pow2(a) < Pow2(b)
    ensures a < b
  {
    hide Pow2;
    if b <= a {
      PowMono(b, a);
    }
  }

  lemma SizeBounds(x: nat, n: nat)
    requires n > 0 && Size(x) == n
    ensures Pow2(8 * (n - 1)) <= x < Pow2(8 * n)
  {
    hide Pow2;
    if x > 0 {
      BitLengthBounds(x);
      hide BitLength;
      var r := BitLength(x);
      PowMono(8 * (n - 1), r - 1);
      PowMono(r, 8 * n);
    }
  }

  lemma SizeFrom(x: nat, n: nat)
    requires n > 0 && Pow2(8 * (n - 1)) <= x < Pow2(8 * n)
    ensures Size(x) == n
  {
    hide Pow2;
    BitLengthBounds(x);
    hide BitLength;
    var r := BitLength(x);
    PowOrder(8 * (n - 1), r);
    PowOrder(r - 1, 8 * n);
  }

  /** A number of n bytes. */
  lemma SizeIs(x: nat, n: nat)
    requires n > 0
    ensures Size(x) == n <==> Pow2(8 * (n - 1)) <= x < Pow2(8 * n)
  {
    hide *;
    if Size(x) == n {
      SizeBounds(x, n);
    }
    if Pow2(8 * (n - 1)) <= x < Pow2(8 * n) {
      SizeFrom(x, n);
    }
  }

  // ---------- encoding ----------

  /** The three most significant bytes of a number of n bytes, padded below when it has fewer. */
  function Top3(x: nat, n: nat): nat
  {
    if n <= 3 then x * Pow2(8 * (3 - n)) else Shr(x, 8 * (n - 3))
  }

  /** A mantissa whose top bit is set would read as negative: it gives up a byte. */
  function Encode(top: nat, n: nat, negative: bool): nat
  {
    var m, e := if top >= SIGN then top / 256 else top, if top >= SIGN then n + 1 else n;
    e * MANTISSAS + m + if negative && m != 0 then SIGN else 0
  }

  function CompactOf(x: nat, negative: bool): nat
  {
    Encode(Top3(x, Size(x)), Size(x), negative)
  }

  lemma ShrBounds(x: nat, b: nat, lo: nat, hi: nat)
    requires Pow2(lo + b) <= x < Pow2(hi + b)
    ensures Pow2(lo) <= Shr(x, b) < Pow2(hi)
  {
    hide *;
    var p, q := Pow2(b), Shr(x, b);
    ShrLow(x, b);
    Pow2Add(lo, b);
    Pow2Add(hi, b);
    if q < Pow2(lo) {
      MulMono(p, q + 1, Pow2(lo));
      MulDist(p, q, 1);
      assert false;
    }
    if q >= Pow2(hi) {
      MulMono(p, Pow2(hi), q);
      assert false;
    }
  }

  lemma Pow24()
    ensures Pow2(15) == 0x8000 && Pow2(16) == 0x1_0000 && Pow2(23) == SIGN && Pow2(24) == MANTISSAS
  {
    Pow2Table();
    Pow2Add(8, 7);
    Pow2Add(8, 8);
    Pow2Add(16, 7);
    Pow2Add(16, 8);
  }

  /** The leading three bytes of a number have a nonzero top byte. */
  lemma Top3Bounds(x: nat, n: nat)
    requires n > 0 && Pow2(8 * (n - 1)) <= x < Pow2(8 * n)
    ensures 0x1_0000 <= Top3(x, n) < MANTISSAS
  {
    hide Pow2;
    hide Shr;
    Pow24();
    if n <= 3 {
      var p := Pow2(8 * (3 - n));
      Pow2Add(8 * (n - 1), 8 * (3 - n));
      Pow2Add(8 * n, 8 * (3 - n));
      MulMono(p, Pow2(8 * (n - 1)), x);
      MulMono(p, x, Pow2(8 * n) - 1);
      MulDist(p, Pow2(8 * n), -1);
    } else {
      ShrBounds(x, 8 * (n - 3), 16, 24);
    }
  }

  /** The fields of an encoded word. */
  lemma EncodeFields(top: nat, n: nat, negative: bool)
    requires top < MANTISSAS
    ensures var c, m := Encode(top, n, negative), if top >= SIGN then top / 256 else top;
            && Mantissa(c) == m && Exponent(c) == (if top >= SIGN then n + 1 else n)
            && (Negative(c) <==> negative && m != 0)
  {
    var m := if top >= SIGN then top / 256 else top;
    PlainFields(if top >= SIGN then n + 1 else n, if negative && m != 0 then 1 else 0, m);
  }

  /** The weight of the last bit of a mantissa. */
  function Unit(e: nat): nat
  {
    if e <= 3 then 1 else Pow2(8 * (e - 3))
  }

  lemma ShrMul(m: nat, b: nat)
    ensures Shr(m * Pow2(b), b) == m
  {
    hide *;
    ShrUnique(m * Pow2(b), b, m, 0);
  }

  /** A multiple of a power of two loses nothing on the way down. */
  lemma ShrPart(x: nat, k: nat, b: nat)
    requires b <= k
    ensures Shr(x * Pow2(k), b) == x * Pow2(k - b)
  {
    hide *;
    Pow2Add(k - b, b);
    MulAssoc(x, Pow2(k - b), Pow2(b));
    ShrMul(x * Pow2(k - b), b);
  }

  lemma Shr8(x: nat)
    ensures Shr(x, 8) == x / 256
  {
    Pow2Table();
  }

  /** What a word that encodes the leading bytes of x stands for, when the top bit is clear. */
  lemma MagnitudeLow(x: nat, n: nat, negative: bool)
    requires n > 0 && Top3(x, n) < SIGN
    ensures var c := Encode(Top3(x, n), n, negative);
            && Magnitude(c) <= x < Magnitude(c) + Unit(n)
            && Magnitude(c) == if n <= 3 then x else Top3(x, n) * Pow2(8 * (n - 3))
  {
    hide Pow2;
    hide Shr;
    hide Encode;
    hide Mantissa;
    hide Exponent;
    EncodeFields(Top3(x, n), n, negative);
    if n <= 3 {
      ShrMul(x, 8 * (3 - n));
    } else {
      ShrLow(x, 8 * (n - 3));
    }
  }

  /** The same when the top bit is set and the lowest of the three bytes is given up. */
  lemma MagnitudeHigh(x: nat, n: nat, negative: bool)
    requires n > 0 && SIGN <= Top3(x, n) < MANTISSAS
    ensures var c := Encode(Top3(x, n), n, negative);
            && Magnitude(c) <= x < Magnitude(c) + Unit(n + 1)
            && Magnitude(c) == if n <= 2 then x else Top3(x, n) / 256 * Pow2(8 * (n - 2))
  {
    hide Pow2;
    hide Shr;
    hide Encode;
    hide Mantissa;
    hide Exponent;
    var top := Top3(x, n);
    EncodeFields(top, n, negative);
    if n <= 2 {
      Shr8(top);
      ShrPart(x, 8 * (3 - n), 8);
      ShrMul(x, 8 * (2 - n));
    } else {
      Shr8(top);
      HighShift(x, n);
      ShrLow(x, 8 * (n - 2));
    }
  }

  lemma HighShift(x: nat, n: nat)
    requires n >= 3
    ensures Shr(Top3(x, n), 8) == Shr(x, 8 * (n - 2))
  {
    hide Pow2;
    hide Shr;
    if n == 3 {
      Pow2Table();
    } else {
      Pow2Add(8, 8 * (n - 3));
      Pow2Table();
      ShrChain(x, 8 * (n - 3), Pow2(8), 8 * (n - 2));
      ShrDef(Shr(x, 8 * (n - 3)));
    }
  }

  lemma ShrDef(q: nat)
    ensures Shr(q, 8) == q / Pow2(8)
  {
  }

  // ---------- the round trip ----------

  /** Encoding what an encoded word stands for gives the same word. */
  lemma ReencodeLow(x: nat, n: nat, negative: bool)
    requires n > 0 && Size(x) == n && Top3(x, n) < SIGN
    ensures var c := Encode(Top3(x, n), n, negative); CompactOf(Magnitude(c), negative) == c
  {
    hide Pow2;
    hide Shr;
    hide Encode;
    hide Size;
    hide Magnitude;
    SizeIs(x, n);
    Top3Bounds(x, n);
    MagnitudeLow(x, n, negative);
    if n > 3 {
      var top, y := Top3(x, n), Top3(x, n) * Pow2(8 * (n - 3));
      Pow24();
      Pow2Add(16, 8 * (n - 3));
      MulMono(Pow2(8 * (n - 3)), Pow2(16), top);
      SizeIs(y, n);
      ShrMul(top, 8 * (n - 3));
    }
  }

  lemma ReencodeHigh(x: nat, n: nat, negative: bool)
    requires n > 0 && Size(x) == n && Top3(x, n) >= SIGN
    ensures var c := Encode(Top3(x, n), n, negative); CompactOf(Magnitude(c), negative) == c
  {
    hide Pow2;
    hide Shr;
    hide Size;
    hide Magnitude;
    SizeIs(x, n);
    Top3Bounds(x, n);
    MagnitudeHigh(x, n, negative);
    if n > 2 {
      var h := Top3(x, n) / 256;
      var y := h * Pow2(8 * (n - 2));
      HighSize(h, n);
      SizeIs(y, n);
      HighTop(h, n);
    }
  }

  lemma HighSize(h: nat, n: nat)
    requires n > 2 && h >= 0x8000
    ensures h * Pow2(8 * (n - 2)) >= Pow2(8 * (n - 1))
  {
    hide Pow2;
    Pow24();
    Pow2Add(15, 8 * (n - 2));
    PowMono(8 * (n - 1), 15 + 8 * (n - 2));
    MulMono(Pow2(8 * (n - 2)), Pow2(15), h);
  }

  lemma HighTop(h: nat, n: nat)
    requires n > 2
    ensures Top3(h * Pow2(8 * (n - 2)), n) == h * 256
  {
    hide Pow2;
    hide Shr;
    Pow2Table();
    if n > 3 {
      ShrPart(h, 8 * (n - 2), 8 * (n - 3));
    }
  }

  /**
    Encoding a 256-bit number and decoding it again never overflows, rounds down by less
    than one unit of the last mantissa bit kept, and gives a word that encodes to itself.
  */
  lemma CompactRoundTrip(x: nat, negative: bool)
    requires x < PowB(WIDTH)
    ensures var c := CompactOf(x, negative);
            && c < U32 && Magnitude(c) <= x < Magnitude(c) + Unit(Exponent(c))
            && CompactOf(Magnitude(c), negative) == c
            && (Negative(c) <==> negative && x > 0)
  {
    hide Magnitude;
    hide PowB;
    hide Pow2;
    hide Shr;
    hide Size;
    hide Unit;
    var n := Size(x);
    if n == 0 {
      ZeroCompact(x, negative);
    } else {
      SizeIs(x, n);
      Top3Bounds(x, n);
      SizeFits(x, n);
      EncodeFields(Top3(x, n), n, negative);
      if Top3(x, n) < SIGN {
        MagnitudeLow(x, n, negative);
        ReencodeLow(x, n, negative);
      } else {
        MagnitudeHigh(x, n, negative);
        ReencodeHigh(x, n, negative);
      }
      PowMono(0, 8 * (n - 1));
      Pow2Table();
    }
  }

  /**
    The word of a positive number has a mantissa of at least 0x8000, is exact up to three bytes and
    otherwise keeps the leading bits; the sign bit is set exactly on demand. Zero is the word 0.
  */
  lemma CompactNormal(x: nat, negative: bool)
    requires x < PowB(WIDTH)
    ensures var c := CompactOf(x, negative);
            var e, m := c / 0x100_0000, c % 0x80_0000;
            && (x == 0 ==> c == 0)
            && (x > 0 ==>
                  && 0x8000 <= m < 0x80_0000 && c == 0x100_0000 * e + (if negative then 0x80_0000 else 0) + m
                  && (e <= 3 ==> m == x * Pow2(8 * (3 - e)))
                  && (e > 3 ==> m * Pow2(8 * (e - 3)) <= x < (m + 1) * Pow2(8 * (e - 3))))
  {
    hide Magnitude, PowB, Pow2, Shr, Size, Top3;
    var n := Size(x);
    if n == 0 {
      ZeroCompact(x, negative);
    } else {
      SizeIs(x, n);
      Top3Bounds(x, n);
      PowMono(0, 8 * (n - 1));
      Pow2Table();
      EncodeFields(Top3(x, n), n, negative);
      if Top3(x, n) < SIGN {
        NormalLow(x, n);
      } else {
        NormalHigh(x, n);
      }
    }
  }

  lemma NormalLow(x: nat, n: nat)
    ensures n <= 3 ==> Top3(x, n) == x * Pow2(8 * (3 - n))
    ensures n > 3 ==> Top3(x, n) * Pow2(8 * (n - 3)) <= x < (Top3(x, n) + 1) * Pow2(8 * (n - 3))
  {
    hide Pow2, Shr;
    if n > 3 {
      ShrBetween(x, 8 * (n - 3));
    }
  }

  lemma ShrBetween(x: nat, b: nat)
    ensures Shr(x, b) * Pow2(b) <= x < (Shr(x, b) + 1) * Pow2(b)
  {
    hide *;
    ShrLow(x, b);
    MulDist(Pow2(b), Shr(x, b), 1);
  }

  lemma NormalHigh(x: nat, n: nat)
    requires n > 0
    ensures n <= 2 ==> Top3(x, n) / 256 == x * Pow2(8 * (2 - n))
    ensures n > 2 ==> Top3(x, n) / 256 * Pow2(8 * (n - 2)) <= x < (Top3(x, n) / 256 + 1) * Pow2(8 * (n - 2))
  {
    hide Pow2, Shr;
    var top := Top3(x, n);
    Shr8(top);
    if n <= 2 {
      ShrPart(x, 8 * (3 - n), 8);
    } else {
      HighShift(x, n);
      ShrBetween(x, 8 * (n - 2));
    }
  }

  lemma ZeroCompact(x: nat, negative: bool)
    requires Size(x) == 0
    ensures x == 0 && CompactOf(0, negative) == 0 && Magnitude(0) == 0 && Unit(0) == 1 && !Negative(0)
  {
    hide Pow2;
    if x > 0 {
      BitLengthBounds(x);
      assert false;
    }
    ZeroParts(24);
  }

  lemma SizeFits(x: nat, n: nat)
    requires n > 0 && x < PowB(WIDTH) && Pow2(8 * (n - 1)) <= x
    ensures n <= 32
  {
    hide Pow2;
    hide PowB;
    PowBIsPow2(WIDTH);
    PowOrder(8 * (n - 1), 256);
  }

  // ---------- the overflow flag ----------

  predicate OverflowFlag(e: nat, w: nat)
  {
    w != 0 && (e > 34 || (w > 0xff && e > 33) || (w > 0xffff && e > 32))
  }

  lemma ScaledOver(m: nat, a: nat, b: nat)
    requires m >= Pow2(a) && a + b >= 256
    ensures m * Pow2(b) >= PowB(WIDTH)
  {
    hide Pow2;
    hide PowB;
    Pow2Add(a, b);
    PowBIsPow2(WIDTH);
    PowMono(256, a + b);
    MulMono(Pow2(b), Pow2(a), m);
  }

  lemma ScaledUnder(m: nat, a: nat, b: nat)
    requires m < Pow2(a) && a + b <= 256
    ensures m * Pow2(b) < PowB(WIDTH)
  {
    hide Pow2;
    hide PowB;
    Pow2Add(a, b);
    TopPower(a + b);
    MulBelow(m, Pow2(a), Pow2(b));
  }

  lemma ScaledOverflow(e: nat, m: nat)
    requires e > 3 && m < SIGN
    ensures OverflowFlag(e, m) <==> m * Pow2(8 * (e - 3)) >= PowB(WIDTH)
  {
    hide Pow2;
    hide PowB;
    Pow24();
    Pow2Table();
    var b := 8 * (e - 3);
    if m == 0 {
      ScaledUnder(0, 0, 0);
    } else if e > 34 {
      ScaledOver(m, 0, b);
    } else if e == 34 {
      if m > 0xff {
        ScaledOver(m, 8, b);
      } else {
        ScaledUnder(m, 8, b);
      }
    } else if e == 33 {
      if m > 0xffff {
        ScaledOver(m, 16, b);
      } else {
        ScaledUnder(m, 16, b);
      }
    } else {
      ScaledUnder(m, 23, b);
    }
  }

  lemma SmallMagnitude(m: nat, b: nat)
    requires m < SIGN
    ensures Shr(m, b) <= m < PowB(WIDTH)
  {
    hide *;
    ShrLow(m, b);
    PowPositive(b, Shr(m, b));
    Pow24();
    Pow2Of256(m);
  }

  lemma PowPositive(b: nat, q: nat)
    ensures Pow2(b) * q >= q
  {
    MulMono(q, 1, Pow2(b));
  }

  lemma Pow2Of256(m: nat)
    requires m < SIGN
    ensures m < PowB(WIDTH)
  {
    hide Pow2;
    hide PowB;
    Pow24();
    Pow2Table();
    ScaledUnder(m, 23, 0);
  }

  // ---------- the two operations ----------

  /** SetCompact: the number modulo 2^256, and the two flags. */
  method SetCompact(a: BaseUint, nCompact: nat) returns (negative: bool, overflow: bool)
    requires a.Valid() && nCompact < U32
    modifies a.pn
    ensures a.Val() == Magnitude(nCompact) % PowB(WIDTH)
    ensures overflow <==> Magnitude(nCompact) >= PowB(WIDTH)
    ensures negative <==> Negative(nCompact) && Magnitude(nCompact) != 0
  {
    hide Value;
    hide Pow2;
    hide PowB;
    hide Shr;
    OverflowExact(nCompact);
    var nSize := nCompact / MANTISSAS;
    var nWord := nCompact % SIGN;
    if nSize <= 3 {
      SmallMagnitude(nWord, 8 * (3 - nSize));
      nWord := Shr(nWord, 8 * (3 - nSize));
      a.Assign(nWord);
      DivUnique(nWord, PowB(WIDTH), 0, nWord);
    } else {
      a.Assign(nWord);
      NonZeroScaled(nWord, 8 * (nSize - 3));
      a.ShiftLeft(8 * (nSize - 3));
    }
    negative := nWord != 0 && nCompact / SIGN % 2 == 1;
    overflow := nWord != 0 && (nSize > 34 || (nWord > 0xff && nSize > 33) || (nWord > 0xffff && nSize > 32));
  }

  /**
    The flag says exactly when mantissa * 256^(exponent - 3) needs more than 256 bits; it looks at the
    mantissa, cut when the number has fewer than three bytes.
  */
  lemma OverflowExact(c: nat)
    ensures var e, m := c / 0x100_0000, c % 0x80_0000;
            var w := if e <= 3 then Shr(m, 8 * (3 - e)) else m;
            w != 0 && (e > 34 || (w > 0xff && e > 33) || (w > 0xffff && e > 32)) <==> Magnitude(c) >= PowB(WIDTH)
  {
    hide Pow2;
    hide PowB;
    hide Shr;
    var e, m := Exponent(c), Mantissa(c);
    if e <= 3 {
      SmallMagnitude(m, 8 * (3 - e));
    } else {
      ScaledOverflow(e, m);
    }
  }

  lemma NonZeroScaled(m: nat, b: nat)
    ensures m * Pow2(b) != 0 <==> m != 0
  {
    if m > 0 {
      MulMono(Pow2(b), 1, m);
    }
  }

  /** The three leading bytes of a number of nSize bytes. */
  method LeadingWord(a: BaseUint, nSize: nat) returns (word: nat)
    requires a.Valid() && nSize == Size(a.Val())
    ensures word == Top3(a.Val(), nSize)
  {
    hide Value;
    hide Pow2;
    hide PowB;
    hide Shr;
    hide Size;
    ValueBound(a.pn[..]);
    LeadingBytes(a.Val(), nSize);
    if nSize <= 3 {
      var low := a.GetLow64();
      word := low * Pow2(8 * (3 - nSize)) % U32;
    } else {
      var bn := new BaseUint.Copy(a);
      bn.ShiftRight(8 * (nSize - 3));
      var low := bn.GetLow64();
      word := low % U32;
    }
  }

  /** GetCompact: the encoding of the number; the assertions of the original hold. */
  method GetCompact(a: BaseUint, fNegative: bool) returns (c: nat)
    requires a.Valid()
    ensures c == CompactOf(a.Val(), fNegative) && c < U32
  {
    hide Value;
    hide Pow2;
    hide PowB;
    hide Or;
    hide Size;
    hide Top3;
    hide Magnitude;
    hide Unit;
    ValueBound(a.pn[..]);
    CompactRoundTrip(a.Val(), fNegative);
    var bits := a.Bits();
    BitsAreSize(a.Val(), bits);
    var nSize := (bits + 7) / 8;
    LeadingBytes(a.Val(), nSize);
    var nCompact := LeadingWord(a, nSize);
    if nCompact / SIGN % 2 == 1 {
      nCompact := nCompact / 256;
      nSize := nSize + 1;
    }
    assert nCompact < SIGN && nSize < 256;
    JoinFields(nSize, nCompact);
    JoinSign(nSize, nCompact);
    c := Or(nCompact, nSize * MANTISSAS);
    c := Or(c, if fNegative && c % SIGN != 0 then SIGN else 0);
  }

  lemma BitsAreSize(x: nat, r: nat)
    requires (r == 0 <==> x == 0) && (r > 0 ==> Pow2(r - 1) <= x < Pow2(r))
    ensures (r + 7) / 8 == Size(x)
  {
    BitsAreLength(x, r);
  }

  lemma BitsAreLength(x: nat, r: nat)
    requires (r == 0 <==> x == 0) && (r > 0 ==> Pow2(r - 1) <= x < Pow2(r))
    ensures BitLength(x) == r
  {
    if r > 0 {
      BitLengthIs(x, r);
    }
  }

  lemma LeadingBytes(x: nat, n: nat)
    requires n == Size(x) && x < PowB(WIDTH)
    ensures n <= 32 && Top3(x, n) < MANTISSAS
    ensures n <= 3 ==> x % U64 == x && Top3(x, n) % U32 == Top3(x, n)
    ensures n > 3 ==> Top3(x, n) % U64 % U32 == Top3(x, n)
  {
    hide Pow2;
    hide PowB;
    hide Shr;
    hide Size;
    if n == 0 {
      ZeroCompact(x, false);
    } else {
      SizeIs(x, n);
      Top3Bounds(x, n);
      SizeFits(x, n);
      if n <= 3 {
        Pow24();
        PowMono(8 * n, 24);
      }
    }
  }

  lemma JoinFields(e: nat, m: nat)
    requires m < SIGN && e < 256
    ensures Or(m, e * MANTISSAS) == e * MANTISSAS + m < U32
  {
    hide Or;
    hide Pow2;
    Pow24();
    OrDisjoint(e, m, 24);
    OrComm(m, e * MANTISSAS);
  }

  lemma JoinSign(e: nat, m: nat)
    requires m < SIGN && e < 256
    ensures Or(e * MANTISSAS + m, SIGN) == e * MANTISSAS + m + SIGN && Or(e * MANTISSAS + m, 0) == e * MANTISSAS + m
    ensures (e * MANTISSAS + m) % SIGN == m
  {
    hide Or;
    hide Pow2;
    Pow24();
    var x := e * MANTISSAS;
    LowField(e, m);
    OrZero(x + m);
    OrDisjoint(e, m, 24);
    OrDisjoint(e, SIGN, 24);
    OrComm(m, x);
    OrAssoc(m, x, SIGN);
    OrComm(m, x + SIGN);
    OddMultiple(e, m);
  }

  lemma LowField(e: nat, m: nat)
    requires m < SIGN
    ensures (e * MANTISSAS + m) % SIGN == m
  {
  }

  lemma OddMultiple(e: nat, m: nat)
    requires m < SIGN
    ensures Or(e * MANTISSAS + SIGN, m) == e * MANTISSAS + SIGN + m
  {
    hide Or;
    hide Pow2;
    Pow24();
    OrDisjoint(2 * e + 1, m, 23);
  }
}
