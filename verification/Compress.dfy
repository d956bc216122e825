/**
  CompressArray and GetMinimalFromIndices: the low bit_len bits of each index, packed
  into bytes one after another, most significant bit first.
*/
module Compress {
  import opened Arith
  import opened Limbs

  /** The number whose digits, most significant first, are s in base 2^w. */
  function BigEnd(s: seq<nat>, w: nat): nat
  {
    if s == [] then 0 else BigEnd(s[..|s| - 1], w) * Pow2(w) + s[|s| - 1]
  }

  predicate Digits(s: seq<nat>, w: nat)
  {
    forall i :: 0 <= i < |s| ==> s[i] < Pow2(w)
  }

  lemma BigEndNext(s: seq<nat>, x: nat, w: nat)
    ensures BigEnd(s + [x], w) == BigEnd(s, w) * Pow2(w) + x
  {
    assert (s + [x])[..|s|] == s;
  }

  lemma {:induction false} BigEndBound(s: seq<nat>, w: nat)
    requires Digits(s, w)
    ensures BigEnd(s, w) < Pow2(|s| * w)
  {
    hide Pow2;
    if s == [] {
      PowZero();
    } else {
      var n := |s| - 1;
      BigEndBound(s[..n], w);
      NextMultiple(n, w);
      Pow2Add(n * w, w);
      DigitBound(BigEnd(s[..n], w), s[n], Pow2(n * w), Pow2(w));
    }
  }

  lemma PowZero()
    ensures Pow2(0) == 1
  {
  }

  lemma NextMultiple(n: nat, w: nat)
    ensures 0 <= n * w && (n + 1) * w == n * w + w
  {
  }

  lemma DigitBound(v: nat, x: nat, vp: nat, p: nat)
    requires v < vp && x < p
    ensures v * p + x < vp * p
  {
    MulMono(p, v, vp - 1);
    MulDist(p, vp, -1);
  }

  /** Digits in range are determined by the number they make. */
  lemma {:induction false} BigEndInjective(s: seq<nat>, t: seq<nat>, w: nat)
    requires |s| == |t| && Digits(s, w) && Digits(t, w) && BigEnd(s, w) == BigEnd(t, w)
    ensures s == t
  {
    if s == [] {
    } else {
      hide Pow2;
      var n := |s| - 1;
      var x, y := BigEnd(s[..n], w), BigEnd(t[..n], w);
      DivUnique(BigEnd(s, w), Pow2(w), x, s[n]);
      DivUnique(BigEnd(s, w), Pow2(w), y, t[n]);
      BigEndInjective(s[..n], t[..n], w);
      assert s == s[..n] + [s[n]] && t == t[..n] + [t[n]];
    }
  }

  /** Bytes of the array as plain numbers. */
  function Nats(s: seq<Byte>): (r: seq<nat>)
    ensures |r| == |s| && forall i :: 0 <= i < |s| ==> r[i] == s[i]
  {
    seq(|s|, i requires 0 <= i < |s| => s[i])
  }

  /** Element c of the input: its last in_width - byte_pad bytes, big endian, cut to bit_len bits. */
  function Element(input: seq<Byte>, c: nat, width: nat, pad: nat, bitLen: nat): nat
    requires pad <= width && (c + 1) * width <= |input|
  {
    ElementBounds(c, width, pad);
    Low(BigEnd(Nats(input[c * width + pad..(c + 1) * width]), 8), bitLen)
  }

  lemma ElementBounds(c: nat, width: nat, pad: nat)
    requires pad <= width
    ensures 0 <= c * width + pad <= (c + 1) * width == c * width + width
  {
  }

  function Elements(input: seq<Byte>, n: nat, width: nat, pad: nat, bitLen: nat): (r: seq<nat>)
    requires pad <= width && n * width <= |input|
    ensures |r| == n && Digits(r, bitLen)
  {
    if n == 0 then []
    else
      FewerElements(n, width);
      LowBound(BigEnd(Nats(input[(n - 1) * width + pad..n * width]), 8), bitLen);
      Elements(input, n - 1, width, pad, bitLen) + [Element(input, n - 1, width, pad, bitLen)]
  }

  lemma FewerElements(n: nat, width: nat)
    requires n > 0
    ensures 0 <= (n - 1) * width <= n * width == (n - 1) * width + width
  {
  }

  lemma LowBound(x: nat, b: nat)
    ensures Low(x, b) < Pow2(b)
  {
    hide *;
    ShrLow(x, b);
  }

  // ---------- one element ----------

  /** Byte m, counted from the last, of a big-endian number. */
  lemma {:induction false} ByteOf(s: seq<nat>, m: nat)
    requires m < |s| && Digits(s, 8)
    ensures Low(Shr(BigEnd(s, 8), 8 * m), 8) == s[|s| - 1 - m]
  {
    hide Pow2;
    hide Shr;
    hide Low;
    var n := |s| - 1;
    var rest := BigEnd(s[..n], 8);
    ShrUnique(BigEnd(s, 8), 8, rest, s[n]);
    if m == 0 {
      ShrNone(BigEnd(s, 8));
    } else {
      ShrShr(BigEnd(s, 8), 8 * (m - 1), 8);
      ByteOf(s[..n], m - 1);
    }
  }

  lemma ShrNone(x: nat)
    ensures Shr(x, 0) == x
  {
  }

  /** The mask of an element, seen through byte m. */
  lemma MaskByte(bitLen: nat, m: nat)
    requires 8 * m < bitLen
    ensures And(Shr(Pow2(bitLen) - 1, 8 * m), 0xff) == Pow2(if bitLen - 8 * m < 8 then bitLen - 8 * m else 8) - 1
  {
    hide Pow2;
    hide And;
    hide Shr;
    hide Low;
    var t := bitLen - 8 * m;
    OnesAbove(bitLen, 8 * m);
    Pow2Table();
    AndMask(Pow2(t) - 1, 8);
    if t < 8 {
      Pow2Add(t, 8 - t);
      MulMono(Pow2(t), 1, Pow2(8 - t));
      LowSmall(Pow2(t) - 1, 8);
    } else {
      OnesBelow(t, 8);
    }
  }

  /** Ones cut at bit b are ones on both sides. */
  lemma OnesAbove(n: nat, b: nat)
    requires b <= n
    ensures Shr(Pow2(n) - 1, b) == Pow2(n - b) - 1 && Low(Pow2(n) - 1, b) == Pow2(b) - 1
  {
    hide *;
    Pow2Add(b, n - b);
    MulDist(Pow2(b), Pow2(n - b), -1);
    ShrUnique(Pow2(n) - 1, b, Pow2(n - b) - 1, Pow2(b) - 1);
  }

  lemma OnesBelow(n: nat, b: nat)
    requires b <= n
    ensures Low(Pow2(n) - 1, b) == Pow2(b) - 1
  {
    OnesAbove(n, b);
  }

  /** Byte m of the whole element under its mask is byte m of the element cut to bit_len bits. */
  lemma MaskedByte(v: nat, bitLen: nat, m: nat)
    requires 8 * m < bitLen
    ensures And(Low(Shr(v, 8 * m), 8), And(Shr(Pow2(bitLen) - 1, 8 * m), 0xff)) == Low(Shr(Low(v, bitLen), 8 * m), 8)
  {
    hide *;
    var t, x := bitLen - 8 * m, Shr(v, 8 * m);
    MaskByte(bitLen, m);
    LowLow(v, bitLen, 8 * m);
    if t < 8 {
      AndMask(Low(x, 8), t);
      LowLow(x, 8, t);
      SmallInByte(x, t);
    } else {
      AndMask(Low(x, 8), 8);
      LowLow(x, 8, 8);
      LowLow(x, t, 8);
    }
  }

  lemma SmallInByte(x: nat, t: nat)
    requires t <= 8
    ensures Low(Low(x, t), 8) == Low(x, t)
  {
    hide *;
    LowBound(x, t);
    Pow2Add(t, 8 - t);
    PowAtLeast(t, 8 - t);
    LowSmall(Low(x, t), 8);
  }

  lemma PowAtLeast(a: nat, b: nat)
    ensures Pow2(a) * Pow2(b) >= Pow2(a)
  {
    MulMono(Pow2(a), 1, Pow2(b));
  }

  /** The part of v above bit b, in place, over hi. */
  function Upper(hi: nat, v: nat, bitLen: nat, b: nat): nat
  {
    hi * Pow2(bitLen) + Shr(v, b) * Pow2(b)
  }

  lemma UpperDef(hi: nat, v: nat, bitLen: nat, b: nat)
    ensures Upper(hi, v, bitLen, b) == hi * Pow2(bitLen) + Shr(v, b) * Pow2(b)
  {
  }

  /** Putting byte m of v below the bytes already there. */
  lemma OrByte(hi: nat, v: nat, bitLen: nat, m: nat)
    requires 8 * m < bitLen && v < Pow2(bitLen)
    ensures Or(Upper(hi, v, bitLen, 8 * (m + 1)), Low(Shr(v, 8 * m), 8) * Pow2(8 * m)) == Upper(hi, v, bitLen, 8 * m)
  {
    hide *;
    UpperDef(hi, v, bitLen, 8 * m);
    UpperDef(hi, v, bitLen, 8 * (m + 1));
    var x, byte := Shr(v, 8 * m), Low(Shr(v, 8 * m), 8);
    ShrLow(x, 8);
    ShrShr(v, 8, 8 * m);
    Pow2Add(8, 8 * m);
    ByteAlgebra(x, Shr(x, 8), byte, Pow2(8), Pow2(8 * m));
    var low := byte * Pow2(8 * m);
    if 8 * (m + 1) <= bitLen {
      LowFits(x, 8, 8 * m);
      Pow2Add(bitLen - 8 * (m + 1), 8 * (m + 1));
      Factor(hi, Pow2(bitLen - 8 * (m + 1)), Shr(v, 8 * (m + 1)), Pow2(8 * (m + 1)));
      OrDisjoint(hi * Pow2(bitLen - 8 * (m + 1)) + Shr(v, 8 * (m + 1)), low, 8 * (m + 1));
    } else {
      NothingAbove(v, bitLen, 8 * (m + 1));
      ShrLow(v, 8 * m);
      Commute(Pow2(8 * m), x);
      OrDisjoint(hi, low, bitLen);
    }
  }

  lemma Commute(a: nat, b: nat)
    ensures a * b == b * a
  {
  }

  lemma ByteAlgebra(x: nat, q: nat, r: nat, p: nat, pm: nat)
    requires x == p * q + r
    ensures x * pm == q * (p * pm) + r * pm
  {
    MulDist(pm, p * q, r);
    MulAssoc(q, p, pm);
  }

  lemma Factor(hi: nat, p: nat, q: nat, pb: nat)
    ensures hi * (p * pb) + q * pb == (hi * p + q) * pb
  {
    MulAssoc(hi, p, pb);
    MulDist(pb, hi * p, q);
  }

  lemma LowFits(x: nat, a: nat, b: nat)
    ensures Low(x, a) * Pow2(b) < Pow2(a + b)
  {
    hide *;
    LowBound(x, a);
    Pow2Add(a, b);
    DigitBound(Low(x, a), 0, Pow2(a), Pow2(b));
  }

  lemma NothingAbove(v: nat, bitLen: nat, b: nat)
    requires v < Pow2(bitLen) && bitLen <= b
    ensures Shr(v, b) == 0 && Shr(v, b) * Pow2(b) == 0
  {
    hide *;
    Pow2Add(bitLen, b - bitLen);
    PowAtLeast(bitLen, b - bitLen);
    LowSmall(v, b);
    ZeroTimes(Pow2(b));
  }

  lemma ZeroTimes(p: nat)
    ensures 0 * p == 0
  {
  }

  // ---------- the accumulator ----------

  /** The elements read so far are the bytes written and the low bits of the accumulator. */
  ghost predicate Packed(elements: seq<nat>, bitLen: nat, written: seq<nat>, acc: nat, bits: nat)
  {
    BigEnd(elements, bitLen) == BigEnd(written, 8) * Pow2(bits) + Low(acc, bits)
  }

  lemma PackedStart(bitLen: nat)
    ensures Packed([], bitLen, [], 0, 0)
  {
    hide Pow2;
    hide Low;
    LowSmall(0, 0);
  }

  /** Reading an element: what the 32-bit shift pushes out was not part of the sequence any more. */
  lemma PackedRead(elements: seq<nat>, bitLen: nat, written: seq<nat>, acc: Limb, bits: nat, v: nat)
    requires Packed(elements, bitLen, written, acc, bits) && bits + bitLen <= 32 && v < Pow2(bitLen)
    ensures Packed(elements + [v], bitLen, written, Low(acc, 32 - bitLen) * Pow2(bitLen) + v, bits + bitLen)
    ensures Low(acc, 32 - bitLen) * Pow2(bitLen) + v < U32
    ensures acc * Pow2(bitLen) % U32 == Low(acc, 32 - bitLen) * Pow2(bitLen)
  {
    hide Pow2;
    hide Low;
    hide Shr;
    hide BigEnd;
    var kept := Low(acc, 32 - bitLen);
    UpParts(acc, bitLen);
    LowLow(acc, 32 - bitLen, bits);
    LowBound(acc, 32 - bitLen);
    PowSplit(bitLen);
    DigitBound(kept, v, Pow2(32 - bitLen), Pow2(bitLen));
    ShrUnique(kept * Pow2(bitLen) + v, bitLen, kept, v);
    ShrShr(kept * Pow2(bitLen) + v, bits, bitLen);
    BigEndNext(elements, v, bitLen);
    Pow2Add(bits, bitLen);
    AppendAlgebra(BigEnd(written, 8), Pow2(bits), Low(acc, bits), Pow2(bitLen), v);
  }

  lemma AppendAlgebra(w: nat, p: nat, low: nat, q: nat, v: nat)
    ensures (w * p + low) * q + v == w * (p * q) + (low * q + v)
  {
    MulDist(q, w * p, low);
    MulAssoc(w, p, q);
  }

  /** Writing a byte moves it from the accumulator to the output. */
  lemma PackedWrite(elements: seq<nat>, bitLen: nat, written: seq<nat>, acc: nat, bits: nat)
    requires bits >= 8 && Packed(elements, bitLen, written, acc, bits)
    ensures Packed(elements, bitLen, written + [Low(Shr(acc, bits - 8), 8)], acc, bits - 8)
    ensures And(Shr(acc, bits - 8), 0xff) == Low(Shr(acc, bits - 8), 8) < 256
  {
    hide Pow2;
    hide Low;
    hide Shr;
    hide And;
    hide BigEnd;
    var b := bits - 8;
    var byte := Low(Shr(acc, b), 8);
    Pow2Table();
    AndMask(Shr(acc, b), 8);
    LowBound(Shr(acc, b), 8);
    ShrShr(acc, 8, b);
    BigEndNext(written, byte, 8);
    Pow2Add(8, b);
    AppendAlgebra(BigEnd(written, 8), Pow2(8), byte, Pow2(b), Low(acc, b));
  }

  // ---------- CompressArray ----------

  /** The accumulator after the 32-bit shift, with v in the bits freed. */
  function Joined(acc: nat, bitLen: nat, v: nat): nat
    requires bitLen <= 32
  {
    NoNegativeProduct(Low(acc, 32 - bitLen), Pow2(bitLen));
    Low(acc, 32 - bitLen) * Pow2(bitLen) + v
  }

  lemma NoNegativeProduct(a: nat, b: nat)
    ensures a * b >= 0
  {
  }

  /** Reads one element below the bits that the accumulator keeps. */
  method ReadElement(acc: Limb, input: array<Byte>, j: nat, width: nat, pad: nat, mask: nat, bitLen: nat, ghost c: nat)
      returns (r: Limb)
    requires 8 <= bitLen <= 25 && width == (bitLen + 7) / 8 + pad && mask == Pow2(bitLen) - 1
    requires j == c * width && j + width <= input.Length && (c + 1) * width == j + width
    ensures r == Joined(acc, bitLen, Element(input[..], c, width, pad, bitLen))
  {
    hide Pow2;
    hide Low;
    hide Shr;
    hide Or;
    hide And;
    hide BigEnd;
    hide Nats;
    hide Upper;
    ghost var bytes := Nats(input[j + pad..j + width]);
    ghost var v := BigEnd(bytes, 8);
    ghost var e, hi := Low(v, bitLen), Low(acc, 32 - bitLen);
    assert e == Element(input[..], c, width, pad, bitLen) by {
      assert input[..][j + pad..j + width] == input[j + pad..j + width];
    }
    LowBound(v, bitLen);
    ShiftedFits(acc, bitLen, e);
    ModNat(acc * Pow2(bitLen));
    r := acc * Pow2(bitLen) % U32;
    UpperStart(hi, e, bitLen, 8 * (width - pad));
    var x := pad;
    while x < width
      invariant pad <= x <= width && r == Upper(hi, e, bitLen, 8 * (width - x))
    {
      ghost var m := width - x - 1;
      assert bytes[|bytes| - 1 - m] == input[j + x];
      BytesAreDigits(input[j + pad..j + width]);
      ByteOf(bytes, m);
      MaskedByte(v, bitLen, m);
      OrByte(hi, e, bitLen, m);
      UpperBelow(hi, e, bitLen, 8 * m);
      r := Or(r, And(input[j + x], And(Shr(mask, 8 * (width - x - 1)), 0xff)) * Pow2(8 * (width - x - 1)));
      x := x + 1;
    }
    UpperEnd(hi, e, bitLen);
  }

  lemma BytesAreDigits(s: seq<Byte>)
    ensures Digits(Nats(s), 8)
  {
    Pow2Table();
  }

  lemma ShiftedFits(acc: Limb, bitLen: nat, e: nat)
    requires bitLen <= 32 && e < Pow2(bitLen)
    ensures acc * Pow2(bitLen) % U32 == Low(acc, 32 - bitLen) * Pow2(bitLen)
    ensures Low(acc, 32 - bitLen) * Pow2(bitLen) + e < U32
  {
    hide *;
    UpParts(acc, bitLen);
    LowBound(acc, 32 - bitLen);
    PowSplit(bitLen);
    DigitBound(Low(acc, 32 - bitLen), e, Pow2(32 - bitLen), Pow2(bitLen));
  }

  lemma UpperStart(hi: nat, v: nat, bitLen: nat, b: nat)
    requires v < Pow2(bitLen) && bitLen <= b
    ensures Upper(hi, v, bitLen, b) == hi * Pow2(bitLen)
  {
    hide *;
    UpperDef(hi, v, bitLen, b);
    NothingAbove(v, bitLen, b);
  }

  lemma UpperEnd(hi: nat, v: nat, bitLen: nat)
    ensures Upper(hi, v, bitLen, 0) == hi * Pow2(bitLen) + v
  {
    ShrNone(v);
  }

  lemma UpperBelow(hi: nat, v: nat, bitLen: nat, b: nat)
    ensures Upper(hi, v, bitLen, b) <= hi * Pow2(bitLen) + v
  {
    hide *;
    UpperDef(hi, v, bitLen, b);
    ShrLow(v, b);
    Commute(Pow2(b), Shr(v, b));
  }

  lemma NextProduct(n: nat, width: nat, bitLen: nat, c: nat)
    requires c < n
    ensures 0 <= c * width && (c + 1) * width <= n * width && (c + 1) * width == c * width + width
    ensures bitLen * (c + 1) == bitLen * c + bitLen
  {
    MulMono(width, c + 1, n);
    MulDist(width, c, 1);
    MulDist(bitLen, c, 1);
  }

  /** The output holds the first 8 * out_len bits of the packed elements. */
  ghost predicate Compressed(input: seq<Byte>, n: nat, width: nat, pad: nat, bitLen: nat, out: seq<Byte>)
    requires pad <= width && n * width <= |input|
  {
    && 8 * |out| <= bitLen * n < 8 * |out| + 8
    && BigEnd(Nats(out), 8) == Shr(BigEnd(Elements(input, n, width, pad, bitLen), bitLen), bitLen * n - 8 * |out|)
  }

  lemma NatsNext(s: seq<Byte>, b: Byte)
    ensures Nats(s + [b]) == Nats(s) + [b]
  {
  }

  /** The whole elements of an input. */
  function Whole(inLen: nat, width: nat): (n: nat)
    requires width > 0
    ensures n * width <= inLen < (n + 1) * width == n * width + width
  {
    DivMod(inLen, width);
    MulDist(width, inLen / width, 1);
    inLen / width
  }

  /** The output length that the source asserts. */
  function OutLength(bitLen: nat, inLen: nat, width: nat): nat
    requires width > 0
  {
    QuotientNat(bitLen * inLen, 8 * width);
    bitLen * inLen / (8 * width)
  }

  /** Reads the next element, unless it ends outside the input. */
  method ReadNext(acc: Limb, input: array<Byte>, j: nat, width: nat, pad: nat, mask: nat, bitLen: nat, bits: nat,
                  ghost n: nat, ghost c: nat, ghost written: seq<Byte>, ghost outLen: nat)
    returns (inside: bool, r: Limb)
    requires 8 <= bitLen <= 25 && width == (bitLen + 7) / 8 + pad && mask == Pow2(bitLen) - 1
    requires n == Whole(input.Length, width) && j == c * width
    requires Packing(input[..], n, width, pad, bitLen, c, written, acc, bits) && bits < 8 && |written| < outLen
    ensures inside ==> j + width == (c + 1) * width
    ensures inside ==> Packing(input[..], n, width, pad, bitLen, c + 1, written, r, bits + bitLen)
    ensures !inside ==> 8 * outLen > bitLen * n
  {
    hide Pow2;
    hide Low;
    hide Element;
    hide Joined;
    hide Whole;
    hide Packing;
    ReadsOutside(input[..], n, width, pad, bitLen, c, written, acc, bits, outLen);
    if j + width > input.Length {
      return false, 0;
    }
    ReadsBelow(input[..], n, width, pad, bitLen, c, written, acc, bits);
    ElementRead(input[..], n, width, pad, bitLen, c, written, acc, bits);
    r := ReadElement(acc, input, j, width, pad, mask, bitLen, c);
    inside := true;
  }

  lemma ReadsBelow(input: seq<Byte>, n: nat, width: nat, pad: nat, bitLen: nat, c: nat, written: seq<Byte>,
                   acc: nat, bits: nat)
    requires Packing(input, n, width, pad, bitLen, c, written, acc, bits)
    ensures c <= n
  {
    hide Packed;
    hide Elements;
  }

  /**
    The output length that the source asserts may ask for bits behind the last whole
    element. Then the loop comes to read an element that ends outside the input, which is
    where it is stopped here; otherwise all reads are inside.
  */
  method CompressArray(input: array<Byte>, out: array<Byte>, bitLen: nat, pad: nat) returns (inside: bool)
    requires 8 <= bitLen && 7 + bitLen <= 32 && out != input
    requires out.Length == OutLength(bitLen, input.Length, (bitLen + 7) / 8 + pad)
    modifies out
    ensures var width := (bitLen + 7) / 8 + pad;
            && (inside <==> 8 * out.Length <= bitLen * Whole(input.Length, width))
            && (inside ==> Compressed(input[..], Whole(input.Length, width), width, pad, bitLen, out[..]))
  {
    hide Pow2;
    hide Shr;
    hide And;
    hide Packing;
    hide Compressed;
    hide Whole;
    hide OutLength;
    var width := (bitLen + 7) / 8 + pad;
    var mask := Pow2(bitLen) - 1;
    ghost var n := Whole(input.Length, width);
    OutputLength(width, bitLen, input.Length, out.Length);
    var accBits, acc := 0, 0;
    var j := 0;
    ghost var c: nat := 0;
    NothingRead(input[..], n, width, pad, bitLen);
    var i := 0;
    while i < out.Length
      invariant 0 <= i <= out.Length && j == c * width && 0 <= accBits < bitLen && 0 <= acc < U32
      invariant Packing(input[..], n, width, pad, bitLen, c, out[..i], acc, accBits)
    {
      if accBits < 8 {
        inside, acc := ReadNext(acc, input, j, width, pad, mask, bitLen, accBits, n, c, out[..i], out.Length);
        if !inside {
          return;
        }
        j := j + width;
        accBits := accBits + bitLen;
        c := c + 1;
      }
      ByteWritten(input[..], n, width, pad, bitLen, c, out[..i], acc, accBits);
      accBits := accBits - 8;
      ghost var done := out[..i];
      out[i] := And(Shr(acc, accBits), 0xff);
      assert out[..i + 1] == done + [out[i]];
      i := i + 1;
    }
    assert out[..out.Length] == out[..];
    EnoughRead(input[..], n, width, pad, bitLen, c, out[..], acc, accBits);
    LastBits(input[..], n, c, width, pad, bitLen, out[..], acc, accBits);
    return true;
  }

  /** c elements have been read; they are the bytes written and the bits that the accumulator keeps. */
  ghost predicate Packing(input: seq<Byte>, n: nat, width: nat, pad: nat, bitLen: nat, c: nat, written: seq<Byte>,
                          acc: nat, bits: nat)
  {
    && pad <= width && c <= n && 0 <= c * width <= n * width <= |input| && bitLen * c == 8 * |written| + bits
    && Packed(Elements(input, c, width, pad, bitLen), bitLen, Nats(written), acc, bits)
  }

  lemma NothingRead(input: seq<Byte>, n: nat, width: nat, pad: nat, bitLen: nat)
    requires pad <= width && 0 <= n * width <= |input|
    ensures Packing(input, n, width, pad, bitLen, 0, [], 0, 0)
  {
    hide Packed;
    PackedStart(bitLen);
    Nothing(input, width, pad, bitLen, []);
  }

  /**
    When the accumulator has run short before all bytes are written: the next element ends
    outside the input exactly when the whole elements have all been read, and then they do not
    hold the bits of the bytes still to be written.
  */
  lemma ReadsOutside(input: seq<Byte>, n: nat, width: nat, pad: nat, bitLen: nat, c: nat, written: seq<Byte>,
                     acc: nat, bits: nat, outLen: nat)
    requires width > 0 && n == Whole(|input|, width) && Packing(input, n, width, pad, bitLen, c, written, acc, bits)
    requires bits < 8 && |written| < outLen
    ensures c * width + width > |input| <==> c == n
    ensures c == n ==> 8 * outLen > bitLen * n
  {
    hide Whole;
    hide Packed;
    hide Elements;
    if c < n {
      NextProduct(n, width, bitLen, c);
    }
  }

  /** When all bytes are written the whole elements held their bits. */
  lemma EnoughRead(input: seq<Byte>, n: nat, width: nat, pad: nat, bitLen: nat, c: nat, written: seq<Byte>,
                   acc: nat, bits: nat)
    requires Packing(input, n, width, pad, bitLen, c, written, acc, bits)
    ensures 8 * |written| <= bitLen * n && n * width <= |input| && pad <= width
  {
    hide Packed;
    hide Elements;
    MulMono(bitLen, c, n);
  }

  /** Reading an element below the bits kept leaves nothing out. */
  lemma ElementRead(input: seq<Byte>, n: nat, width: nat, pad: nat, bitLen: nat, c: nat, written: seq<Byte>,
                    acc: Limb, bits: nat)
    requires Packing(input, n, width, pad, bitLen, c, written, acc, bits) && c < n && bits < 8 && bitLen <= 25
    ensures 0 <= c * width && (c + 1) * width <= |input| && (c + 1) * width == c * width + width && pad <= width
    ensures var v := Element(input, c, width, pad, bitLen);
            && Joined(acc, bitLen, v) < U32
            && Packing(input, n, width, pad, bitLen, c + 1, written, Joined(acc, bitLen, v), bits + bitLen)
  {
    hide Pow2;
    hide Low;
    hide Element;
    hide Elements;
    hide Packed;
    hide Nats;
    NextProduct(n, width, bitLen, c);
    ElementSmall(input, c, width, pad, bitLen);
    PackedRead(Elements(input, c, width, pad, bitLen), bitLen, Nats(written), acc, bits,
               Element(input, c, width, pad, bitLen));
    NextElement(input, c, width, pad, bitLen);
  }

  /** The byte written is the next eight bits. */
  lemma ByteWritten(input: seq<Byte>, n: nat, width: nat, pad: nat, bitLen: nat, c: nat, written: seq<Byte>,
                    acc: nat, bits: nat)
    requires Packing(input, n, width, pad, bitLen, c, written, acc, bits) && bits >= 8
    ensures var b := And(Shr(acc, bits - 8), 0xff);
            b < 256 && Packing(input, n, width, pad, bitLen, c, written + [b], acc, bits - 8)
  {
    hide Pow2;
    hide Low;
    hide Shr;
    hide And;
    hide Elements;
    hide Packed;
    hide Nats;
    PackedWrite(Elements(input, c, width, pad, bitLen), bitLen, Nats(written), acc, bits);
    NatsNext(written, And(Shr(acc, bits - 8), 0xff));
  }

  /** What the length asserted means in bits; whole elements alone always hold enough of them. */
  lemma OutputLength(width: nat, bitLen: nat, inLen: nat, outLen: nat)
    requires width > 0 && outLen == OutLength(bitLen, inLen, width)
    ensures bitLen * Whole(inLen, width) < 8 * outLen + 8
    ensures Whole(inLen, width) * width == inLen ==> 8 * outLen <= bitLen * Whole(inLen, width)
  {
    hide Whole;
    var n := Whole(inLen, width);
    MulAssoc(bitLen, n, width);
    MulMono(bitLen, n * width, inLen);
    DivMod(bitLen * inLen, 8 * width);
    LengthBelow(width, bitLen * n, outLen, bitLen * inLen % (8 * width));
    if n * width == inLen {
      LengthAbove(width, bitLen * n, outLen, bitLen * inLen % (8 * width));
    }
  }

  lemma LengthBelow(width: nat, total: nat, outLen: nat, r: nat)
    requires width > 0 && total * width <= 8 * width * outLen + r && r < 8 * width
    ensures total < 8 * outLen + 8
  {
    if total >= 8 * outLen + 8 {
      MulAssoc(width, 8, outLen);
      MulMono(width, 8 * outLen + 8, total);
      MulDist(width, 8 * outLen, 8);
      assert false;
    }
  }

  lemma LengthAbove(width: nat, total: nat, outLen: nat, r: nat)
    requires width > 0 && total * width == 8 * width * outLen + r
    ensures 8 * outLen <= total
  {
    if total < 8 * outLen {
      MulAssoc(width, 8, outLen);
      MulMono(width, total + 1, 8 * outLen);
      MulDist(width, total, 1);
      assert false;
    }
  }

  /** The length asserted can ask for more: three bytes of input for elements of 25 bits. */
  lemma ThreeBytesTooFew()
    ensures var width := (25 + 7) / 8; 8 * OutLength(25, 3, width) > 25 * Whole(3, width)
  {
  }

  lemma Nothing(input: seq<Byte>, width: nat, pad: nat, bitLen: nat, out: seq<Byte>)
    requires pad <= width
    ensures Elements(input, 0, width, pad, bitLen) == [] && Nats(out[..0]) == []
  {
  }

  lemma NextElement(input: seq<Byte>, c: nat, width: nat, pad: nat, bitLen: nat)
    requires pad <= width && 0 <= c * width <= (c + 1) * width <= |input|
    ensures Elements(input, c + 1, width, pad, bitLen) ==
            Elements(input, c, width, pad, bitLen) + [Element(input, c, width, pad, bitLen)]
  {
    hide BigEnd;
    hide Low;
    hide Pow2;
  }

  lemma ElementSmall(input: seq<Byte>, c: nat, width: nat, pad: nat, bitLen: nat)
    requires pad <= width && (c + 1) * width <= |input|
    ensures Element(input, c, width, pad, bitLen) < Pow2(bitLen)
  {
    hide BigEnd;
    hide Low;
    hide Pow2;
    ElementBounds(c, width, pad);
    LowBound(BigEnd(Nats(input[c * width + pad..(c + 1) * width]), 8), bitLen);
  }

  /** When the last byte is written every element has been read but for fewer than 8 bits. */
  lemma LastBits(input: seq<Byte>, n: nat, c: nat, width: nat, pad: nat, bitLen: nat, out: seq<Byte>, acc: nat,
                 bits: nat)
    requires Packing(input, n, width, pad, bitLen, c, out, acc, bits)
    requires 8 <= bitLen && 8 * |out| <= bitLen * n < 8 * |out| + 8 && bits < bitLen && n * width <= |input|
    requires pad <= width
    ensures Compressed(input, n, width, pad, bitLen, out)
  {
    hide Pow2;
    hide Low;
    hide Shr;
    hide BigEnd;
    hide Nats;
    hide Elements;
    AllRead(n, c, bitLen, 8 * |out|, bits);
    LowBound(acc, bits);
    Commute(BigEnd(Nats(out), 8), Pow2(bits));
    ShrUnique(BigEnd(Elements(input, n, width, pad, bitLen), bitLen), bits, BigEnd(Nats(out), 8), Low(acc, bits));
  }

  lemma AllRead(n: nat, c: nat, bitLen: nat, total: nat, bits: nat)
    requires c <= n && 8 <= bitLen && total <= bitLen * n < total + 8 && bitLen * c == total + bits && bits < bitLen
    ensures c == n
  {
    if c < n {
      MulMono(bitLen, c + 1, n);
      MulDist(bitLen, c, 1);
      assert false;
    }
  }

  // ---------- GetMinimalFromIndices ----------

  /** The four bytes of an index, most significant first. */
  function IndexBytes(x: Limb): (s: seq<Byte>)
    ensures |s| == 4 && forall p :: 0 <= p < 4 ==> s[p] == Low(Shr(x, 8 * (3 - p)), 8)
  {
    LowByte(Shr(x, 24));
    LowByte(Shr(x, 16));
    LowByte(Shr(x, 8));
    LowByte(Shr(x, 0));
    [Low(Shr(x, 24), 8), Low(Shr(x, 16), 8), Low(Shr(x, 8), 8), Low(Shr(x, 0), 8)]
  }

  lemma LowByte(x: nat)
    ensures Low(x, 8) < 256
  {
    LowBound(x, 8);
    Pow2Table();
  }

  /** Bytes a to b of an index, read as a number. */
  lemma {:induction false} BytesOfIndex(x: Limb, a: nat, b: nat)
    requires a <= b <= 4
    ensures BigEnd(Nats(IndexBytes(x)[a..b]), 8) == Low(Shr(x, 8 * (4 - b)), 8 * (b - a))
    decreases b
  {
    hide Pow2;
    hide Low;
    hide Shr;
    if a == b {
      NoLowBits(Shr(x, 8 * (4 - b)));
    } else {
      hide BigEnd;
      BytesOfIndex(x, a, b - 1);
      BytesSnoc(IndexBytes(x), a, b);
      NextByte(x, 8 * (4 - b), 8 * (b - 1 - a));
    }
  }

  lemma BytesSnoc(s: seq<Byte>, a: nat, b: nat)
    requires a < b <= |s|
    ensures BigEnd(Nats(s[a..b]), 8) == 256 * BigEnd(Nats(s[a..b - 1]), 8) + s[b - 1]
  {
    hide BigEnd;
    assert Nats(s[a..b]) == Nats(s[a..b - 1]) + [s[b - 1]];
    BigEndNext(Nats(s[a..b - 1]), s[b - 1], 8);
    Pow2Table();
  }

  /** n bits of x above position m + 8, followed by the 8 bits from m on. */
  lemma NextByte(x: nat, m: nat, n: nat)
    ensures 256 * Low(Shr(x, m + 8), n) + Low(Shr(x, m), 8) == Low(Shr(x, m), n + 8)
  {
    hide *;
    ShrShr(x, 8, m);
    ShrShr(Shr(x, m), n, 8);
    ByteUnit();
  }

  lemma ByteUnit()
    ensures Pow2(8) == 256
  {
    Pow2Table();
  }

  lemma NoLowBits(x: nat)
    ensures Low(x, 0) == 0
  {
  }

  /** The low bits of the numbers in s. */
  function Truncated(s: seq<Limb>, b: nat): (r: seq<nat>)
    ensures |r| == |s| && forall i :: 0 <= i < |s| ==> r[i] == Low(s[i], b)
  {
    seq(|s|, i requires 0 <= i < |s| => Low(s[i], b))
  }

  /** out is the big-endian concatenation of the digits, but for fewer than 8 bits at the end. */
  ghost predicate IsPacking(digits: seq<nat>, bitLen: nat, out: seq<Byte>)
  {
    && 8 * |out| <= bitLen * |digits| < 8 * |out| + 8
    && BigEnd(Nats(out), 8) == Shr(BigEnd(digits, bitLen), bitLen * |digits| - 8 * |out|)
  }

  method EhIndexToArray(x: Limb, a: array<Byte>, at: nat)
    requires at + 4 <= a.Length
    modifies a
    ensures a[at..at + 4] == IndexBytes(x) && a[..at] == old(a[..at]) && a[at + 4..] == old(a[at + 4..])
  {
    hide Low;
    hide Shr;
    var bytes := IndexBytes(x);
    a[at], a[at + 1], a[at + 2], a[at + 3] := bytes[0], bytes[1], bytes[2], bytes[3];
  }

  /** The low cBitLen + 1 bits of every index, packed. */
  method GetMinimalFromIndices(indices: seq<Limb>, cBitLen: nat) returns (ret: array<Byte>)
    requires 8 <= cBitLen + 1 <= 25 && (cBitLen + 1 + 7) / 8 <= 4
    ensures fresh(ret) && IsPacking(Truncated(indices, cBitLen + 1), cBitLen + 1, ret[..])
  {
    hide Low;
    hide Shr;
    hide Pow2;
    hide BigEnd;
    hide Elements;
    var lenIndices := |indices| * 4;
    var minLen := (cBitLen + 1) * lenIndices / (8 * 4);
    QuotientNat((cBitLen + 1) * lenIndices, 32);
    var bytePad := 4 - (cBitLen + 1 + 7) / 8;
    var a := new Byte[lenIndices];
    var i := 0;
    while i < |indices|
      invariant 0 <= i <= |indices|
      invariant forall k :: 0 <= k < i ==> a[4 * k..4 * k + 4] == IndexBytes(indices[k])
    {
      ghost var was := a[..4 * i];
      EhIndexToArray(indices[i], a, i * 4);
      forall k | 0 <= k < i
        ensures a[4 * k..4 * k + 4] == IndexBytes(indices[k])
      {
        assert was[4 * k..4 * k + 4] == a[4 * k..4 * k + 4];
      }
      i := i + 1;
    }
    ret := new Byte[minLen];
    MinimalLength(|indices|, cBitLen + 1);
    var inside := CompressArray(a, ret, cBitLen + 1, bytePad);
    ElementsAreIndices(a[..], indices, |indices|, bytePad, cBitLen + 1);
    assert indices[..|indices|] == indices;
  }

  lemma MinimalLength(n: nat, bitLen: nat)
    ensures Whole(n * 4, 4) == n && OutLength(bitLen, n * 4, 4) == bitLen * (n * 4) / 32
    ensures 8 * OutLength(bitLen, n * 4, 4) <= bitLen * n
  {
    hide Whole;
    OutputLength(4, bitLen, n * 4, OutLength(bitLen, n * 4, 4));
  }

  lemma {:induction false} ElementsAreIndices(input: seq<Byte>, indices: seq<Limb>, n: nat, pad: nat, bitLen: nat)
    requires n <= |indices| && |input| == 4 * |indices| && pad <= 4 && bitLen <= 8 * (4 - pad)
    requires forall k :: 0 <= k < |indices| ==> input[4 * k..4 * k + 4] == IndexBytes(indices[k])
    ensures Elements(input, n, 4, pad, bitLen) == Truncated(indices[..n], bitLen)
  {
    hide Low;
    hide Shr;
    hide Pow2;
    hide BigEnd;
    if n == 0 {
    } else {
      ElementsAreIndices(input, indices, n - 1, pad, bitLen);
      NextElement(input, n - 1, 4, pad, bitLen);
      var x := indices[n - 1];
      assert input[4 * (n - 1) + pad..4 * n] == input[4 * (n - 1)..4 * (n - 1) + 4][pad..4];
      BytesOfIndex(x, pad, 4);
      ShrNone(x);
      LowLow(x, 8 * (4 - pad), bitLen);
      assert Truncated(indices[..n], bitLen) == Truncated(indices[..n - 1], bitLen) + [Low(x, bitLen)];
    }
  }

  // ---------- what packing keeps ----------

  /** When the bits fill the bytes, different index vectors pack differently. */
  lemma PackingInjective(x: seq<nat>, y: seq<nat>, bitLen: nat, out: seq<Byte>)
    requires bitLen > 0 && Digits(x, bitLen) && Digits(y, bitLen)
    requires bitLen * |x| % 8 == 0 && bitLen * |y| % 8 == 0
    requires IsPacking(x, bitLen, out) && IsPacking(y, bitLen, out)
    ensures x == y
  {
    hide BigEnd;
    hide Shr;
    hide Nats;
    hide Digits;
    FullBytes(bitLen * |x|, |out|);
    FullBytes(bitLen * |y|, |out|);
    SameCount(bitLen, |x|, |y|);
    ShrNone(BigEnd(x, bitLen));
    ShrNone(BigEnd(y, bitLen));
    BigEndInjective(x, y, bitLen);
  }

  lemma FullBytes(total: nat, bytes: nat)
    requires total % 8 == 0 && 8 * bytes <= total < 8 * bytes + 8
    ensures total == 8 * bytes
  {
  }

  lemma SameCount(bitLen: nat, m: nat, n: nat)
    requires bitLen > 0 && bitLen * m == bitLen * n
    ensures m == n
  {
    if m < n {
      MulMono(bitLen, m + 1, n);
      MulDist(bitLen, m, 1);
    }
    if n < m {
      MulMono(bitLen, n + 1, m);
      MulDist(bitLen, n, 1);
    }
  }

  /** Otherwise the last bit of the last index is lost: n zeros and n - 1 zeros with a one pack alike. */
  lemma PackingLosesBits(bitLen: nat, n: nat, out: seq<Byte>)
    requires bitLen > 0 && n > 0 && bitLen * n % 8 != 0 && |out| == bitLen * n / 8
    requires forall i :: 0 <= i < |out| ==> out[i] == 0
    ensures var x := seq(n, _ => 0);
            var y := x[..n - 1] + [1];
            x != y && Digits(x, bitLen) && Digits(y, bitLen) && IsPacking(x, bitLen, out) && IsPacking(y, bitLen, out)
  {
    hide BigEnd;
    hide Shr;
    hide Pow2;
    var x: seq<nat> := seq(n, _ => 0);
    var y := x[..n - 1] + [1];
    var b := bitLen * n - 8 * |out|;
    assert x[n - 1] != y[n - 1];
    SomeBits(bitLen * n);
    Zeros(x, bitLen);
    Zeros(x[..n - 1], bitLen);
    Zeros(Nats(out), 8);
    BigEndNext(x[..n - 1], 1, bitLen);
    OneBelow(bitLen);
    OneBelow(b);
    ZeroTimes(Pow2(bitLen));
    LowSmall(0, b);
    LowSmall(1, b);
  }

  lemma SomeBits(total: nat)
    requires total % 8 != 0
    ensures 8 * (total / 8) < total < 8 * (total / 8) + 8
  {
  }

  lemma OneBelow(b: nat)
    requires b > 0
    ensures 1 < Pow2(b)
  {
  }

  lemma {:induction false} Zeros(s: seq<nat>, w: nat)
    requires forall i :: 0 <= i < |s| ==> s[i] == 0
    ensures BigEnd(s, w) == 0 && Digits(s, w)
  {
    hide Pow2;
    if s == [] {
    } else {
      Zeros(s[..|s| - 1], w);
      ZeroTimes(Pow2(w));
      assert 0 < Pow2(w);
    }
  }
}
