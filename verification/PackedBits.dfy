/**
  Packing bit by bit: which bit of which index a bit of the packed bytes is.
*/
module PackedBits {
  import opened Arith
  import opened Limbs
  import opened Compress

  /** Bit i of digit k, counted from the most significant digit but the least significant bit. */
  lemma {:induction false} BigEndBit(s: seq<nat>, w: nat, k: nat, i: nat)
    requires Digits(s, w) && k < |s| && i < w
    ensures BitAt(BigEnd(s, w), w * (|s| - 1 - k) + i) == BitAt(s[k], i)
  {
    hide *;
    var n := |s| - 1;
    LastDigitOf(s, w);
    if k == n {
      NoDigits(w);
      JoinedBits(BigEnd(s[..n], w), s[n], w, i);
    } else {
      OneDigitLess(w, n - k, i);
      JoinedBits(BigEnd(s[..n], w), s[n], w, w * (n - k) + i);
      BigEndBit(s[..n], w, k, i);
    }
  }

  lemma LastDigitOf(s: seq<nat>, w: nat)
    requires s != [] && Digits(s, w)
    ensures var n := |s| - 1;
            BigEnd(s, w) == BigEnd(s[..n], w) * Pow2(w) + s[n] && s[n] < Pow2(w) && Digits(s[..n], w)
  {
    hide Pow2;
  }

  lemma NoDigits(w: nat)
    ensures w * 0 == 0
  {
  }

  lemma OneDigitLess(w: nat, d: nat, i: nat)
    requires d > 0
    ensures w * d + i >= w && w * d + i - w == w * (d - 1) + i
  {
    MulDist(w, d - 1, 1);
  }

  /**
    The bits of the bytes, each from its most significant one, are those of the digits, each from
    its most significant one: bit i of byte k is bit e of digit d where they stand in the same place.
  */
  lemma PackingBit(digits: seq<nat>, bitLen: nat, out: seq<Byte>, k: nat, i: nat, d: nat, e: nat)
    requires Digits(digits, bitLen) && IsPacking(digits, bitLen, out)
    requires k < |out| && i < 8 && e < bitLen && 8 * k + i == bitLen * d + e
    ensures d < |digits| && BitAt(out[k], 7 - i) == BitAt(digits[d], bitLen - 1 - e)
  {
    hide Pow2, BitAt, BigEnd, Shr, Digits;
    DigitInside(|digits|, bitLen, |out|, k, i, d, e);
    BytesDigits(out);
    BigEndBit(Nats(out), 8, k, 7 - i);
    BigEndBit(digits, bitLen, d, bitLen - 1 - e);
    ShrBit(BigEnd(digits, bitLen), bitLen * |digits| - 8 * |out|, 8 * (|out| - 1 - k) + (7 - i));
  }

  lemma BytesDigits(s: seq<Byte>)
    ensures Digits(Nats(s), 8)
  {
    Pow2Table();
  }

  /** The place of a bit, counted from the other end. */
  lemma DigitInside(n: nat, w: nat, bytes: nat, k: nat, i: nat, d: nat, e: nat)
    requires k < bytes && i < 8 && e < w && 8 * k + i == w * d + e && 8 * bytes <= w * n
    ensures d < n
    ensures w * (n - 1 - d) + (w - 1 - e) == (w * n - 8 * bytes) + (8 * (bytes - 1 - k) + (7 - i))
  {
    if d >= n {
      MulMono(w, n, d);
      assert false;
    }
    MulDist(w, n - 1 - d, d + 1);
    MulDist(w, d, 1);
  }

  /** What GetMinimalFromIndices puts out: the low bits of the indices, most significant bit first. */
  lemma MinimalBit(indices: seq<Limb>, bitLen: nat, out: seq<Byte>, k: nat, i: nat, d: nat, e: nat)
    requires IsPacking(Truncated(indices, bitLen), bitLen, out)
    requires k < |out| && i < 8 && e < bitLen && 8 * k + i == bitLen * d + e
    ensures |out| == bitLen * |indices| / 8 && d < |indices|
    ensures BitAt(out[k], 7 - i) == BitAt(indices[d], bitLen - 1 - e)
  {
    hide Pow2, BitAt, BigEnd, Shr, Low, Nats;
    TruncatedDigits(indices, bitLen);
    PackingBit(Truncated(indices, bitLen), bitLen, out, k, i, d, e);
    LowBit(indices[d], bitLen, bitLen - 1 - e);
    PackedLength(bitLen * |indices|, |out|);
  }

  lemma TruncatedDigits(indices: seq<Limb>, bitLen: nat)
    ensures Digits(Truncated(indices, bitLen), bitLen)
  {
    hide Pow2, Low;
    forall j | 0 <= j < |indices|
      ensures Truncated(indices, bitLen)[j] < Pow2(bitLen)
    {
      LowBound(indices[j], bitLen);
    }
  }

  lemma PackedLength(total: nat, bytes: nat)
    requires 8 * bytes <= total < 8 * bytes + 8
    ensures bytes == total / 8
  {
  }

  /**
    What CompressArray puts out: bit i of byte k is bit e of the low bitLen bits of element c, and so
    bit t, counted from the least significant one, of the byte that is m bytes before the element's end.
  */
  lemma CompressedBit(input: seq<Byte>, n: nat, width: nat, pad: nat, bitLen: nat, out: seq<Byte>,
                      k: nat, i: nat, c: nat, m: nat, t: nat)
    requires pad <= width && n * width <= |input| && Compressed(input, n, width, pad, bitLen, out)
    requires k < |out| && i < 8 && t < 8 && 8 * m + t < bitLen && m < width - pad
    requires 8 * k + i == bitLen * c + (bitLen - 1 - (8 * m + t))
    ensures c < n && 0 <= c * width && c * width + width - 1 - m < |input|
    ensures BitAt(out[k], 7 - i) == BitAt(input[c * width + width - 1 - m], t)
  {
    hide Pow2, BitAt, BigEnd, Shr, Low, Nats, Elements, Element;
    var elements := Elements(input, n, width, pad, bitLen);
    PackingBit(elements, bitLen, out, k, i, c, bitLen - 1 - (8 * m + t));
    ElementInside(n, width, c, m);
    ElementsAt(input, n, width, pad, bitLen, c);
    ElementBit(input, c, width, pad, bitLen, m, t);
  }

  lemma ElementInside(n: nat, width: nat, c: nat, m: nat)
    requires c < n && m < width
    ensures 0 <= c * width <= c * width + width - 1 - m < (c + 1) * width == c * width + width <= n * width
  {
    MulMono(width, c + 1, n);
    MulDist(width, c, 1);
  }

  lemma {:induction false} ElementsAt(input: seq<Byte>, n: nat, width: nat, pad: nat, bitLen: nat, c: nat)
    requires pad <= width && n * width <= |input| && c < n && (c + 1) * width <= |input|
    ensures Elements(input, n, width, pad, bitLen)[c] == Element(input, c, width, pad, bitLen)
  {
    hide Element;
    FewerElements(n, width);
    if c < n - 1 {
      ElementsAt(input, n - 1, width, pad, bitLen, c);
    }
  }

  lemma ElementBit(input: seq<Byte>, c: nat, width: nat, pad: nat, bitLen: nat, m: nat, t: nat)
    requires pad <= width && 0 <= c * width <= c * width + width == (c + 1) * width <= |input|
    requires t < 8 && 8 * m + t < bitLen && m < width - pad
    ensures BitAt(Element(input, c, width, pad, bitLen), 8 * m + t) == BitAt(input[c * width + width - 1 - m], t)
  {
    hide Pow2, BitAt, BigEnd, Low;
    var bytes := input[c * width + pad..(c + 1) * width];
    LowBit(BigEnd(Nats(bytes), 8), bitLen, 8 * m + t);
    BytesDigits(bytes);
    BigEndBit(Nats(bytes), 8, |bytes| - 1 - m, t);
  }
}
