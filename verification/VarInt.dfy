/**
  The two variable-length encodings of serialize.h, written to and read from a stream
  of bytes: VarInt, one digit of seven bits a byte, and CompactSize.
*/
module VarInt {
  import opened Arith
  import opened Bytes

  const MAX_SIZE: nat := 0x0200_0000
  const U16: nat := 0x1_0000

  /** Bytes appended at the end and taken from the front. */
  class Stream {
    var data: seq<Byte>

    constructor (bytes: seq<Byte>)
      ensures data == bytes
    {
      data := bytes;
    }

    method WriteByte(b: Byte)
      modifies this
      ensures data == old(data) + [b]
    {
      data := data + [b];
    }

    /** Reading past the end is the failure of the original's stream. */
    method ReadByte() returns (ok: bool, b: Byte)
      modifies this
      ensures ok <==> old(data) != []
      ensures ok ==> old(data) == [b] + data
      ensures !ok ==> data == old(data)
    {
      if data == [] {
        return false, 0;
      }
      b := data[0];
      data := data[1..];
      return true, b;
    }
  }

  // ---------- VarInt ----------

  /** The digits of n, most significant first; all but the last of a number carry the high bit. */
  function Encode(n: nat, high: nat): (s: seq<Byte>)
    requires high == 0 || high == 0x80
    ensures s != []
    decreases n
  {
    if n <= 0x7f then [n + high] else Encode(n / 0x80 - 1, 0x80) + [n % 0x80 + high]
  }

  /** The number that a sequence of digits stands for. */
  function Value(s: seq<Byte>): nat
  {
    if s == [] then 0
    else
      var b := s[|s| - 1];
      Value(s[..|s| - 1]) * 0x80 + b % 0x80 + if b >= 0x80 then 1 else 0
  }

  /** Every byte but the last has the high bit. */
  predicate Terminated(s: seq<Byte>)
  {
    s != [] && s[|s| - 1] < 0x80 && forall i :: 0 <= i < |s| - 1 ==> s[i] >= 0x80
  }

  lemma {:induction false} EncodeShape(n: nat, high: nat)
    requires high == 0 || high == 0x80
    ensures var s := Encode(n, high);
            s[|s| - 1] == n % 0x80 + high && forall i :: 0 <= i < |s| - 1 ==> s[i] >= 0x80
  {
    if n <= 0x7f {
    } else {
      EncodeShape(n / 0x80 - 1, 0x80);
    }
  }

  /** Shorter, or as long and smaller in the first byte that differs. */
  predicate Before(s: seq<Byte>, t: seq<Byte>)
  {
    |s| < |t| || (|s| == |t| && exists k :: 0 <= k < |s| && s[..k] == t[..k] && s[k] < t[k])
  }

  /** Numbers are encoded in their order: shorter encodings first, then byte by byte. */
  lemma {:induction false} EncodeOrder(m: nat, n: nat, high: nat)
    requires m < n && (high == 0 || high == 0x80)
    ensures var s, t := Encode(m, high), Encode(n, high);
            |s| < |t| || (|s| == |t| && exists k :: 0 <= k < |s| && s[..k] == t[..k] && s[k] < t[k])
    decreases m
  {
    hide Encode;
    EncodeStep(m, high);
    EncodeStep(n, high);
    if n <= 0x7f {
      assert [m + high][..0] == [n + high][..0];
    } else if m > 0x7f {
      var i, j := m / 0x80 - 1, n / 0x80 - 1;
      if i < j {
        EncodeOrder(i, j, 0x80);
        BeforeLonger(Encode(i, 0x80), Encode(j, 0x80), m % 0x80 + high, n % 0x80 + high);
      } else {
        SameButLast(Encode(i, 0x80), m % 0x80 + high, n % 0x80 + high);
      }
    }
  }

  lemma EncodeStep(n: nat, high: nat)
    requires high == 0 || high == 0x80
    ensures Encode(n, high) == if n <= 0x7f then [n + high] else Encode(n / 0x80 - 1, 0x80) + [n % 0x80 + high]
  {
  }

  lemma SameButLast(p: seq<Byte>, a: Byte, b: Byte)
    requires a < b
    ensures Before(p + [a], p + [b])
  {
    assert (p + [a])[..|p|] == (p + [b])[..|p|];
  }

  lemma BeforeLonger(p: seq<Byte>, q: seq<Byte>, a: Byte, b: Byte)
    requires Before(p, q)
    ensures Before(p + [a], q + [b])
  {
    if |p| == |q| {
      var k :| 0 <= k < |p| && p[..k] == q[..k] && p[k] < q[k];
      assert (p + [a])[..k] == p[..k] && (q + [b])[..k] == q[..k];
    }
  }

  /**
    The examples in the comment of the source, as the code encodes them. Two are misprinted there:
    16511 as 80 FF 7F, which is 32895, and 65535 as 82 FD 7F, which is 65407.
  */
  lemma EncodeExamples()
    ensures Encode(0, 0) == [0x00] && Encode(1, 0) == [0x01] && Encode(127, 0) == [0x7F]
    ensures Encode(128, 0) == [0x80, 0x00] && Encode(255, 0) == [0x80, 0x7F] && Encode(256, 0) == [0x81, 0x00]
    ensures Encode(16383, 0) == [0xFE, 0x7F] && Encode(16384, 0) == [0xFF, 0x00]
    ensures Encode(16511, 0) == [0xFF, 0x7F] && Encode(32895, 0) == [0x80, 0xFF, 0x7F]
    ensures Encode(65535, 0) == [0x82, 0xFE, 0x7F] && Encode(65407, 0) == [0x82, 0xFD, 0x7F]
    ensures Encode(0x1_0000_0000, 0) == [0x8E, 0xFE, 0xFE, 0xFF, 0x00]
  {
    assert Encode(255, 0x80) == [0x80] + [0xFF];
    assert Encode(510, 0x80) == [0x82] + [0xFE];
    assert Encode(509, 0x80) == [0x82] + [0xFD];
    EncodeTwoToThe32();
  }

  lemma EncodeTwoToThe32()
    ensures Encode(0x1_0000_0000, 0) == [0x8E, 0xFE, 0xFE, 0xFF, 0x00]
  {
    hide Encode;
    EncodeStep(0x1_0000_0000, 0);
    EncodeStep(0x1FF_FFFF, 0x80);
    EncodeStep(0x3_FFFE, 0x80);
    EncodeStep(0x7FE, 0x80);
    EncodeStep(0xE, 0x80);
  }

  lemma ValueNext(s: seq<Byte>, b: Byte)
    ensures Value(s + [b]) == Value(s) * 0x80 + b % 0x80 + if b >= 0x80 then 1 else 0
  {
    assert (s + [b])[..|s|] == s;
  }

  /** Decoding what was encoded. */
  lemma {:induction false} ValueOfEncode(n: nat, high: nat)
    requires high == 0 || high == 0x80
    ensures Value(Encode(n, high)) == n + high / 0x80
  {
    hide Value;
    if n <= 0x7f {
      ValueNext([], n + high);
      ValueNothing();
      assert [] + [n + high] == Encode(n, high);
    } else {
      ValueOfEncode(n / 0x80 - 1, 0x80);
      ValueNext(Encode(n / 0x80 - 1, 0x80), n % 0x80 + high);
    }
  }

  lemma ValueNothing()
    ensures Value([]) == 0
  {
  }

  lemma EncodeNext(v: nat, d: nat, high: nat)
    requires v >= 1 && d < 0x80 && (high == 0 || high == 0x80)
    ensures Encode(v * 0x80 + d, high) == Encode(v - 1, 0x80) + [d + high]
  {
  }

  lemma EncodeOne(d: nat, high: nat)
    requires d < 0x80 && (high == 0 || high == 0x80)
    ensures Encode(d, high) == [d + high]
  {
  }

  /** Digits that all carry the high bit encode their value less one. */
  lemma {:induction false} EncodeOfHigh(s: seq<Byte>)
    requires s != [] && forall i :: 0 <= i < |s| ==> s[i] >= 0x80
    ensures Value(s) >= 1 && Encode(Value(s) - 1, 0x80) == s
  {
    hide Value;
    hide Encode;
    var n := |s| - 1;
    var b := s[n];
    assert s == s[..n] + [b];
    ValueNext(s[..n], b);
    if n == 0 {
      ValueNothing();
      EncodeOne(b - 0x80, 0x80);
    } else {
      EncodeOfHigh(s[..n]);
      EncodeNext(Value(s[..n]), b - 0x80, 0x80);
    }
  }

  /** Every terminated sequence is the encoding of its value: the encoding is one-to-one. */
  lemma EncodeOfValue(s: seq<Byte>)
    requires Terminated(s)
    ensures Encode(Value(s), 0) == s
  {
    hide Value;
    hide Encode;
    var n := |s| - 1;
    var b := s[n];
    assert s == s[..n] + [b];
    ValueNext(s[..n], b);
    if n == 0 {
      ValueNothing();
      EncodeOne(b, 0);
    } else {
      EncodeOfHigh(s[..n]);
      EncodeNext(Value(s[..n]), b, 0);
    }
  }

  /** A number below 2^bits needs at most (bits + 6) / 7 digits. */
  lemma {:induction false} EncodeFits(n: nat, high: nat, bits: nat)
    requires (high == 0 || high == 0x80) && bits > 0 && n < Pow2(bits)
    ensures |Encode(n, high)| <= (bits + 6) / 7
  {
    if n <= 0x7f {
    } else {
      ShorterBy7(n, bits);
      EncodeFits(n / 0x80 - 1, 0x80, bits - 7);
    }
  }

  lemma ShorterBy7(n: nat, bits: nat)
    requires 0x7f < n < Pow2(bits)
    ensures bits > 7 && n / 0x80 < Pow2(bits - 7)
  {
    Pow2Table();
    if bits <= 7 {
      LowPowers(bits);
    } else {
      hide Pow2;
      Pow2Add(7, bits - 7);
    }
  }

  lemma LowPowers(bits: nat)
    requires bits <= 7
    ensures Pow2(bits) <= 0x80
  {
    Pow2Table();
    hide Pow2;
    Pow2Add(bits, 7 - bits);
    MulMono(Pow2(bits), 1, Pow2(7 - bits));
  }

  method GetSizeOfVarInt(n: nat) returns (size: nat)
    ensures size == |Encode(n, 0)|
  {
    size := 0;
    var m := n;
    ghost var high := 0;
    while true
      invariant (high == 0 || high == 0x80) && size + |Encode(m, high)| == |Encode(n, 0)|
      decreases m
    {
      size := size + 1;
      if m <= 0x7f {
        break;
      }
      m := m / 0x80 - 1;
      high := 0x80;
    }
  }

  /** The digits of n in a buffer of (bits + 6) / 7 bytes, the last digit first. */
  method CollectDigits(n: nat, bits: nat) returns (tmp: array<Byte>, len: nat)
    requires bits > 0 && n < Pow2(bits)
    ensures fresh(tmp) && tmp.Length == (bits + 6) / 7 && len < tmp.Length && Backwards(tmp[..len + 1]) == Encode(n, 0)
  {
    hide Pow2;
    hide Encode;
    hide Backwards;
    EncodeFits(n, 0, bits);
    tmp := new Byte[(bits + 6) / 7];
    len := 0;
    var m := n;
    ghost var high := 0;
    CollectStart(n);
    assert tmp[..0] == [];
    while true
      invariant 0 <= m && high == (if len == 0 then 0 else 0x80)
      invariant len + |Encode(m, high)| == |Encode(n, 0)| <= tmp.Length
      invariant Encode(m, high) + Backwards(tmp[..len]) == Encode(n, 0)
      decreases m
    {
      ghost var done := tmp[..len];
      DigitOf(m, high);
      tmp[len] := m % 0x80 + (if len != 0 then 0x80 else 0);
      BackwardsNext(done, tmp[len]);
      assert tmp[..len + 1] == done + [tmp[len]];
      if m <= 0x7f {
        break;
      }
      assert Encode(m / 0x80 - 1, 0x80) + Backwards(tmp[..len + 1]) == Encode(n, 0);
      m := m / 0x80 - 1;
      len := len + 1;
      high := 0x80;
    }
  }

  lemma CollectStart(n: nat)
    ensures Encode(n, 0) + Backwards([]) == Encode(n, 0)
  {
  }

  lemma DigitOf(m: nat, high: nat)
    requires high == 0 || high == 0x80
    ensures m % 0x80 + high < 0x100
    ensures m <= 0x7f ==> Encode(m, high) == [m % 0x80 + high]
    ensures m > 0x7f ==> m / 0x80 - 1 >= 0 && Encode(m, high) == Encode(m / 0x80 - 1, 0x80) + [m % 0x80 + high]
  {
  }

  /** The digits collected are written backwards. */
  method WriteVarInt(os: Stream, n: nat, bits: nat)
    requires bits > 0 && n < Pow2(bits)
    modifies os
    ensures os.data == old(os.data) + Encode(n, 0)
  {
    hide Pow2;
    hide Encode;
    hide Backwards;
    var tmp, len := CollectDigits(n, bits);
    var k: int := len;
    while k >= 0
      invariant -1 <= k <= len < tmp.Length
      invariant os.data + Backwards(tmp[..k + 1]) == old(os.data) + Encode(n, 0)
    {
      BackwardsNext(tmp[..k], tmp[k]);
      assert tmp[..k + 1] == tmp[..k] + [tmp[k]];
      ghost var start := os.data;
      os.WriteByte(tmp[k]);
      assert os.data + Backwards(tmp[..k]) == start + ([tmp[k]] + Backwards(tmp[..k]));
      k := k - 1;
    }
    NoDigits();
    assert tmp[..0] == [];
  }

  lemma NoDigits()
    ensures Backwards([]) == []
  {
  }

  function Backwards(s: seq<Byte>): (r: seq<Byte>)
    ensures |r| == |s|
  {
    if s == [] then [] else [s[|s| - 1]] + Backwards(s[..|s| - 1])
  }

  lemma BackwardsNext(s: seq<Byte>, b: Byte)
    ensures Backwards(s + [b]) == [b] + Backwards(s)
  {
    assert (s + [b])[..|s|] == s;
  }

  /** How many bytes there are up to and including the first without the high bit; none when there is no such byte. */
  function Extent(s: seq<Byte>): (n: nat)
    ensures n <= |s|
    ensures n > 0 ==> Terminated(s[..n])
    ensures n == 0 ==> forall i :: 0 <= i < |s| ==> s[i] >= 0x80
  {
    if s == [] then 0
    else if s[0] < 0x80 then 1
    else
      var n := Extent(s[1..]);
      assert n > 0 ==> s[..n + 1] == [s[0]] + s[1..][..n];
      if n == 0 then 0 else n + 1
  }

  /**
    Reads up to the first byte without the high bit. The sum is kept in `bits` bits, so
    it is the value of the bytes read modulo 2^bits.
  */
  method ReadVarInt(input: Stream, bits: nat) returns (ok: bool, n: nat)
    requires bits >= 7
    modifies input
    ensures ok <==> Extent(old(input.data)) > 0
    ensures ok ==> var k := Extent(old(input.data));
                   n == Value(old(input.data)[..k]) % Pow2(bits) && input.data == old(input.data)[k..]
  {
    hide Pow2;
    hide Value;
    hide Extent;
    ValueNothing();
    n := 0;
    ghost var all := input.data;
    ghost var read: seq<Byte> := [];
    SmallMod(0, Pow2(bits));
    while true
      invariant n == Value(read) % Pow2(bits) && all == read + input.data
      invariant forall i :: 0 <= i < |read| ==> read[i] >= 0x80
      decreases |input.data|
    {
      var more, b := input.ReadByte();
      if !more {
        ExtentAfter(read, []);
        ExtentOne([]);
        assert all == read + [];
        return false, 0;
      }
      ReadDigit(read, b, n, Pow2(bits), bits);
      n := n * 0x80 % Pow2(bits) + b % 0x80;
      assert all == (read + [b]) + input.data;
      ghost var before := read;
      read := read + [b];
      if b >= 0x80 {
        n := (n + 1) % Pow2(bits);
      } else {
        ExtentAfter(before, [b] + input.data);
        ExtentOne([b] + input.data);
        assert all == before + ([b] + input.data);
        assert all[..|read|] == read && all[|read|..] == input.data;
        return true, n;
      }
    }
  }

  lemma ExtentOne(s: seq<Byte>)
    ensures s == [] ==> Extent(s) == 0
    ensures s != [] && s[0] < 0x80 ==> Extent(s) == 1
  {
  }

  lemma SmallMod(x: nat, m: nat)
    requires x < m
    ensures x % m == x
  {
  }

  /** Bytes with the high bit do not end a number. */
  lemma {:induction false} ExtentAfter(read: seq<Byte>, rest: seq<Byte>)
    requires forall i :: 0 <= i < |read| ==> read[i] >= 0x80
    ensures Extent(read + rest) == if Extent(rest) == 0 then 0 else |read| + Extent(rest)
  {
    if read == [] {
      assert read + rest == rest;
    } else {
      ExtentAfter(read[1..], rest);
      assert (read + rest)[1..] == read[1..] + rest;
    }
  }

  /** One digit more, modulo a power of two that keeps seven bits. */
  lemma ReadDigit(read: seq<Byte>, b: Byte, n: nat, m: nat, bits: nat)
    requires bits >= 7 && m == Pow2(bits) && n == Value(read) % m
    ensures 0 <= n * 0x80 % m + b % 0x80 < m
    ensures b < 0x80 ==> n * 0x80 % m + b % 0x80 == Value(read + [b]) % m
    ensures b >= 0x80 ==> (n * 0x80 % m + b % 0x80 + 1) % m == Value(read + [b]) % m
  {
    ValueNext(read, b);
    PowOf7(bits);
    hide *;
    ScaledRoom(n, Pow2(bits - 7), m, b % 0x80);
    var d := b % 0x80 + if b >= 0x80 then 1 else 0;
    ScaledMod(Value(read), m, d);
    ScaledSum(n, m, d);
    SmallMod(n * 0x80 % m + b % 0x80, m);
  }

  lemma PowOf7(bits: nat)
    requires bits >= 7
    ensures Pow2(bits) == Pow2(bits - 7) * 0x80
  {
    Pow2Table();
    hide Pow2;
    Pow2Add(bits - 7, 7);
  }

  /** A multiple of 128 below m leaves room for a digit. */
  lemma ScaledRoom(n: nat, q: nat, m: nat, d: nat)
    requires m == q * 0x80 && d < 0x80 && q > 0
    ensures 0 <= n * 0x80 % m && n * 0x80 % m + d < m
  {
    DivMod(n, q);
    var h, l := n / q, n % q;
    MulAssoc(0x80, q, h);
    DivUnique(n * 0x80, m, h, l * 0x80);
  }

  lemma ScaledMod(v: nat, m: nat, d: nat)
    requires m > 0
    ensures (v % m * 0x80 + d) % m == (v * 0x80 + d) % m
  {
    DivMod(v, m);
    var q, r := v / m, v % m;
    MulAssoc(m, q, 0x80);
    ModShift(m, q * 0x80, r * 0x80 + d);
  }

  lemma ScaledSum(n: nat, m: nat, d: nat)
    requires m > 0
    ensures (n * 0x80 % m + d) % m == (n * 0x80 + d) % m
  {
    var x := n * 0x80;
    DivMod(x, m);
    ModShift(m, x / m, x % m + d);
  }

  /** What is read after writing n is n, and whatever follows is left alone. */
  lemma ReadUndoesWrite(n: nat, bits: nat, suffix: seq<Byte>)
    requires n < Pow2(bits)
    ensures var s := Encode(n, 0);
            && Extent(s + suffix) == |s| && (s + suffix)[..|s|] == s && (s + suffix)[|s|..] == suffix
            && Value(s) % Pow2(bits) == n
  {
    hide Encode;
    hide Value;
    hide Pow2;
    hide Extent;
    var s := Encode(n, 0);
    EncodeShape(n, 0);
    var last := s[|s| - 1];
    ExtentAfter(s[..|s| - 1], [last] + suffix);
    ExtentOne([last] + suffix);
    assert s + suffix == s[..|s| - 1] + ([last] + suffix);
    ValueOfEncode(n, 0);
    SmallMod(n, Pow2(bits));
  }

  /** The bytes read are the encoding of the number returned exactly when their value fits its type. */
  lemma ReadIsCanonical(s: seq<Byte>, bits: nat)
    requires Terminated(s)
    ensures Encode(Value(s) % Pow2(bits), 0) == s <==> Value(s) < Pow2(bits)
  {
    hide Encode;
    hide Value;
    hide Pow2;
    EncodeOfValue(s);
    ValueOfEncode(Value(s) % Pow2(bits), 0);
    DivMod(Value(s), Pow2(bits));
    if Value(s) < Pow2(bits) {
      SmallMod(Value(s), Pow2(bits));
    }
  }

  // ---------- CompactSize ----------

  /** Bytes that follow the first one. */
  function Width(n: nat): nat
  {
    if n < 253 then 0 else if n < U16 then 2 else if n < U32 then 4 else 8
  }

  function CompactSize(n: nat): (s: seq<Byte>)
    ensures |s| == 1 + Width(n)
  {
    if n < 253 then [n]
    else if n < U16 then [253] + LittleEndian(n, 2)
    else if n < U32 then [254] + LittleEndian(n, 4)
    else [255] + LittleEndian(n, 8)
  }

  /** The bytes of a size. */
  lemma CompactBytes(n: nat)
    requires n < U64
    ensures n < 253 ==> CompactSize(n) == [n]
    ensures 253 <= n < 0x1_0000 ==> CompactSize(n) == [253, n % 0x100, n / 0x100]
    ensures 0x1_0000 <= n < 0x1_0000_0000 ==>
              CompactSize(n) == [254, n % 0x100, n / 0x100 % 0x100, n / 0x1_0000 % 0x100, n / 0x100_0000]
    ensures 0x1_0000_0000 <= n ==>
              |CompactSize(n)| == 9 && CompactSize(n)[0] == 255 &&
              forall i :: 0 <= i < 8 ==> CompactSize(n)[1 + i] == n / Pow2(8 * i) % 0x100
  {
    hide Pow2;
    if n >= U32 {
      hide LittleEndian;
      forall i | 0 <= i < 8
        ensures CompactSize(n)[1 + i] == n / Pow2(8 * i) % 0x100
      {
        LittleEndianAt(n, 8, i);
      }
    } else if n >= U16 {
      DivDiv(n, 0x100, 0x100);
      DivDiv(n, 0x1_0000, 0x100);
      FourLow(n);
    } else if n >= 253 {
      TwoLow(n);
    }
  }

  lemma TwoLow(n: nat)
    requires n < U16
    ensures LittleEndian(n, 2) == [n % 0x100, n / 0x100]
  {
    assert LittleEndian(n / 0x100, 1) == [n / 0x100 % 0x100] + LittleEndian(n / 0x100 / 0x100, 0);
  }

  lemma FourLow(n: nat)
    requires n < U32
    ensures LittleEndian(n, 4) ==
            [n % 0x100, n / 0x100 % 0x100, n / 0x100 / 0x100 % 0x100, n / 0x100 / 0x100 / 0x100]
  {
    var m := n / 0x100 / 0x100;
    assert LittleEndian(n / 0x100, 3) == [n / 0x100 % 0x100] + LittleEndian(m, 2);
    TwoLow(m);
  }

  function GetSizeOfCompactSize(n: nat): (size: nat)
    requires n < U64
    ensures size == |CompactSize(n)|
  {
    if n < 253 then 1 else if n <= 0xffff then 1 + 2 else if n <= 0xffff_ffff then 1 + 4 else 1 + 8
  }

  method WriteData(os: Stream, n: nat, k: nat)
    modifies os
    ensures os.data == old(os.data) + LittleEndian(n, k)
  {
    var m := n;
    var i := 0;
    while i < k
      invariant 0 <= i <= k && os.data + LittleEndian(m, k - i) == old(os.data) + LittleEndian(n, k)
    {
      ghost var start, rest := os.data, LittleEndian(m / 0x100, k - i - 1);
      os.WriteByte(m % 0x100);
      assert os.data + rest == start + ([m % 0x100] + rest);
      m := m / 0x100;
      i := i + 1;
    }
  }

  method ReadData(input: Stream, k: nat) returns (ok: bool, n: nat)
    modifies input
    ensures ok <==> |old(input.data)| >= k
    ensures ok ==> n == FromLittleEndian(old(input.data)[..k]) && input.data == old(input.data)[k..]
  {
    ghost var all := input.data;
    var bytes: seq<Byte> := [];
    while |bytes| < k
      invariant |bytes| <= k && all == bytes + input.data
    {
      var more, b := input.ReadByte();
      if !more {
        return false, 0;
      }
      bytes := bytes + [b];
    }
    assert all[..k] == bytes;
    return true, FromLittleEndian(bytes);
  }

  method WriteCompactSize(os: Stream, n: nat)
    requires n < U64
    modifies os
    ensures os.data == old(os.data) + CompactSize(n)
  {
    hide LittleEndian;
    if n < 253 {
      os.WriteByte(n);
    } else if n <= 0xffff {
      os.WriteByte(253);
      WriteData(os, n, 2);
    } else if n <= 0xffff_ffff {
      os.WriteByte(254);
      WriteData(os, n, 4);
    } else {
      os.WriteByte(255);
      WriteData(os, n, 8);
    }
  }

  /** How many bytes follow a first byte b. */
  function Following(b: Byte): nat
  {
    if b < 253 then 0 else if b == 253 then 2 else if b == 254 then 4 else 8
  }

  /** The smallest size that is written with k bytes after the first. */
  function Least(k: nat): nat
  {
    if k == 0 then 0 else if k == 2 then 253 else if k == 4 then U16 else U32
  }

  datatype SizeResult = Size(n: nat) | EndOfData | NonCanonical | TooLarge

  /** What the bytes at the front of a stream are read as. */
  function ReadSize(s: seq<Byte>): SizeResult
  {
    if s == [] || |s| < 1 + Following(s[0]) then EndOfData
    else
      var k := Following(s[0]);
      var n := if k == 0 then s[0] else FromLittleEndian(s[1..1 + k]);
      if n < Least(k) then NonCanonical else if n > MAX_SIZE then TooLarge else Size(n)
  }

  method ReadCompactSize(input: Stream) returns (r: SizeResult)
    modifies input
    ensures r == ReadSize(old(input.data))
    ensures r.Size? ==> 1 + Width(r.n) <= |old(input.data)| && input.data == old(input.data)[1 + Width(r.n)..]
  {
    hide FromLittleEndian;
    hide LittleEndian;
    hide Width;
    ghost var all := input.data;
    var ok, chSize := input.ReadByte();
    if !ok {
      return EndOfData;
    }
    var n: nat := chSize;
    if chSize == 253 {
      ok, n := ReadData(input, 2);
    } else if chSize == 254 {
      ok, n := ReadData(input, 4);
    } else if chSize == 255 {
      ok, n := ReadData(input, 8);
    }
    if !ok {
      return EndOfData;
    }
    ReadParts(all, Following(chSize));
    if (chSize == 253 && n < 253) || (chSize == 254 && n < U16) || (chSize == 255 && n < U32) {
      return NonCanonical;
    }
    if n > MAX_SIZE {
      return TooLarge;
    }
    ReadSizeOnly(all, n);
    return Size(n);
  }

  lemma ReadParts(s: seq<Byte>, k: nat)
    requires |s| >= 1 + k
    ensures s[1..][..k] == s[1..1 + k] && s[1..][k..] == s[1 + k..]
  {
  }

  lemma CompactParts(n: nat, k: nat)
    requires n < U64 && k == Width(n)
    ensures k > 0 ==> CompactSize(n)[1..] == LittleEndian(n, k) && FromLittleEndian(LittleEndian(n, k)) == n
  {
    WidePowers();
    if k > 0 {
      LittleEndianBack(n, k);
    }
  }

  lemma WidePowers()
    ensures Pow2(16) == U16 && Pow2(32) == U32 && Pow2(64) == U64
  {
    Pow2Table();
    hide Pow2;
    Pow2Add(8, 8);
    Pow2Add(16, 16);
    Pow2Add(32, 32);
  }

  /** A size is read exactly from its encoding, and only sizes up to MAX_SIZE. */
  lemma ReadSizeExact(s: seq<Byte>, n: nat)
    ensures ReadSize(s) == Size(n) <==> n <= MAX_SIZE && |s| >= 1 + Width(n) && s[..1 + Width(n)] == CompactSize(n)
  {
    if ReadSize(s) == Size(n) {
      ReadSizeOnly(s, n);
    }
    if n <= MAX_SIZE && |s| >= 1 + Width(n) && s[..1 + Width(n)] == CompactSize(n) {
      ReadSizeBack(s, n);
    }
  }

  /**
    When reading a size fails, on the bytes: it runs out of data, or the size has a shorter
    encoding, or it is above MAX_SIZE.
  */
  lemma ReadSizeFailures(s: seq<Byte>)
    ensures ReadSize(s) == EndOfData <==>
            s == [] || (s[0] == 253 && |s| < 3) || (s[0] == 254 && |s| < 5) || (s[0] == 255 && |s| < 9)
    ensures ReadSize(s) == NonCanonical <==>
            && s != []
            && ((s[0] == 253 && |s| >= 3 && s[1] < 253 && s[2] == 0) ||
                (s[0] == 254 && |s| >= 5 && s[3] == 0 && s[4] == 0) ||
                (s[0] == 255 && |s| >= 9 && s[5] == 0 && s[6] == 0 && s[7] == 0 && s[8] == 0))
    ensures ReadSize(s) == TooLarge <==>
            && s != []
            && ((s[0] == 254 && |s| >= 5 && (s[4] > 2 || (s[4] == 2 && !(s[1] == s[2] == s[3] == 0)))) ||
                (s[0] == 255 && |s| >= 9 && !(s[5] == s[6] == s[7] == s[8] == 0)))
    ensures ReadSize([253, 1, 0]) == NonCanonical
  {
    hide FromLittleEndian;
    if s != [] {
      if s[0] == 253 && |s| >= 3 {
        FromTwo(s[1..3]);
      } else if s[0] == 254 && |s| >= 5 {
        FromFour(s[1..5]);
      } else if s[0] == 255 && |s| >= 9 {
        FromEight(s[1..9]);
      }
    }
    FromTwo([253, 1, 0][1..3]);
  }

  lemma FromTwo(b: seq<Byte>)
    requires |b| == 2
    ensures FromLittleEndian(b) == b[0] as nat + 0x100 * b[1] as nat
  {
    assert FromLittleEndian(b[1..]) == b[1] + 0x100 * FromLittleEndian(b[1..][1..]);
  }

  lemma FromFour(b: seq<Byte>)
    requires |b| == 4
    ensures FromLittleEndian(b) == b[0] as nat + 0x100 * b[1] as nat + 0x1_0000 * b[2] as nat + 0x100_0000 * b[3] as nat
  {
    hide FromLittleEndian;
    FromFirst(b);
    FromFirst(b[1..]);
    FromTwo(b[2..]);
    assert b[1..][1..] == b[2..];
  }

  lemma FromFirst(b: seq<Byte>)
    requires b != []
    ensures FromLittleEndian(b) == b[0] + 0x100 * FromLittleEndian(b[1..])
  {
  }

  lemma FromEight(b: seq<Byte>)
    requires |b| == 8
    ensures FromLittleEndian(b) ==
            b[0] as nat + 0x100 * b[1] as nat + 0x1_0000 * b[2] as nat + 0x100_0000 * b[3] as nat
            + U32 * (b[4] as nat + 0x100 * b[5] as nat + 0x1_0000 * b[6] as nat + 0x100_0000 * b[7] as nat)
  {
    hide FromLittleEndian;
    FromFirst(b);
    FromFirst(b[1..]);
    FromFirst(b[2..]);
    FromFirst(b[3..]);
    FromFour(b[4..]);
    assert b[1..][1..] == b[2..] && b[2..][1..] == b[3..] && b[3..][1..] == b[4..];
  }

  lemma ReadSizeBack(s: seq<Byte>, n: nat)
    requires n <= MAX_SIZE && |s| >= 1 + Width(n) && s[..1 + Width(n)] == CompactSize(n)
    ensures ReadSize(s) == Size(n)
  {
    hide FromLittleEndian;
    hide LittleEndian;
    var k := Width(n);
    CompactParts(n, k);
    assert s[0] == CompactSize(n)[0];
    assert s[1..1 + k] == CompactSize(n)[1..];
  }

  lemma ReadSizeOnly(s: seq<Byte>, n: nat)
    requires ReadSize(s) == Size(n)
    ensures n <= MAX_SIZE && |s| >= 1 + Width(n) && s[..1 + Width(n)] == CompactSize(n) && Width(n) == Following(s[0])
  {
    hide FromLittleEndian;
    hide LittleEndian;
    var k := Following(s[0]);
    LittleEndianOnly(s[1..1 + k]);
    assert s[..1 + k] == [s[0]] + s[1..1 + k];
    if k > 0 {
      WidthOf(n, k);
    }
  }

  lemma WidthOf(n: nat, k: nat)
    requires (k == 2 || k == 4 || k == 8) && Least(k) <= n < Pow2(8 * k)
    ensures Width(n) == k
  {
    WidePowers();
  }
}
