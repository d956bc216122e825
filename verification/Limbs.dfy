/**
  Numbers written as 32-bit limbs, the least significant first, and the shifts and
  sums on them that 256-bit arithmetic is made of.
*/
module Limbs {
  import opened Arith

  type Limb = x: nat | x < U32

  /** U32 to the power n. */
  function PowB(n: nat): (p: nat)
    ensures p >= 1
  {
    if n == 0 then 1 else U32 * PowB(n - 1)
  }

  function Value(s: seq<Limb>): nat
  {
    if s == [] then 0 else s[0] + U32 * Value(s[1..])
  }

  lemma {:induction false} PowBAdd(m: nat, n: nat)
    ensures PowB(m + n) == PowB(m) * PowB(n)
  {
    if m == 0 {
    } else {
      PowBAdd(m - 1, n);
      MulAssoc(U32, PowB(m - 1), PowB(n));
    }
  }

  lemma {:induction false} PowBIsPow2(n: nat)
    ensures PowB(n) == Pow2(32 * n)
  {
    if n == 0 {
    } else {
      PowBIsPow2(n - 1);
      Pow2Add(32, 32 * (n - 1));
      Pow2Of32();
    }
  }

  lemma Pow2Of32()
    ensures Pow2(32) == U32
  {
    Pow2Table();
    Pow2Add(8, 8);
    Pow2Add(16, 16);
  }

  lemma {:induction false} ValueBound(s: seq<Limb>)
    ensures Value(s) < PowB(|s|)
  {
    if s == [] {
    } else {
      ValueBound(s[1..]);
    }
  }

  lemma {:induction false} ValueConcat(x: seq<Limb>, y: seq<Limb>)
    ensures Value(x + y) == Value(x) + PowB(|x|) * Value(y)
  {
    if x == [] {
      assert x + y == y;
    } else {
      assert (x + y)[1..] == x[1..] + y;
      ValueConcat(x[1..], y);
      MulAssoc(U32, PowB(|x| - 1), Value(y));
    }
  }

  lemma ValueOne(v: Limb)
    ensures Value([v]) == v
  {
    assert Value([v][1..]) == 0;
  }

  /** A number cut at limb k. */
  lemma ValueCut(s: seq<Limb>, k: nat)
    requires k <= |s|
    ensures Value(s) == Value(s[..k]) + PowB(k) * Value(s[k..])
  {
    assert s == s[..k] + s[k..];
    ValueConcat(s[..k], s[k..]);
  }

  /** One limb more. */
  lemma ValueNext(s: seq<Limb>, k: nat)
    requires k < |s|
    ensures Value(s[..k + 1]) == Value(s[..k]) + PowB(k) * s[k]
  {
    assert s[..k + 1] == s[..k] + [s[k]];
    ValueConcat(s[..k], [s[k]]);
    ValueOne(s[k]);
  }

  lemma ValueDrop(s: seq<Limb>, k: nat)
    requires k < |s|
    ensures Value(s[k..]) == s[k] + U32 * Value(s[k + 1..])
  {
    assert s[k..][1..] == s[k + 1..];
  }

  lemma {:induction false} ValueZeros(s: seq<Limb>)
    requires forall i :: 0 <= i < |s| ==> s[i] == 0
    ensures Value(s) == 0
  {
    if s == [] {
    } else {
      ValueZeros(s[1..]);
    }
  }

  lemma {:induction false} ValueZero(s: seq<Limb>)
    requires Value(s) == 0
    ensures forall i :: 0 <= i < |s| ==> s[i] == 0
  {
    if s == [] {
    } else {
      ValueZero(s[1..]);
      assert forall i :: 1 <= i < |s| ==> s[i] == s[1..][i - 1];
    }
  }

  /** The limbs above the first difference decide a comparison. */
  lemma ValueOrder(x: seq<Limb>, y: seq<Limb>, k: nat)
    requires |x| == |y| && k < |x| && x[k] < y[k] && x[k + 1..] == y[k + 1..]
    ensures Value(x) < Value(y)
  {
    ValueCut(x, k);
    ValueCut(y, k);
    ValueDrop(x, k);
    ValueDrop(y, k);
    ValueBound(x[..k]);
    var p := PowB(k);
    MulMono(p, Value(x[k..]) + 1, Value(y[k..]));
    MulDist(p, Value(x[k..]), 1);
  }

  lemma ValueUpdate(s: seq<Limb>, k: nat, v: Limb)
    requires k < |s|
    ensures Value(s[k := v]) + PowB(k) * s[k] == Value(s) + PowB(k) * v
  {
    var t := s[k := v];
    ValueCut(s, k);
    ValueCut(t, k);
    ValueDrop(s, k);
    ValueDrop(t, k);
    assert t[..k] == s[..k] && t[k + 1..] == s[k + 1..];
    var p, high := PowB(k), U32 * Value(s[k + 1..]);
    MulDist(p, s[k], high);
    MulDist(p, v, high);
  }

  // ---------- shifts by less than a limb ----------

  lemma ModNat(x: nat)
    ensures 0 <= x % U32 < U32
  {
  }

  lemma QuotientNat(x: nat, d: nat)
    requires d > 0
    ensures x / d >= 0
  {
  }

  /** x shifted down by b bits, and the b bits that it loses. */
  function Shr(x: nat, b: nat): nat
  {
    QuotientNat(x, Pow2(b));
    x / Pow2(b)
  }

  function Low(x: nat, b: nat): nat
  {
    x % Pow2(b)
  }

  lemma ShrLow(x: nat, b: nat)
    ensures x == Pow2(b) * Shr(x, b) + Low(x, b) && Low(x, b) < Pow2(b)
  {
    hide Pow2;
    DivMod(x, Pow2(b));
  }

  lemma ShrUnique(x: nat, b: nat, q: nat, r: nat)
    requires x == Pow2(b) * q + r && r < Pow2(b)
    ensures Shr(x, b) == q && Low(x, b) == r
  {
    hide Pow2;
    DivUnique(x, Pow2(b), q, r);
  }

  lemma LowSmall(x: nat, b: nat)
    requires x < Pow2(b)
    ensures Shr(x, b) == 0 && Low(x, b) == x
  {
    hide Pow2;
    ShrUnique(x, b, 0, x);
  }

  /** Shifting moves the bits, and cutting keeps the low ones. */
  lemma ShrBit(x: nat, b: nat, j: nat)
    ensures BitAt(Shr(x, b), j) == BitAt(x, b + j)
  {
    hide *;
    BitAtDiv(Shr(x, b), j);
    BitAtDiv(x, b + j);
    ShrShr(x, j, b);
    ShrIsQuotient(Shr(x, b), j);
    ShrIsQuotient(x, j + b);
  }

  lemma ShrIsQuotient(x: nat, b: nat)
    ensures Shr(x, b) == x / Pow2(b)
  {
  }

  lemma LowBit(x: nat, b: nat, j: nat)
    requires j < b
    ensures BitAt(Low(x, b), j) == BitAt(x, j)
  {
    hide *;
    ShrLow(x, b);
    Commuted(Pow2(b), Shr(x, b));
    JoinedBits(Shr(x, b), Low(x, b), b, j);
  }

  lemma Commuted(a: nat, b: nat)
    ensures a * b == b * a
  {
  }

  /** The bits of hi above position b, and those of lo below it. */
  lemma {:induction false} JoinedBits(hi: nat, lo: nat, b: nat, j: nat)
    requires lo < Pow2(b)
    ensures j < b ==> BitAt(hi * Pow2(b) + lo, j) == BitAt(lo, j)
    ensures j >= b ==> BitAt(hi * Pow2(b) + lo, j) == BitAt(hi, j - b)
    decreases b
  {
    if b > 0 {
      var p := Pow2(b - 1);
      hide Pow2;
      HalfJoined(hi, lo, p);
      if j > 0 {
        JoinedBits(hi, lo / 2, b - 1, j - 1);
      }
    }
  }

  lemma HalfJoined(hi: nat, lo: nat, p: nat)
    ensures (hi * (2 * p) + lo) / 2 == hi * p + lo / 2 && (hi * (2 * p) + lo) % 2 == lo % 2
  {
    MulDouble(hi, p);
  }

  /** Cutting in two steps. */
  lemma ShrShr(x: nat, a: nat, b: nat)
    ensures Shr(Shr(x, b), a) == Shr(x, a + b)
    ensures Low(x, a + b) == Low(Shr(x, b), a) * Pow2(b) + Low(x, b)
  {
    hide *;
    var q := Shr(x, b);
    ShrLow(x, b);
    ShrLow(q, a);
    Pow2Add(a, b);
    CutAlgebra(x, Pow2(b), Pow2(a), q, Low(x, b), Shr(q, a), Low(q, a));
    ShrUnique(x, a + b, Shr(q, a), Low(q, a) * Pow2(b) + Low(x, b));
  }

  lemma CutAlgebra(x: nat, p: nat, pa: nat, q: nat, r: nat, q2: nat, r2: nat)
    requires x == p * q + r && r < p && q == pa * q2 + r2 && r2 < pa
    ensures x == pa * p * q2 + (r2 * p + r) && r2 * p + r < pa * p
  {
    MulDist(p, pa * q2, r2);
    MulAssoc(p, pa, q2);
    MulMono(p, r2, pa - 1);
    MulDist(p, pa, -1);
  }

  /** The low bits of the low bits, and what lies above them. */
  lemma LowLow(x: nat, a: nat, b: nat)
    requires b <= a
    ensures Low(Low(x, a), b) == Low(x, b) && Shr(Low(x, a), b) == Low(Shr(x, b), a - b)
  {
    hide *;
    ShrShr(x, a - b, b);
    ShrLow(x, b);
    ShrUnique(Low(x, a), b, Low(Shr(x, b), a - b), Low(x, b));
  }

  lemma PowSplit(b: nat)
    requires b <= 32
    ensures Pow2(32 - b) * Pow2(b) == U32
  {
    hide Pow2;
    Pow2Add(32 - b, b);
    Pow2Of32();
  }

  lemma UpAlgebra(x: nat, p: nat, q: nat, hi: nat, lo: nat)
    requires q * p == U32 && x == q * hi + lo && lo < q && x < U32
    ensures x * p == U32 * hi + lo * p && lo * p < U32 && hi < p
  {
    MulDist(p, q * hi, lo);
    MulAssoc(p, q, hi);
    MulMono(p, lo, q - 1);
    MulDist(p, q, -1);
    if hi >= p {
      MulMono(q, p, hi);
      assert false;
    }
  }

  /** x shifted up by b bits: the low 32 bits and the bits carried out. */
  lemma UpParts(x: Limb, b: nat)
    requires b <= 32
    ensures x * Pow2(b) % U32 == Low(x, 32 - b) * Pow2(b)
    ensures x * Pow2(b) / U32 == Shr(x, 32 - b)
    ensures Shr(x, 32 - b) < Pow2(b)
  {
    hide *;
    PowSplit(b);
    ShrLow(x, 32 - b);
    UpAlgebra(x, Pow2(b), Pow2(32 - b), Shr(x, 32 - b), Low(x, 32 - b));
    DivUnique(x * Pow2(b), U32, Shr(x, 32 - b), Low(x, 32 - b) * Pow2(b));
  }

  /** A multiple of p below U32 leaves room for any number below p. */
  lemma RoomBelow(p: nat, q: nat, lo: nat, c: nat)
    requires q * p == U32 && lo < q && c < p
    ensures lo * p + c < U32
  {
    MulMono(p, lo, q - 1);
    MulDist(p, q, -1);
  }

  /** The low limb of x shifted up by b bits still has room for b more bits. */
  lemma UpFits(x: Limb, b: nat, c: nat)
    requires b < 32 && c < Pow2(b)
    ensures x * Pow2(b) % U32 + c < U32
    ensures x * Pow2(b) / U32 < Pow2(b)
  {
    hide Pow2;
    hide Shr;
    hide Low;
    UpParts(x, b);
    PowSplit(b);
    ShrLow(x, 32 - b);
    RoomBelow(Pow2(b), Pow2(32 - b), Low(x, 32 - b), c);
  }

  /** s shifted up by b bits, with c in the freed low bits; what leaves at the top is dropped. */
  function ShiftUp(s: seq<Limb>, b: nat, c: nat): (r: seq<Limb>)
    requires b < 32 && c < Pow2(b)
    ensures |r| == |s|
  {
    if s == [] then []
    else
      UpFits(s[0], b, c);
      [s[0] * Pow2(b) % U32 + c] + ShiftUp(s[1..], b, s[0] * Pow2(b) / U32)
  }

  lemma UpStep(x: nat, v: nat, p: nat, c: nat, q: nat, m: nat, r: nat, pb: nat, lost: nat)
    requires x * p == U32 * q + m && v * p + q == r + pb * lost
    ensures (x + U32 * v) * p + c == m + c + U32 * r + U32 * pb * lost
  {
    MulDist(p, x, U32 * v);
    MulAssoc(U32, v, p);
    MulAssoc(U32, pb, lost);
  }

  /** Shifting up multiplies, but for what leaves at the top. */
  lemma {:induction false} ShiftUpValue(s: seq<Limb>, b: nat, c: nat) returns (lost: nat)
    requires b < 32 && c < Pow2(b)
    ensures Value(s) * Pow2(b) + c == Value(ShiftUp(s, b, c)) + PowB(|s|) * lost
  {
    hide Pow2;
    if s == [] {
      lost := c;
    } else {
      UpFits(s[0], b, c);
      var n := s[0] * Pow2(b);
      lost := ShiftUpValue(s[1..], b, n / U32);
      assert ShiftUp(s, b, c)[1..] == ShiftUp(s[1..], b, n / U32);
      UpStep(s[0], Value(s[1..]), Pow2(b), c, n / U32, n % U32, Value(ShiftUp(s[1..], b, n / U32)), PowB(|s| - 1),
             lost);
    }
  }

  /** Limb j of a number shifted up: its own low bits, and the bits carried out of the limb below. */
  lemma {:induction false} ShiftUpAt(s: seq<Limb>, b: nat, c: nat, j: nat)
    requires b < 32 && c < Pow2(b) && j < |s|
    ensures ShiftUp(s, b, c)[j] == Low(s[j], 32 - b) * Pow2(b) + if j == 0 then c else Shr(s[j - 1], 32 - b)
  {
    hide Pow2;
    hide Low;
    hide Shr;
    UpParts(s[0], b);
    if j == 0 {
    } else {
      UpFits(s[0], b, c);
      ShiftUpAt(s[1..], b, s[0] * Pow2(b) / U32, j - 1);
    }
  }

  lemma DownFits(x: Limb, y: Limb, b: nat)
    requires b < 32
    ensures Shr(x, b) + Low(y, b) * Pow2(32 - b) < U32
    ensures y * Pow2(32 - b) % U32 == Low(y, b) * Pow2(32 - b)
  {
    hide *;
    UpParts(y, 32 - b);
    UpParts(x, 32 - b);
    PowSplit(32 - b);
    ShrLow(y, b);
    RoomBelow(Pow2(32 - b), Pow2(b), Low(y, b), Shr(x, b));
  }

  /** s shifted down by b bits. */
  function ShiftDown(s: seq<Limb>, b: nat): (r: seq<Limb>)
    requires b < 32
    ensures |r| == |s|
  {
    if s == [] then []
    else
      DownFits(s[0], if |s| == 1 then 0 else s[1], b);
      [Shr(s[0], b) + (if |s| == 1 then 0 else Low(s[1], b) * Pow2(32 - b))] + ShiftDown(s[1..], b)
  }

  lemma DownAlgebra(x: nat, v: nat, p: nat, q: nat, xh: nat, xl: nat, hi: nat, lo: nat)
    requires p * q == U32 && x == p * xh + xl && v == p * hi + lo
    ensures x + U32 * v == p * (xh + lo * q + U32 * hi) + xl
  {
    MulDist(p, xh, lo * q + U32 * hi);
    MulDist(p, lo * q, U32 * hi);
    MulAssoc(p, q, lo);
    MulAssoc(U32, p, hi);
    MulAssoc(p, U32, hi);
  }

  lemma DownStep(x: nat, v: nat, b: nat)
    requires b < 32
    ensures Shr(x + U32 * v, b) == Shr(x, b) + Low(v, b) * Pow2(32 - b) + U32 * Shr(v, b)
    ensures Low(x + U32 * v, b) == Low(x, b)
  {
    hide *;
    PowSplit(b);
    ShrLow(x, b);
    ShrLow(v, b);
    DownAlgebra(x, v, Pow2(b), Pow2(32 - b), Shr(x, b), Low(x, b), Shr(v, b), Low(v, b));
    ShrUnique(x + U32 * v, b, Shr(x, b) + Low(v, b) * Pow2(32 - b) + U32 * Shr(v, b), Low(x, b));
  }

  lemma ZeroParts(b: nat)
    ensures Shr(0, b) == 0 && Low(0, b) == 0
  {
    hide Pow2;
    ShrUnique(0, b, 0, 0);
  }

  /** Shifting down divides. */
  lemma {:induction false} ShiftDownValue(s: seq<Limb>, b: nat)
    requires b < 32
    ensures Value(ShiftDown(s, b)) == Shr(Value(s), b)
    ensures Low(Value(s), b) == if s == [] then 0 else Low(s[0], b)
  {
    hide Pow2;
    hide Shr;
    hide Low;
    if s == [] {
      ZeroParts(b);
    } else {
      ShiftDownValue(s[1..], b);
      DownStep(s[0], Value(s[1..]), b);
      assert ShiftDown(s, b)[1..] == ShiftDown(s[1..], b);
    }
  }

  /** Limb j of a number shifted down: its own high bits, and the low bits of the limb above. */
  lemma {:induction false} ShiftDownAt(s: seq<Limb>, b: nat, j: nat)
    requires b < 32 && j < |s|
    ensures ShiftDown(s, b)[j] == Shr(s[j], b) + if j + 1 == |s| then 0 else Low(s[j + 1], b) * Pow2(32 - b)
  {
    hide Pow2;
    hide Shr;
    hide Low;
    if j == 0 {
    } else {
      ShiftDownAt(s[1..], b, j - 1);
    }
  }

  // ---------- or of bits that do not overlap ----------

  /** Bitwise or. */
  function Or(a: nat, b: nat): nat
    decreases a + b
  {
    if a == 0 && b == 0 then 0 else 2 * Or(a / 2, b / 2) + (if a % 2 == 1 || b % 2 == 1 then 1 else 0)
  }

  lemma {:induction false} OrBit(a: nat, b: nat, j: nat)
    ensures BitAt(Or(a, b), j) == (BitAt(a, j) || BitAt(b, j))
    decreases j
  {
    hide Or;
    OrParts(a, b);
    if j > 0 {
      OrBit(a / 2, b / 2, j - 1);
    }
  }

  lemma {:induction false} OrComm(a: nat, b: nat)
    ensures Or(a, b) == Or(b, a)
    decreases a + b
  {
    if a == 0 && b == 0 {
    } else {
      OrComm(a / 2, b / 2);
    }
  }

  lemma {:induction false} OrZero(a: nat)
    ensures Or(a, 0) == a
  {
    if a == 0 {
    } else {
      OrZero(a / 2);
    }
  }

  lemma {:induction false} OrAssoc(a: nat, b: nat, c: nat)
    ensures Or(Or(a, b), c) == Or(a, Or(b, c))
    decreases a + b + c
  {
    if a == 0 && b == 0 && c == 0 {
      assert Or(0, 0) == 0;
    } else {
      hide Or;
      OrAssoc(a / 2, b / 2, c / 2);
      OrParts(a, b);
      OrParts(b, c);
      OrParts(Or(a, b), c);
      OrParts(a, Or(b, c));
      HalfEqual(Or(Or(a, b), c), Or(a, Or(b, c)));
    }
  }

  lemma OrParts(a: nat, b: nat)
    ensures Or(a, b) / 2 == Or(a / 2, b / 2) && (Or(a, b) % 2 == 1 <==> a % 2 == 1 || b % 2 == 1)
  {
  }

  lemma {:induction false} OrBound(a: nat, b: nat, k: nat)
    requires a < Pow2(k) && b < Pow2(k)
    ensures Or(a, b) < Pow2(k)
    decreases k
  {
    if k == 0 {
    } else {
      OrBound(a / 2, b / 2, k - 1);
      OrParts(a, b);
    }
  }

  /** Or acts separately on the bits above and below position k. */
  lemma {:induction false} OrSplit(hi: nat, lo: nat, hi': nat, lo': nat, k: nat)
    requires lo < Pow2(k) && lo' < Pow2(k)
    ensures Or(hi * Pow2(k) + lo, hi' * Pow2(k) + lo') == Or(hi, hi') * Pow2(k) + Or(lo, lo')
    decreases k
  {
    hide *;
    if k == 0 {
      SplitNothing(hi, lo, hi', lo');
    } else {
      var p := Pow2(k - 1);
      PowHalf(lo, lo', k);
      OrSplit(hi, lo / 2, hi', lo' / 2, k - 1);
      MulDouble(hi, p);
      MulDouble(hi', p);
      MulDouble(Or(hi, hi'), p);
      OrStep(hi * p, lo, hi' * p, lo');
    }
  }

  lemma SplitNothing(hi: nat, lo: nat, hi': nat, lo': nat)
    requires lo < Pow2(0) && lo' < Pow2(0)
    ensures Or(hi * Pow2(0) + lo, hi' * Pow2(0) + lo') == Or(hi, hi') * Pow2(0) + Or(lo, lo')
  {
    OrZero(0);
  }

  lemma PowHalf(lo: nat, lo': nat, k: nat)
    requires k > 0 && lo < Pow2(k) && lo' < Pow2(k)
    ensures Pow2(k) == 2 * Pow2(k - 1) && 0 <= lo / 2 < Pow2(k - 1) && 0 <= lo' / 2 < Pow2(k - 1)
  {
  }

  lemma OrStep(x: nat, lo: nat, x': nat, lo': nat)
    ensures Or(2 * x + lo, 2 * x' + lo') == 2 * Or(x + lo / 2, x' + lo' / 2) + Or(lo, lo') % 2
    ensures Or(lo, lo') == 2 * Or(lo / 2, lo' / 2) + Or(lo, lo') % 2
  {
    OrParts(2 * x + lo, 2 * x' + lo');
    OrParts(lo, lo');
    hide Or;
    HalfSum(x, lo);
    HalfSum(x', lo');
  }

  /** The or of two numbers, limb by limb. */
  lemma {:induction false} OrValue(x: seq<Limb>, y: seq<Limb>, r: seq<Limb>)
    requires |x| == |y| == |r| && forall i :: 0 <= i < |r| ==> r[i] == Or(x[i], y[i])
    ensures Value(r) == Or(Value(x), Value(y))
  {
    hide Or;
    hide Pow2;
    if r == [] {
      OrZero(0);
    } else {
      OrValue(x[1..], y[1..], r[1..]);
      Pow2Of32();
      OrSplit(Value(x[1..]), x[0], Value(y[1..]), y[0], 32);
    }
  }

  /** Equal numbers have equal limbs. */
  lemma {:induction false} ValueOnly(x: seq<Limb>, y: seq<Limb>)
    requires |x| == |y| && Value(x) == Value(y)
    ensures x == y
  {
    if x == [] {
    } else {
      ValueOnly(x[1..], y[1..]);
      assert x == [x[0]] + x[1..] && y == [y[0]] + y[1..];
    }
  }

  /** Bits at and above position k together with bits below it. */
  lemma {:induction false} OrDisjoint(hi: nat, lo: nat, k: nat)
    requires lo < Pow2(k)
    ensures Or(hi * Pow2(k), lo) == hi * Pow2(k) + lo
    decreases k
  {
    if k == 0 {
      OrZero(hi);
    } else {
      var p := Pow2(k - 1);
      assert hi * Pow2(k) == 2 * (hi * p) by {
        MulDouble(hi, p);
      }
      OrDisjoint(hi, lo / 2, k - 1);
      OrHalves(hi * p, lo);
    }
  }

  lemma OrHalves(x: nat, lo: nat)
    ensures Or(2 * x, lo) == 2 * Or(x, lo / 2) + lo % 2
  {
    if x == 0 && lo == 0 {
    } else {
      assert 2 * x / 2 == x && 2 * x % 2 == 0;
    }
  }

  // ---------- and with a mask of low bits ----------

  /** Bitwise and. */
  function And(a: nat, b: nat): nat
    decreases a + b
  {
    if a == 0 && b == 0 then 0 else 2 * And(a / 2, b / 2) + (if a % 2 == 1 && b % 2 == 1 then 1 else 0)
  }

  lemma {:induction false} AndBit(a: nat, b: nat, j: nat)
    ensures BitAt(And(a, b), j) == (BitAt(a, j) && BitAt(b, j))
    decreases j
  {
    hide And;
    AndHalves(a, b);
    if j > 0 {
      AndBit(a / 2, b / 2, j - 1);
    }
  }

  lemma AndHalves(a: nat, b: nat)
    ensures And(a, b) / 2 == And(a / 2, b / 2) && (And(a, b) % 2 == 1 <==> a % 2 == 1 && b % 2 == 1)
  {
  }

  lemma {:induction false} AndZero(a: nat)
    ensures And(a, 0) == 0
  {
    if a == 0 {
    } else {
      AndZero(a / 2);
    }
  }

  /** A mask of b ones keeps the b low bits. */
  lemma {:induction false} AndMask(x: nat, b: nat)
    ensures And(x, Pow2(b) - 1) == Low(x, b)
    decreases b
  {
    hide *;
    if b == 0 {
      NoMask(x);
    } else {
      AndMask(x / 2, b - 1);
      AndStep(x, b);
      LowHalf(x, b);
    }
  }

  lemma NoMask(x: nat)
    ensures And(x, Pow2(0) - 1) == Low(x, 0)
  {
    AndZero(x);
  }

  lemma AndStep(x: nat, b: nat)
    requires b > 0
    ensures And(x, Pow2(b) - 1) == 2 * And(x / 2, Pow2(b - 1) - 1) + x % 2
  {
    MaskHalf(b);
    hide Pow2;
    AndParts(x, Pow2(b) - 1);
  }

  lemma MaskHalf(b: nat)
    requires b > 0
    ensures (Pow2(b) - 1) / 2 == Pow2(b - 1) - 1 && (Pow2(b) - 1) % 2 == 1
  {
    assert Pow2(b) - 1 == 2 * (Pow2(b - 1) - 1) + 1;
  }

  lemma AndParts(a: nat, b: nat)
    requires b > 0
    ensures And(a, b) == 2 * And(a / 2, b / 2) + (if a % 2 == 1 && b % 2 == 1 then 1 else 0)
  {
  }

  lemma LowHalf(x: nat, b: nat)
    requires b > 0
    ensures Low(x, b) == 2 * Low(x / 2, b - 1) + x % 2
  {
    var p := Pow2(b - 1);
    assert Pow2(b) == 2 * p;
    hide Low;
    hide Shr;
    ShrLow(x / 2, b - 1);
    MulAssoc(2, p, Shr(x / 2, b - 1));
    ShrUnique(x, b, Shr(x / 2, b - 1), 2 * Low(x / 2, b - 1) + x % 2);
  }
}
