/**
  base_uint<256>: a 256-bit unsigned number in eight 32-bit limbs, changed in place.
  Every operation is exact modulo 2^256, which is PowB(WIDTH).
*/
module Uint256 {
  import opened Arith
  import opened Limbs

  const WIDTH: nat := 8

  // ---------- values of shifted limbs ----------

  /** r is u moved up by k limbs, zeros below. */
  ghost predicate MovedUp(u: seq<Limb>, k: nat, r: seq<Limb>)
  {
    |r| == |u| && forall j :: 0 <= j < |r| ==> r[j] == if j < k then 0 else u[j - k]
  }

  /** r is d moved down by k limbs, zeros above. */
  ghost predicate MovedDown(d: seq<Limb>, k: nat, r: seq<Limb>)
  {
    |r| == |d| && forall j :: 0 <= j < |r| ==> r[j] == if j + k < |d| then d[j + k] else 0
  }

  lemma MovedUpValue(u: seq<Limb>, k: nat, r: seq<Limb>) returns (lost: nat)
    requires MovedUp(u, k, r)
    ensures PowB(k) * Value(u) == Value(r) + PowB(|r|) * lost
  {
    hide PowB;
    hide Value;
    if k >= |u| {
      ValueZeros(r);
      lost := PowB(k - |u|) * Value(u);
      PowBAdd(|u|, k - |u|);
      MulAssoc(PowB(|u|), PowB(k - |u|), Value(u));
    } else {
      var n := |u| - k;
      ValueZeros(r[..k]);
      assert r[k..] == u[..n];
      ValueCut(r, k);
      ValueCut(u, n);
      lost := Value(u[n..]);
      PowBAdd(k, n);
      MulDist(PowB(k), Value(u[..n]), PowB(n) * lost);
      MulAssoc(PowB(k), PowB(n), lost);
    }
  }

  lemma MovedDownValue(d: seq<Limb>, k: nat, r: seq<Limb>)
    requires MovedDown(d, k, r)
    ensures Value(r) == Value(d) / PowB(k)
  {
    hide PowB;
    hide Value;
    ValueBound(d);
    if k >= |d| {
      ValueZeros(r);
      PowBAdd(|d|, k - |d|);
      MulMono(PowB(|d|), 1, PowB(k - |d|));
      DivUnique(Value(d), PowB(k), 0, Value(d));
    } else {
      var n := |d| - k;
      assert r[..n] == d[k..];
      ValueCut(r, n);
      ValueZeros(r[n..]);
      ValueCut(d, k);
      ValueBound(d[..k]);
      DivUnique(Value(d), PowB(k), Value(d[k..]), Value(d[..k]));
    }
  }

  lemma PowParts(shift: nat)
    ensures Pow2(shift) == PowB(shift / 32) * Pow2(shift % 32)
  {
    PowBIsPow2(shift / 32);
    Pow2Add(32 * (shift / 32), shift % 32);
  }

  lemma UpSum(v: nat, p: nat, pb: nat, u: nat, r: nat, top: nat, lost: nat, lost': nat)
    requires v * p == u + top * lost && pb * u == r + top * lost' && r < top
    ensures v * (pb * p) % top == r
  {
    MulAssoc(v, p, pb);
    MulDist(pb, u, top * lost);
    MulAssoc(pb, top, lost);
    MulAssoc(top, pb, lost);
    MulDist(top, lost', pb * lost);
    DivUnique(v * (pb * p), top, lost' + pb * lost, r);
  }

  lemma {:induction false} ShiftLeftValue(a: seq<Limb>, shift: nat, r: seq<Limb>)
    requires MovedUp(ShiftUp(a, shift % 32, 0), shift / 32, r)
    ensures Value(r) == Value(a) * Pow2(shift) % PowB(|a|)
  {
    hide PowB;
    hide Value;
    hide Pow2;
    hide ShiftUp;
    var u := ShiftUp(a, shift % 32, 0);
    var lost := ShiftUpValue(a, shift % 32, 0);
    var lost' := MovedUpValue(u, shift / 32, r);
    PowParts(shift);
    ValueBound(r);
    UpSum(Value(a), Pow2(shift % 32), PowB(shift / 32), Value(u), Value(r), PowB(|a|), lost, lost');
  }

  lemma ShiftRightValue(a: seq<Limb>, shift: nat, r: seq<Limb>)
    requires MovedDown(ShiftDown(a, shift % 32), shift / 32, r)
    ensures Value(r) == Shr(Value(a), shift)
  {
    hide PowB;
    hide Value;
    hide Pow2;
    hide ShiftDown;
    ShiftDownValue(a, shift % 32);
    MovedDownValue(ShiftDown(a, shift % 32), shift / 32, r);
    PowParts(shift);
    hide Shr;
    ShrChain(Value(a), shift % 32, PowB(shift / 32), shift);
  }

  lemma ChainAlgebra(v: nat, p: nat, pb: nat, q: nat, r: nat, q2: nat, r2: nat)
    requires v == p * q + r && r < p && q == pb * q2 + r2 && r2 < pb
    ensures v == pb * p * q2 + (p * r2 + r) && p * r2 + r < pb * p
  {
    MulDist(p, pb * q2, r2);
    MulAssoc(p, pb, q2);
    MulMono(p, r2, pb - 1);
    MulDist(p, pb, -1);
  }

  lemma ShrChain(v: nat, b: nat, pb: nat, shift: nat)
    requires pb > 0 && Pow2(shift) == pb * Pow2(b)
    ensures Shr(v, b) / pb == Shr(v, shift)
  {
    hide *;
    var q := Shr(v, b);
    ShrLow(v, b);
    DivMod(q, pb);
    QuotientNat(q, pb);
    ChainAlgebra(v, Pow2(b), pb, q, Low(v, b), q / pb, q % pb);
    ShrUnique(v, shift, q / pb, Pow2(b) * (q % pb) + Low(v, b));
  }

  // ---------- the bits of a limb ----------

  /** The top bit of a number below Pow2(j + 1). */
  lemma TopBit(x: nat, j: nat)
    requires x < Pow2(j + 1)
    ensures BitAt(x, j) <==> x >= Pow2(j)
  {
    hide BitAt;
    BitAtDiv(x, j);
    if x >= Pow2(j) {
      DivUnique(x, Pow2(j), 1, x - Pow2(j));
    } else {
      DivUnique(x, Pow2(j), 0, x);
    }
  }

  lemma BitsOfValue(s: seq<Limb>, pos: nat, j: nat)
    requires pos < |s| && j < 32 && Pow2(j) <= s[pos] < Pow2(j + 1)
    requires forall t :: pos < t < |s| ==> s[t] == 0
    ensures Pow2(32 * pos + j) <= Value(s) < Pow2(32 * pos + j + 1)
  {
    hide Value;
    hide Pow2;
    hide PowB;
    var p, x: nat := PowB(pos), s[pos];
    ValueCut(s, pos + 1);
    ValueNext(s, pos);
    ValueZeros(s[pos + 1..]);
    ValueBound(s[..pos]);
    PowBIsPow2(pos);
    Pow2Add(32 * pos, j);
    Pow2Add(32 * pos, j + 1);
    MulMono(p, Pow2(j), x);
    MulMono(p, x + 1, Pow2(j + 1));
    MulDist(p, x, 1);
  }

  // ---------- the number ----------

  class BaseUint {
    const pn: array<Limb>

    ghost predicate Valid()
    {
      pn.Length == WIDTH
    }

    ghost function Val(): nat
      requires Valid()
      reads pn
    {
      Value(pn[..])
    }

    constructor ()
      ensures Valid() && fresh(pn) && Val() == 0
    {
      pn := new Limb[WIDTH](_ => 0);
      new;
      ValueZeros(pn[..]);
    }

    constructor Copy(b: BaseUint)
      requires b.Valid()
      ensures Valid() && fresh(pn) && pn[..] == b.pn[..]
    {
      var limbs := b.pn;
      pn := new Limb[WIDTH](i requires 0 <= i < limbs.Length reads limbs => limbs[i]);
    }

    /** Assignment of a 64-bit number. */
    method Assign(b: nat)
      requires Valid() && b < U64
      modifies pn
      ensures Val() == b && pn[0] == b % U32 && pn[1] == b / U32 && forall i :: 2 <= i < WIDTH ==> pn[i] == 0
    {
      pn[0] := b % U32;
      pn[1] := b / U32;
      var i := 2;
      while i < WIDTH
        invariant 2 <= i <= WIDTH && pn[0] == b % U32 && pn[1] == b / U32
        invariant forall t :: 2 <= t < i ==> pn[t] == 0
      {
        pn[i] := 0;
        i := i + 1;
      }
      TwoLimbs(pn[..]);
    }

    method Clear()
      requires Valid()
      modifies pn
      ensures Val() == 0 && forall i :: 0 <= i < WIDTH ==> pn[i] == 0
    {
      var i := 0;
      while i < WIDTH
        invariant 0 <= i <= WIDTH && forall t :: 0 <= t < i ==> pn[t] == 0
      {
        pn[i] := 0;
        i := i + 1;
      }
      ValueZeros(pn[..]);
    }

    /** operator<<= : multiplication by a power of two, modulo 2^256. */
    method ShiftLeft(shift: nat)
      requires Valid()
      modifies pn
      ensures Val() == old(Val()) * Pow2(shift) % PowB(WIDTH)
    {
      hide Value;
      hide Pow2;
      hide PowB;
      hide ShiftUp;
      hide Or;
      hide Low;
      hide Shr;
      var a := new BaseUint.Copy(this);
      Clear();
      var k, s := shift / 32, shift % 32;
      ghost var up := ShiftUp(a.pn[..], s, 0);
      var i := 0;
      while i < WIDTH
        invariant 0 <= i <= WIDTH && a.pn[..] == old(pn[..])
        invariant forall j :: 0 <= j < WIDTH ==>
                    pn[j] == if j < k || j - k > i then 0
                             else if j - k < i then up[j - k]
                             else if i == 0 then 0 else Shr(a.pn[i - 1], 32 - s)
      {
        ShlParts(a.pn[..], s, i);
        if i + k + 1 < WIDTH && s != 0 {
          OrZeroLeft(Shr(a.pn[i], 32 - s));
          pn[i + k + 1] := Or(pn[i + k + 1], Shr(a.pn[i], 32 - s));
        }
        if i + k < WIDTH {
          pn[i + k] := Or(pn[i + k], a.pn[i] * Pow2(s) % U32);
        }
        i := i + 1;
      }
      ShiftLeftValue(a.pn[..], shift, pn[..]);
    }

    /** operator>>= : division by a power of two, rounding down. */
    method ShiftRight(shift: nat)
      requires Valid()
      modifies pn
      ensures Val() == Shr(old(Val()), shift)
    {
      hide Value;
      hide Pow2;
      hide PowB;
      hide ShiftDown;
      hide Or;
      hide Low;
      hide Shr;
      var a := new BaseUint.Copy(this);
      Clear();
      var k, s := shift / 32, shift % 32;
      ghost var down := ShiftDown(a.pn[..], s);
      var i := 0;
      while i < WIDTH
        invariant 0 <= i <= WIDTH && a.pn[..] == old(pn[..])
        invariant forall j :: 0 <= j < WIDTH ==>
                    pn[j] == if j + k + 1 < i then down[j + k]
                             else if j + k + 1 == i then Shr(a.pn[i - 1], s)
                             else 0
      {
        ShrParts(a.pn[..], s, i);
        if i - k - 1 >= 0 && s != 0 {
          pn[i - k - 1] := Or(pn[i - k - 1], a.pn[i] * Pow2(32 - s) % U32);
        }
        if i - k >= 0 {
          OrZeroLeft(Shr(a.pn[i], s));
          pn[i - k] := Or(pn[i - k], Shr(a.pn[i], s));
        }
        i := i + 1;
      }
      LastDown(a.pn[..], s);
      ShiftRightValue(a.pn[..], shift, pn[..]);
    }

    /** -1, 0 or 1 as this number is below, equal to or above b. */
    method CompareTo(b: BaseUint) returns (r: int)
      requires Valid() && b.Valid()
      ensures r == if Val() < b.Val() then -1 else if Val() == b.Val() then 0 else 1
    {
      hide Value;
      var i := WIDTH;
      while i > 0
        invariant 0 <= i <= WIDTH && pn[i..] == b.pn[i..]
      {
        i := i - 1;
        if pn[i] < b.pn[i] {
          ValueOrder(pn[..], b.pn[..], i);
          return -1;
        }
        if pn[i] > b.pn[i] {
          ValueOrder(b.pn[..], pn[..], i);
          return 1;
        }
      }
      assert pn[..] == pn[0..] && b.pn[..] == b.pn[0..];
      return 0;
    }

    /** Equality with a 64-bit number. */
    method EqualTo(b: nat) returns (r: bool)
      requires Valid() && b < U64
      ensures r <==> Val() == b
    {
      hide PowB;
      ValueCut(pn[..], 2);
      ValueNext(pn[..], 0);
      ValueNext(pn[..], 1);
      PowBTwo();
      var i := WIDTH;
      while i > 2
        invariant 2 <= i <= WIDTH && forall t :: i <= t < WIDTH ==> pn[t] == 0
      {
        i := i - 1;
        if pn[i] != 0 {
          HighLimb(pn[..], i);
          return false;
        }
      }
      ValueZeros(pn[2..]);
      return pn[1] == b / U32 && pn[0] == b % U32;
    }

    /** The position of the highest set bit plus one, or zero. */
    method Bits() returns (r: nat)
      requires Valid()
      ensures r <= 32 * WIDTH && (r == 0 <==> Val() == 0)
      ensures r > 0 ==> Pow2(r - 1) <= Val() < Pow2(r)
    {
      hide Value;
      hide Pow2;
      hide BitAt;
      var pos := WIDTH;
      while pos > 0
        invariant 0 <= pos <= WIDTH && forall t :: pos <= t < WIDTH ==> pn[t] == 0
      {
        pos := pos - 1;
        if pn[pos] != 0 {
          Pow2Of32();
          var bits := 31;
          while bits > 0
            invariant 0 <= bits <= 31 && pn[pos] < Pow2(bits + 1)
          {
            TopBit(pn[pos], bits);
            if BitAt(pn[pos], bits) {
              BitsOfValue(pn[..], pos, bits);
              return 32 * pos + bits + 1;
            }
            bits := bits - 1;
          }
          Pow2Small(0);
          BitsOfValue(pn[..], pos, 0);
          return 32 * pos + 1;
        }
      }
      ValueZeros(pn[..]);
      return 0;
    }

    /** operator|= */
    method OrAssign(b: BaseUint)
      requires Valid() && b.Valid()
      modifies pn
      ensures Val() == Or(old(Val()), old(b.Val()))
    {
      hide Value;
      hide Or;
      hide Pow2;
      ghost var x, y := pn[..], b.pn[..];
      Pow2Of32();
      var i := 0;
      while i < WIDTH
        invariant 0 <= i <= WIDTH
        invariant forall t :: 0 <= t < i ==> pn[t] == Or(x[t], y[t])
        invariant forall t :: i <= t < WIDTH ==> pn[t] == x[t] && b.pn[t] == y[t]
      {
        OrBound(pn[i], b.pn[i], 32);
        pn[i] := Or(pn[i], b.pn[i]);
        i := i + 1;
      }
      OrValue(x, y, pn[..]);
    }

    /** operator== compares the limbs in memory. */
    method Equals(b: BaseUint) returns (r: bool)
      requires Valid() && b.Valid()
      ensures r <==> Val() == b.Val()
    {
      if Val() == b.Val() {
        ValueOnly(pn[..], b.pn[..]);
      }
      return pn[..] == b.pn[..];
    }

    /** operator+= */
    method Add(b: BaseUint)
      requires Valid() && b.Valid()
      modifies pn
      ensures Val() == (old(Val()) + old(b.Val())) % PowB(WIDTH)
    {
      hide Value;
      hide PowB;
      ghost var x, y := pn[..], b.pn[..];
      var carry := 0;
      var i := 0;
      ValueNothing(x);
      ValueNothing(y);
      while i < WIDTH
        invariant 0 <= i <= WIDTH && 0 <= carry <= 1 && pn[i..] == x[i..] && b.pn[i..] == y[i..]
        invariant Value(pn[..i]) + PowB(i) * carry == Value(x[..i]) + Value(y[..i])
      {
        assert pn[i] == x[i] && b.pn[i] == y[i] by {
          assert pn[i..][0] == x[i..][0] && b.pn[i..][0] == y[i..][0];
        }
        var n := carry + pn[i] + b.pn[i];
        assert n < U64;
        ghost var done := pn[..i];
        pn[i] := n % U32;
        assert pn[..i] == done;
        SumStep(pn[..], x, y, i, carry, n);
        carry := n / U32;
        i := i + 1;
        assert forall t :: i <= t < WIDTH ==> pn[t] == x[i - 1..][t - (i - 1)];
      }
      assert pn[..8] == pn[..] && x[..8] == x && y[..8] == y;
      ValueBound(pn[..]);
      DivUnique(Value(x) + Value(y), PowB(WIDTH), carry, Value(pn[..]));
    }

    /** operator++ */
    method Increment()
      requires Valid()
      modifies pn
      ensures Val() == (old(Val()) + 1) % PowB(WIDTH)
    {
      hide Value;
      hide PowB;
      ghost var x := pn[..];
      var i := 0;
      pn[i] := (pn[i] + 1) % U32;
      while pn[i] == 0 && i < WIDTH - 1
        invariant 0 <= i < WIDTH && pn[i] == (x[i] + 1) % U32
        invariant forall t :: i < t < WIDTH ==> pn[t] == x[t]
        invariant forall t :: 0 <= t < i ==> pn[t] == 0 && x[t] == U32 - 1
      {
        i := i + 1;
        pn[i] := (pn[i] + 1) % U32;
      }
      assert pn[..][i + 1..] == x[i + 1..];
      CarryUp(x, pn[..], i);
    }

    /** operator-- */
    method Decrement()
      requires Valid()
      modifies pn
      ensures Val() == (old(Val()) + PowB(WIDTH) - 1) % PowB(WIDTH)
    {
      hide Value;
      hide PowB;
      ghost var x := pn[..];
      var i := 0;
      pn[i] := (pn[i] + U32 - 1) % U32;
      while pn[i] == U32 - 1 && i < WIDTH - 1
        invariant 0 <= i < WIDTH && pn[i] == (x[i] + U32 - 1) % U32
        invariant forall t :: i < t < WIDTH ==> pn[t] == x[t]
        invariant forall t :: 0 <= t < i ==> pn[t] == U32 - 1 && x[t] == 0
      {
        i := i + 1;
        pn[i] := (pn[i] + U32 - 1) % U32;
      }
      assert pn[..][i + 1..] == x[i + 1..];
      BorrowUp(x, pn[..], i);
    }

    /** Unary minus, by complement and increment. */
    method Negate() returns (ret: BaseUint)
      requires Valid()
      ensures fresh(ret) && ret.Valid() && fresh(ret.pn)
      ensures ret.Val() == (PowB(WIDTH) - Val()) % PowB(WIDTH)
    {
      hide Value;
      hide PowB;
      ret := new BaseUint();
      var i := 0;
      while i < WIDTH
        invariant 0 <= i <= WIDTH && forall t :: 0 <= t < i ==> ret.pn[t] == U32 - 1 - pn[t]
      {
        ret.pn[i] := U32 - 1 - pn[i];
        i := i + 1;
      }
      Complement(pn[..], ret.pn[..]);
      ret.Increment();
    }

    /** operator-= , by adding the negated operand. */
    method Sub(b: BaseUint)
      requires Valid() && b.Valid()
      modifies pn
      ensures Val() == (old(Val()) + PowB(WIDTH) - old(b.Val())) % PowB(WIDTH)
    {
      hide Value;
      hide PowB;
      ValueBound(b.pn[..]);
      var t := b.Negate();
      ghost var x, y := Val(), b.Val();
      Add(t);
      ModAddMod(x, PowB(WIDTH) - y, PowB(WIDTH));
    }

    /** operator*= by a 32-bit word. */
    method MulWord(b32: Limb)
      requires Valid()
      modifies pn
      ensures Val() == old(Val()) * b32 % PowB(WIDTH)
    {
      hide Value;
      hide PowB;
      ghost var x := pn[..];
      var carry := 0;
      var i := 0;
      ValueNothing(x);
      while i < WIDTH
        invariant 0 <= i <= WIDTH && 0 <= carry < U32 && pn[i..] == x[i..]
        invariant Value(pn[..i]) + PowB(i) * carry == Value(x[..i]) * b32
      {
        assert pn[i] == x[i] by {
          assert pn[i..][0] == x[i..][0];
        }
        ProductFits(carry, 0, b32, pn[i]);
        var n := carry + b32 * pn[i];
        assert n < U64;
        ghost var done := pn[..i];
        pn[i] := n % U32;
        assert pn[..i] == done;
        WordStep(pn[..], x, b32, i, carry, n);
        carry := n / U32;
        i := i + 1;
        assert forall t :: i <= t < WIDTH ==> pn[t] == x[i - 1..][t - (i - 1)];
      }
      assert pn[..8] == pn[..] && x[..8] == x;
      ValueBound(pn[..]);
      DivUnique(Value(x) * b32, PowB(WIDTH), carry, Value(pn[..]));
    }

    /** The inner loop of multiplication: one limb of the copied operand times b, added at limb j. */
    method MulRow(aj: Limb, b: BaseUint, j: nat) returns (ghost lost: nat)
      requires Valid() && b.Valid() && j < WIDTH
      requires b.pn == pn ==> forall t :: 0 <= t < WIDTH ==> pn[t] == 0
      modifies pn
      ensures b.pn == pn ==> forall t :: 0 <= t < WIDTH ==> pn[t] == 0
      ensures b.pn != pn ==> Val() + PowB(WIDTH) * lost == old(Val()) + PowB(j) * (aj * b.Val())
    {
      hide Value;
      hide PowB;
      hide RowState;
      ghost var x, y := pn[..], b.pn[..];
      var carry := 0;
      var i := 0;
      MulRowStart(x, y, aj, j);
      while i + j < WIDTH
        invariant 0 <= i <= WIDTH - j && 0 <= carry < U32 && pn[i + j..] == x[i + j..]
        invariant b.pn == pn ==> carry == 0 && forall t :: 0 <= t < WIDTH ==> pn[t] == 0
        invariant b.pn != pn ==> b.pn[..] == y
        invariant b.pn != pn ==> RowState(pn[..], x, y, aj, i, j, carry)
      {
        assert pn[i + j] == x[i + j] by {
          assert pn[i + j..][0] == x[i + j..][0];
        }
        ProductFits(carry, pn[i + j], aj, b.pn[i]);
        var n := carry + pn[i + j] + aj * b.pn[i];
        assert n < U64;
        ghost var done := pn[..];
        pn[i + j] := n % U32;
        if b.pn != pn {
          RowStep(done, pn[..], x, y, aj, i, j, carry, n);
        }
        carry := n / U32;
        i := i + 1;
        assert forall t :: i + j <= t < WIDTH ==> pn[t] == x[i + j - 1..][t - (i + j - 1)];
      }
      lost := carry + aj * Value(y[i..]);
      if b.pn != pn {
        RowEnd(pn[..], x, y, aj, j, carry);
      }
    }

    /** operator*= . With the number itself as operand, b is cleared before it is read, and so is the product. */
    method Mul(b: BaseUint)
      requires Valid() && b.Valid()
      modifies pn
      ensures b.pn != pn ==> Val() == old(Val()) * b.Val() % PowB(WIDTH)
      ensures b.pn == pn ==> Val() == 0
    {
      hide Value;
      hide PowB;
      var a := new BaseUint.Copy(this);
      ghost var x, y := pn[..], b.pn[..];
      Clear();
      ghost var k: nat := 0;
      MulStart(a.pn[..], y);
      var j := 0;
      while j < WIDTH
        invariant 0 <= j <= WIDTH && a.pn[..] == x
        invariant b.pn == pn ==> forall t :: 0 <= t < WIDTH ==> pn[t] == 0
        invariant b.pn != pn ==> b.pn[..] == y && Val() + PowB(WIDTH) * k == Value(x[..j]) * Value(y)
      {
        ghost var lost := MulRow(a.pn[j], b, j);
        MulNextRow(x, j, Value(y));
        MulDist(PowB(WIDTH), k, lost);
        k := k + lost;
        j := j + 1;
      }
      if b.pn == pn {
        ValueZeros(pn[..]);
      } else {
        assert x[..8] == x;
        ValueBound(pn[..]);
        DivUnique(Value(x) * Value(y), PowB(WIDTH), k, Value(pn[..]));
      }
    }

    /** Sets bit `shift` of a number whose bits up to it are clear. */
    method SetBit(shift: nat, ghost k: nat)
      requires Valid() && shift < 32 * WIDTH && Val() == Pow2(shift + 1) * k
      modifies pn
      ensures Val() == old(Val()) + Pow2(shift)
    {
      hide Value;
      hide Pow2;
      hide PowB;
      hide Or;
      ghost var x := pn[..];
      ClearBelow(x, shift, k);
      pn[shift / 32] := Or(pn[shift / 32], Pow2(shift % 32));
      assert pn[..] == x[shift / 32 := pn[shift / 32]];
      ValueUpdate(x, shift / 32, pn[shift / 32]);
      MulDist(PowB(shift / 32), x[shift / 32], Pow2(shift % 32));
      PowParts(shift);
    }

    /** The divisor goes into what is left of the dividend: it is taken off, and the quotient gets its bit. */
    method TakeBit(num: BaseUint, div: BaseUint, shift: nat, ghost x: nat, ghost y: nat, ghost k: nat)
      requires Valid() && num.Valid() && div.Valid() && pn != num.pn && pn != div.pn && num.pn != div.pn
      requires shift < 32 * WIDTH && div.Val() == y * Pow2(shift) <= num.Val()
      requires DivState(x, y, shift + 1, Val(), num.Val(), k)
      modifies pn, num.pn
      ensures DivState(x, y, shift, Val(), num.Val(), 2 * k + 1)
    {
      hide Value;
      hide Pow2;
      hide PowB;
      hide Shr;
      hide DivState;
      DivTake(x, y, shift, Val(), num.Val(), k);
      ValueBound(num.pn[..]);
      SubExact(num.Val(), div.Val(), PowB(WIDTH));
      num.Sub(div);
      SetBit(shift, k);
    }

    /**
      operator/= : long division. Division by zero is refused, with this number already
      cleared; otherwise the quotient is exact and num ends as the remainder.
    */
    method Div(b: BaseUint) returns (ok: bool, ghost remainder: nat)
      requires Valid() && b.Valid()
      modifies pn
      ensures ok <==> old(b.Val()) != 0
      ensures !ok ==> Val() == 0
      ensures ok ==> Val() == old(Val()) / old(b.Val()) && remainder == old(Val()) % old(b.Val())
    {
      hide Value;
      hide Pow2;
      hide PowB;
      hide Shr;
      hide DivState;
      ghost var x, y := Val(), b.Val();
      var div := new BaseUint.Copy(b);
      var num := new BaseUint.Copy(this);
      Clear();
      var numBits := num.Bits();
      var divBits := div.Bits();
      if divBits == 0 {
        return false, 0;
      }
      if divBits > numBits {
        SmallerBits(x, y, numBits, divBits);
        return true, x;
      }
      var shift: int := numBits - divBits;
      AlignExact(y, numBits, divBits, shift);
      AlignOver(x, y, numBits, divBits, shift);
      div.ShiftLeft(shift);
      ghost var k: nat := 0;
      DivStart(x, y, shift);
      while shift >= 0
        invariant -1 <= shift < 32 * WIDTH
        invariant shift >= 0 ==> div.Val() == y * Pow2(shift)
        invariant DivState(x, y, shift + 1, Val(), num.Val(), k)
      {
        var c := num.CompareTo(div);
        if c >= 0 {
          TakeBit(num, div, shift, x, y, k);
          k := 2 * k + 1;
        } else {
          DivSkip(x, y, shift, Val(), num.Val(), k);
          k := 2 * k;
        }
        HalfExact(y, shift);
        div.ShiftRight(1);
        shift := shift - 1;
      }
      remainder := num.Val();
      DivEnd(x, y, Val(), remainder, k);
      return true, remainder;
    }

    /** The low 64 bits. */
    method GetLow64() returns (r: nat)
      requires Valid()
      ensures r == Val() % U64
    {
      hide Or;
      hide PowB;
      Pow2Of32();
      OrDisjoint(pn[1], pn[0], 32);
      OrComm(pn[0], pn[1] * U32);
      r := Or(pn[0], pn[1] * U32);
      ValueCut(pn[..], 2);
      ValueNext(pn[..], 0);
      ValueNext(pn[..], 1);
      PowBTwo();
      DivUnique(Val(), U64, Value(pn[2..]), r);
    }
  }

  lemma TwoLimbs(s: seq<Limb>)
    requires |s| == WIDTH && forall i :: 2 <= i < WIDTH ==> s[i] == 0
    ensures Value(s) == s[0] + U32 * s[1]
  {
    ValueZeros(s[2..]);
    assert s[1..][1..] == s[2..];
  }

  lemma OrZeroLeft(x: nat)
    ensures Or(0, x) == x
  {
    OrComm(0, x);
    OrZero(x);
  }

  /** What iteration i of the left shift puts together: limb i of the result. */
  lemma ShlParts(a: seq<Limb>, s: nat, i: nat)
    requires s < 32 && i < |a|
    ensures Shr(a[i], 32 - s) < U32 && (s == 0 ==> Shr(a[i], 32 - s) == 0)
    ensures 0 <= a[i] * Pow2(s) % U32 < U32
    ensures ShiftUp(a, s, 0)[i] == Or(if i == 0 then 0 else Shr(a[i - 1], 32 - s), a[i] * Pow2(s) % U32)
  {
    hide *;
    Pow2Small(s);
    UpParts(a[i], s);
    ShiftUpAt(a, s, 0, i);
    if i > 0 {
      UpParts(a[i - 1], s);
    }
    var c := if i == 0 then 0 else Shr(a[i - 1], 32 - s);
    OrDisjoint(Low(a[i], 32 - s), c, s);
    OrComm(c, Low(a[i], 32 - s) * Pow2(s));
    ModNat(a[i] * Pow2(s));
  }

  lemma Pow2Small(s: nat)
    requires s < 32
    ensures Pow2(s) < U32 && Pow2(0) == 1
  {
    Pow2Add(s, 31 - s);
    Pow2Add(31, 1);
    Pow2Of32();
    MulMono(Pow2(s), 1, Pow2(31 - s));
  }

  /** What iteration i of the right shift adds to limb i - 1 of the result. */
  lemma ShrParts(a: seq<Limb>, s: nat, i: nat)
    requires s < 32 && i < |a|
    ensures Shr(a[i], s) < U32
    ensures 0 <= a[i] * Pow2(32 - s) % U32 < U32
    ensures i > 0 ==>
              ShiftDown(a, s)[i - 1] ==
              if s == 0 then Shr(a[i - 1], s) else Or(Shr(a[i - 1], s), a[i] * Pow2(32 - s) % U32)
  {
    hide *;
    ModNat(a[i] * Pow2(32 - s));
    DownFits(a[i], 0, s);
    if i > 0 {
      DownFits(a[i - 1], a[i], s);
      ShiftDownAt(a, s, i - 1);
      UpParts(a[i - 1], 32 - s);
      OrDisjoint(Low(a[i], s), Shr(a[i - 1], s), 32 - s);
      OrComm(Shr(a[i - 1], s), Low(a[i], s) * Pow2(32 - s));
      if s == 0 {
        NoLow(a[i]);
      }
    }
  }

  lemma NoLow(x: nat)
    ensures Low(x, 0) == 0
  {
  }

  lemma LastDown(a: seq<Limb>, s: nat)
    requires s < 32 && a != []
    ensures ShiftDown(a, s)[|a| - 1] == Shr(a[|a| - 1], s)
  {
    ShiftDownAt(a, s, |a| - 1);
  }

  lemma HighLimb(s: seq<Limb>, i: nat)
    requires 2 <= i < |s| && s[i] != 0
    ensures Value(s[2..]) > 0
  {
    ValueCut(s[2..], i - 2);
    ValueDrop(s[2..], i - 2);
    MulMono(PowB(i - 2), 1, Value(s[2..][i - 2..]));
  }

  lemma ValueNothing(s: seq<Limb>)
    ensures Value(s[..0]) == 0
  {
    assert s[..0] == [];
  }

  lemma PowBTwo()
    ensures PowB(0) == 1 && PowB(1) == U32 && PowB(2) == U64
  {
  }

  // ---------- sums ----------

  lemma SumStep(r: seq<Limb>, x: seq<Limb>, y: seq<Limb>, i: nat, carry: nat, n: nat)
    requires |r| == |x| == |y| && i < |x| && n == carry + x[i] + y[i] && r[i] == n % U32
    requires Value(r[..i]) + PowB(i) * carry == Value(x[..i]) + Value(y[..i])
    ensures Value(r[..i + 1]) + PowB(i + 1) * (n / U32) == Value(x[..i + 1]) + Value(y[..i + 1])
  {
    hide Value;
    ValueNext(r, i);
    ValueNext(x, i);
    ValueNext(y, i);
    hide PowB;
    CarryAlgebra(PowB(i), carry, x[i], y[i], n);
    NextPower(i, n / U32);
  }

  lemma NextPower(i: nat, c: nat)
    ensures PowB(i + 1) * c == U32 * (PowB(i) * c)
  {
    MulAssoc(U32, PowB(i), c);
  }

  lemma CarryAlgebra(p: nat, carry: nat, a: nat, b: nat, n: nat)
    requires n == carry + a + b
    ensures p * (n % U32) + U32 * (p * (n / U32)) == p * carry + p * a + p * b
  {
    DivMod(n, U32);
    MulDist(p, n % U32, U32 * (n / U32));
    MulAssoc(p, U32, n / U32);
    MulAssoc(U32, p, n / U32);
    MulDist(p, carry, a + b);
    MulDist(p, a, b);
  }

  lemma {:induction false} Complement(x: seq<Limb>, r: seq<Limb>)
    requires |x| == |r| && forall t :: 0 <= t < |x| ==> r[t] == U32 - 1 - x[t]
    ensures Value(x) + Value(r) + 1 == PowB(|x|)
  {
    if x == [] {
    } else {
      Complement(x[1..], r[1..]);
    }
  }

  lemma {:induction false} AllOnes(x: seq<Limb>)
    requires forall t :: 0 <= t < |x| ==> x[t] == U32 - 1
    ensures Value(x) + 1 == PowB(|x|)
  {
    if x == [] {
    } else {
      AllOnes(x[1..]);
    }
  }

  lemma CarryUp(x: seq<Limb>, r: seq<Limb>, i: nat)
    requires |x| == |r| == WIDTH && i < WIDTH && r[i] == (x[i] + 1) % U32 && r[i + 1..] == x[i + 1..]
    requires forall t :: 0 <= t < i ==> r[t] == 0 && x[t] == U32 - 1
    requires r[i] == 0 ==> i == WIDTH - 1
    ensures Value(r) == (Value(x) + 1) % PowB(WIDTH)
  {
    hide Value;
    hide PowB;
    ValueCut(x, i);
    ValueCut(r, i);
    ValueDrop(x, i);
    ValueDrop(r, i);
    AllOnes(x[..i]);
    ValueZeros(r[..i]);
    ValueBound(r);
    var p, high := PowB(i), U32 * Value(x[i + 1..]);
    MulDist(p, x[i] + high, 1);
    if r[i] != 0 {
      DivUnique(Value(x) + 1, PowB(WIDTH), 0, Value(r));
    } else {
      assert Value(x[i + 1..]) == 0 by {
        ValueZeros(x[i + 1..]);
      }
      NextPower(i, 1);
      MulAssoc(p, U32, 1);
      DivUnique(Value(x) + 1, PowB(WIDTH), 1, Value(r));
    }
  }

  lemma BorrowUp(x: seq<Limb>, r: seq<Limb>, i: nat)
    requires |x| == |r| == WIDTH && i < WIDTH && r[i] == (x[i] + U32 - 1) % U32 && r[i + 1..] == x[i + 1..]
    requires forall t :: 0 <= t < i ==> r[t] == U32 - 1 && x[t] == 0
    requires r[i] == U32 - 1 ==> i == WIDTH - 1
    ensures Value(r) == (Value(x) + PowB(WIDTH) - 1) % PowB(WIDTH)
  {
    hide Value;
    hide PowB;
    ValueCut(x, i);
    ValueCut(r, i);
    ValueDrop(x, i);
    ValueDrop(r, i);
    AllOnes(r[..i]);
    ValueZeros(x[..i]);
    ValueBound(r);
    var p, high := PowB(i), U32 * Value(x[i + 1..]);
    if r[i] != U32 - 1 {
      BorrowHere(p, x[i], r[i], high);
      BelowByOne(Value(x), Value(r), PowB(WIDTH));
    } else {
      assert Value(x[i + 1..]) == 0 by {
        ValueZeros(x[i + 1..]);
      }
      NextPower(i, 1);
      BorrowOut(p);
      DivUnique(Value(x) + PowB(WIDTH) - 1, PowB(WIDTH), 0, Value(r));
    }
  }

  lemma BorrowHere(p: nat, xi: nat, ri: nat, high: nat)
    requires ri + 1 == xi
    ensures p * (xi + high) == p - 1 + p * (ri + high) + 1
  {
    MulDist(p, ri + high, 1);
  }

  lemma BorrowOut(p: nat)
    ensures p - 1 + p * (U32 - 1) == U32 * p - 1
  {
    MulDist(p, U32, -1);
  }

  lemma BelowByOne(x: nat, r: nat, t: nat)
    requires r < t && x == r + 1
    ensures (x + t - 1) % t == r
  {
    DivUnique(x + t - 1, t, 1, r);
  }

  lemma ModAddMod(x: nat, z: nat, m: nat)
    requires m > 0
    ensures (x + z % m) % m == (x + z) % m
  {
    DivMod(z, m);
    ModShift(m, z / m, x + z % m);
  }

  lemma SubExact(x: nat, y: nat, m: nat)
    requires y <= x < m
    ensures (x + m - y) % m == x - y
  {
    DivUnique(x + m - y, m, 1, x - y);
  }

  // ---------- products ----------

  lemma ProductFits(carry: nat, z: nat, x: Limb, y: Limb)
    requires carry < U32 && z < U32
    ensures 0 <= x * y && carry + z + x * y < U64
  {
    MulMono(x, y, U32 - 1);
    MulMono(U32 - 1, x, U32 - 1);
  }

  lemma WordStep(r: seq<Limb>, x: seq<Limb>, b32: Limb, i: nat, carry: nat, n: nat)
    requires |r| == |x| && i < |x| && n == carry + b32 * x[i] && r[i] == n % U32
    requires Value(r[..i]) + PowB(i) * carry == Value(x[..i]) * b32
    ensures Value(r[..i + 1]) + PowB(i + 1) * (n / U32) == Value(x[..i + 1]) * b32
  {
    hide Value;
    hide PowB;
    ValueNext(r, i);
    ValueNext(x, i);
    CarryAlgebra(PowB(i), carry, b32 * x[i], 0, n);
    NextPower(i, n / U32);
    MulDist(b32, Value(x[..i]), PowB(i) * x[i]);
    Swapped(PowB(i), b32, x[i]);
  }

  lemma Swapped(p: nat, a: nat, b: nat)
    ensures p * (a * b) == a * (p * b)
  {
    MulAssoc(p, a, b);
    MulAssoc(a, p, b);
  }

  /** The row limb aj of the schoolbook product, added to x from limb j on, when i limbs of y are done. */
  ghost predicate RowState(r: seq<Limb>, x: seq<Limb>, y: seq<Limb>, aj: Limb, i: nat, j: nat, carry: nat)
    requires |r| == |x| && i + j <= |x| && i <= |y|
  {
    Value(r[..i + j]) + PowB(i + j) * carry == Value(x[..i + j]) + PowB(j) * (aj * Value(y[..i]))
  }

  lemma MulRowStart(x: seq<Limb>, y: seq<Limb>, aj: Limb, j: nat)
    requires j <= |x|
    ensures RowState(x, x, y, aj, 0, j, 0)
  {
    assert y[..0] == [];
  }

  lemma RowStep(was: seq<Limb>, r: seq<Limb>, x: seq<Limb>, y: seq<Limb>, aj: Limb, i: nat, j: nat, carry: nat, n: nat)
    requires |was| == |r| == |x| && i + j < |x| && i < |y| && n == carry + x[i + j] + aj * y[i]
    requires r == was[i + j := n % U32] && RowState(was, x, y, aj, i, j, carry)
    ensures RowState(r, x, y, aj, i + 1, j, n / U32)
  {
    hide Value;
    hide PowB;
    assert r[..i + j] == was[..i + j] && i + 1 + j == i + j + 1;
    ValueNext(r, i + j);
    ValueNext(x, i + j);
    ValueNext(y, i);
    CarryAlgebra(PowB(i + j), carry, x[i + j], aj * y[i], n);
    NextPower(i + j, n / U32);
    PowBAdd(i, j);
    RowAlgebra(PowB(i), PowB(j), aj, Value(y[..i]), y[i]);
  }

  lemma RowAlgebra(pi: nat, pj: nat, aj: nat, v: nat, yi: nat)
    ensures pj * (aj * (v + pi * yi)) == pj * (aj * v) + pi * pj * (aj * yi)
  {
    MulDist(aj, v, pi * yi);
    MulDist(pj, aj * v, aj * (pi * yi));
    Swapped(aj, pi, yi);
    MulAssoc(pj, pi, aj * yi);
  }

  lemma RowEnd(r: seq<Limb>, x: seq<Limb>, y: seq<Limb>, aj: Limb, j: nat, carry: nat)
    requires |r| == |x| == |y| == WIDTH && j < WIDTH && RowState(r, x, y, aj, WIDTH - j, j, carry)
    ensures Value(r) + PowB(WIDTH) * (carry + aj * Value(y[WIDTH - j..])) == Value(x) + PowB(j) * (aj * Value(y))
  {
    hide Value;
    hide PowB;
    var i := WIDTH - j;
    assert r[..8] == r && x[..8] == x;
    ValueCut(y, i);
    PowBAdd(i, j);
    RowAlgebra(PowB(i), PowB(j), aj, Value(y[..i]), Value(y[i..]));
    MulDist(PowB(WIDTH), carry, aj * Value(y[i..]));
  }

  lemma MulStart(x: seq<Limb>, y: seq<Limb>)
    ensures Value(x[..0]) * Value(y) == 0
  {
    assert x[..0] == [];
  }

  lemma MulNextRow(x: seq<Limb>, j: nat, v: nat)
    requires j < |x|
    ensures Value(x[..j + 1]) * v == Value(x[..j]) * v + PowB(j) * (x[j] * v)
  {
    hide Value;
    hide PowB;
    ValueNext(x, j);
    MulDist(v, Value(x[..j]), PowB(j) * x[j]);
    MulAssoc(PowB(j), x[j], v);
  }

  // ---------- long division ----------

  lemma SmallerBits(x: nat, y: nat, xb: nat, yb: nat)
    requires xb < yb && (xb == 0 ==> x == 0) && (xb > 0 ==> x < Pow2(xb)) && Pow2(yb - 1) <= y
    ensures x / y == 0 && x % y == x
  {
    hide Pow2;
    Pow2Add(xb, yb - 1 - xb);
    MulMono(Pow2(xb), 1, Pow2(yb - 1 - xb));
    DivUnique(x, y, 0, x);
  }

  /** Aligning the divisor with the dividend loses no bits. */
  lemma AlignExact(y: nat, xb: nat, yb: nat, shift: nat)
    requires 0 < yb <= xb <= 32 * WIDTH && shift == xb - yb && y < Pow2(yb)
    ensures y * Pow2(shift) % PowB(WIDTH) == y * Pow2(shift)
  {
    hide *;
    TopPower(xb);
    Pow2Add(yb, shift);
    FitsBelow(y, Pow2(yb), Pow2(shift), PowB(WIDTH));
  }

  lemma TopPower(n: nat)
    requires n <= 32 * WIDTH
    ensures Pow2(n) <= PowB(WIDTH)
  {
    hide Pow2;
    hide PowB;
    PowBIsPow2(WIDTH);
    Pow2Add(n, 32 * WIDTH - n);
    MulMono(Pow2(n), 1, Pow2(32 * WIDTH - n));
  }

  lemma MulBelow(y: nat, yp: nat, p: nat)
    requires y < yp && p > 0
    ensures y * p < yp * p
  {
    MulMono(p, y, yp - 1);
    MulDist(p, yp, -1);
  }

  lemma FitsBelow(y: nat, yp: nat, p: nat, top: nat)
    requires y < yp && yp * p <= top && 0 < p
    ensures top > 0 && y * p % top == y * p
  {
    MulMono(p, y, yp - 1);
    MulDist(p, yp, -1);
    DivUnique(y * p, top, 0, y * p);
  }

  lemma AlignOver(x: nat, y: nat, xb: nat, yb: nat, shift: nat)
    requires 0 < yb <= xb && shift == xb - yb && x < Pow2(xb) && Pow2(yb - 1) <= y
    ensures x < y * Pow2(shift + 1)
  {
    hide Pow2;
    Pow2Add(yb - 1, shift + 1);
    MulMono(Pow2(shift + 1), Pow2(yb - 1), y);
  }

  lemma PowDouble(n: nat)
    ensures Pow2(n + 1) == 2 * Pow2(n)
  {
  }

  /** Quotient q so far and rest r, when the bits of the quotient from n up are decided. */
  ghost predicate DivState(x: nat, y: nat, n: nat, q: nat, r: nat, k: nat)
  {
    q == Pow2(n) * k && r + q * y == x && r < y * Pow2(n)
  }

  lemma DivStart(x: nat, y: nat, shift: nat)
    requires x < y * Pow2(shift + 1)
    ensures DivState(x, y, shift + 1, 0, x, 0)
  {
    hide Pow2;
  }

  lemma DivTake(x: nat, y: nat, shift: nat, q: nat, r: nat, k: nat)
    requires DivState(x, y, shift + 1, q, r, k) && r >= y * Pow2(shift)
    ensures q == Pow2(shift + 1) * k
    ensures DivState(x, y, shift, q + Pow2(shift), r - y * Pow2(shift), 2 * k + 1)
  {
    PowDouble(shift);
    hide Pow2;
    var p := Pow2(shift);
    MulDouble(y, p);
    MulDist(y, q, p);
    Doubled(p, k);
  }

  lemma Doubled(p: nat, k: nat)
    ensures 2 * p * k == p * (2 * k) && p * (2 * k + 1) == 2 * p * k + p
  {
    MulDouble(p, k);
    MulAssoc(2, p, k);
    MulDist(p, 2 * k, 1);
  }

  lemma DivSkip(x: nat, y: nat, shift: nat, q: nat, r: nat, k: nat)
    requires DivState(x, y, shift + 1, q, r, k) && r < y * Pow2(shift)
    ensures DivState(x, y, shift, q, r, 2 * k)
  {
    PowDouble(shift);
    hide Pow2;
    Doubled(Pow2(shift), k);
  }

  lemma DivEnd(x: nat, y: nat, q: nat, r: nat, k: nat)
    requires DivState(x, y, 0, q, r, k)
    ensures y > 0 && x / y == q && x % y == r
  {
    Pow2Small(0);
    DivUnique(x, y, q, r);
  }

  lemma HalfExact(y: nat, shift: nat)
    ensures shift >= 1 ==> Shr(y * Pow2(shift), 1) == y * Pow2(shift - 1)
  {
    if shift >= 1 {
      MulDouble(y, Pow2(shift - 1));
      Pow2Table();
      ShrUnique(y * Pow2(shift), 1, y * Pow2(shift - 1), 0);
    }
  }

  /** A number that is a multiple of Pow2(32 * idx + b) leaves no low bits in limb idx. */
  lemma NoLowBits(s: seq<Limb>, idx: nat, b: nat, k: nat)
    requires idx < |s| && b <= 32 && Value(s) == Pow2(32 * idx + b) * k
    ensures Low(s[idx], b) == 0
  {
    hide *;
    var rest := Value(s[idx + 1..]);
    ValueCut(s, idx);
    ValueDrop(s, idx);
    ValueBound(s[..idx]);
    PowBIsPow2(idx);
    Pow2Add(32 * idx, b);
    MulAssoc(PowB(idx), Pow2(b), k);
    DivUnique(Value(s), PowB(idx), Pow2(b) * k, 0);
    DivUnique(Value(s), PowB(idx), s[idx] + U32 * rest, Value(s[..idx]));
    ShrUnique(s[idx] + U32 * rest, b, k, 0);
    LowOfLimb(s[idx], rest, b);
  }

  /** Setting bit m of a limb whose bits 0 to m are clear. */
  lemma SetInLimb(x: Limb, m: nat)
    requires m < 32 && Low(x, m + 1) == 0
    ensures Or(x, Pow2(m)) == x + Pow2(m) < U32
  {
    hide *;
    var b := m + 1;
    var j := Shr(x, b);
    ShrLow(x, b);
    PowDouble(m);
    OrDisjoint(j, Pow2(m), b);
    ShrFits(x, b);
    PowSplit(b);
    RoomBelow(Pow2(b), Pow2(32 - b), j, Pow2(m));
  }

  lemma ShrFits(x: Limb, b: nat)
    requires b <= 32
    ensures Shr(x, b) < Pow2(32 - b)
  {
    hide *;
    UpParts(x, 32 - b);
  }

  /** When all bits of a number up to `shift` are clear, so are those of the limb that holds it. */
  lemma ClearBelow(s: seq<Limb>, shift: nat, k: nat)
    requires |s| == WIDTH && shift < 32 * WIDTH && Value(s) == Pow2(shift + 1) * k
    ensures Or(s[shift / 32], Pow2(shift % 32)) == s[shift / 32] + Pow2(shift % 32) < U32
  {
    hide Value;
    hide Pow2;
    hide Or;
    hide Low;
    assert 32 * (shift / 32) + (shift % 32 + 1) == shift + 1;
    NoLowBits(s, shift / 32, shift % 32 + 1, k);
    SetInLimb(s[shift / 32], shift % 32);
  }

  lemma LowOfLimb(x: nat, rest: nat, b: nat)
    requires b <= 32
    ensures Low(x + U32 * rest, b) == Low(x, b)
  {
    hide Pow2;
    PowSplit(b);
    MulAssoc(Pow2(b), Pow2(32 - b), rest);
    ModShift(Pow2(b), Pow2(32 - b) * rest, x);
  }
}
