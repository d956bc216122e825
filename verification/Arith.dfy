/**
  Integer facts used throughout: products and quotients by a variable, powers of
  two, the binary digits of a number, and bitwise exclusive-or.

  Machine words are modelled as naturals with their range stated. A shift by k is
  a product or a quotient by 2^k, and a mask of k low bits is a remainder modulo 2^k.
*/
module Arith {

  const U32: nat := 0x1_0000_0000
  const U64: nat := 0x1_0000_0000_0000_0000

  type Byte = x: nat | x < 256

  lemma MulDist(a: int, b: int, c: int)
    ensures a * (b + c) == a * b + a * c
  {
  }

  lemma MulAssoc(a: int, b: int, c: int)
    ensures a * (b * c) == (a * b) * c
  {
  }

  lemma MulDouble(a: int, b: int)
    ensures a * (2 * b) == 2 * (a * b)
  {
  }

  lemma MulMono(a: nat, b: int, c: int)
    requires b <= c
    ensures a * b <= a * c
  {
  }

  lemma DivMod(x: nat, d: nat)
    requires d > 0
    ensures x == d * (x / d) + x % d && 0 <= x % d < d
  {
  }

  lemma DivUnique(x: nat, d: nat, q: nat, r: nat)
    requires r < d && x == d * q + r
    ensures x / d == q && x % d == r
  {
    DivMod(x, d);
    var p := x / d;
    if p < q {
      MulMono(d, p + 1, q);
      MulDist(d, p, 1);
      assert false;
    }
    if p > q {
      MulMono(d, q + 1, p);
      MulDist(d, q, 1);
      assert false;
    }
  }

  lemma DivDiv(x: nat, a: nat, b: nat)
    requires a > 0 && b > 0
    ensures a * b > 0 && x / a / b == x / (a * b)
  {
    DivMod(x, a);
    DivMod(x / a, b);
    var q, s, r := x / a / b, x / a % b, x % a;
    MulDist(a, b * q, s);
    MulAssoc(a, b, q);
    MulMono(a, s, b - 1);
    MulDist(a, b, -1);
    MulMono(a, 1, b);
    DivUnique(x, a * b, q, a * s + r);
  }

  lemma ModShift(d: nat, m: nat, x: nat)
    requires d > 0
    ensures (d * m + x) % d == x % d
  {
    DivMod(x, d);
    MulDist(d, m, x / d);
    DivUnique(d * m + x, d, m + x / d, x % d);
  }

  function Pow2(n: nat): (p: nat)
    ensures p >= 1
  {
    if n == 0 then 1 else 2 * Pow2(n - 1)
  }

  lemma Pow2Table()
    ensures Pow2(0) == 1 && Pow2(1) == 2 && Pow2(2) == 4 && Pow2(3) == 8 && Pow2(4) == 16
    ensures Pow2(5) == 32 && Pow2(6) == 64 && Pow2(7) == 128 && Pow2(8) == 256 && Pow2(9) == 512
  {
  }

  lemma {:induction false} Pow2Add(a: nat, b: nat)
    ensures Pow2(a + b) == Pow2(a) * Pow2(b)
  {
    if a == 0 {
    } else {
      Pow2Add(a - 1, b);
      MulAssoc(2, Pow2(a - 1), Pow2(b));
    }
  }

  /** Whether binary digit j of x (digit 0 is the least significant) is set. */
  predicate BitAt(x: nat, j: nat)
    decreases j
  {
    if j == 0 then x % 2 == 1 else BitAt(x / 2, j - 1)
  }

  lemma {:induction false} BitAtDiv(x: nat, j: nat)
    ensures BitAt(x, j) == (x / Pow2(j) % 2 == 1)
  {
    if j == 0 {
    } else {
      BitAtDiv(x / 2, j - 1);
      DivDiv(x, 2, Pow2(j - 1));
    }
  }

  lemma ShiftStep(x: nat, j: nat)
    ensures x / Pow2(j) == 2 * (x / Pow2(j + 1)) + (if BitAt(x, j) then 1 else 0)
  {
    DivDiv(x, Pow2(j), 2);
    BitAtDiv(x, j);
  }

  /** Bitwise exclusive-or. */
  function Xor(a: nat, b: nat): nat
    decreases a + b
  {
    if a == 0 && b == 0 then 0 else 2 * Xor(a / 2, b / 2) + (a + b) % 2
  }

  lemma {:induction false} XorBit(a: nat, b: nat, j: nat)
    ensures BitAt(Xor(a, b), j) == (BitAt(a, j) != BitAt(b, j))
    decreases j
  {
    hide Xor;
    XorParts(a, b);
    if j == 0 {
    } else {
      XorBit(a / 2, b / 2, j - 1);
    }
  }

  lemma {:induction false} XorBound(a: nat, b: nat, n: nat)
    requires a < Pow2(n) && b < Pow2(n)
    ensures Xor(a, b) < Pow2(n)
    decreases n
  {
    if n == 0 {
    } else {
      XorBound(a / 2, b / 2, n - 1);
    }
  }

  lemma {:induction false} XorComm(a: nat, b: nat)
    ensures Xor(a, b) == Xor(b, a)
    decreases a + b
  {
    if a == 0 && b == 0 {
    } else {
      XorComm(a / 2, b / 2);
    }
  }

  lemma {:induction false} XorZero(a: nat, b: nat)
    ensures Xor(a, b) == 0 <==> a == b
    decreases a + b
  {
    if a == 0 && b == 0 {
    } else {
      XorZero(a / 2, b / 2);
    }
  }

  lemma {:induction false} XorAssoc(a: nat, b: nat, c: nat)
    ensures Xor(Xor(a, b), c) == Xor(a, Xor(b, c))
    decreases a + b + c
  {
    if a == 0 && b == 0 && c == 0 {
      assert Xor(0, 0) == 0;
    } else {
      hide Xor;
      XorAssoc(a / 2, b / 2, c / 2);
      XorParts(a, b);
      XorParts(b, c);
      var ab, bc := Xor(a, b), Xor(b, c);
      XorParts(ab, c);
      XorParts(a, bc);
      ParitySum(ab, c, a + b, c);
      ParitySum(a, bc, a, b + c);
      HalfEqual(Xor(ab, c), Xor(a, bc));
    }
  }

  lemma XorParts(a: nat, b: nat)
    ensures Xor(a, b) % 2 == (a + b) % 2 && Xor(a, b) / 2 == Xor(a / 2, b / 2)
  {
    if a == 0 && b == 0 {
    } else {
      HalfSum(Xor(a / 2, b / 2), (a + b) % 2);
    }
  }

  lemma {:induction false} XorIdentity(a: nat)
    ensures Xor(0, a) == a
  {
    if a == 0 {
    } else {
      XorIdentity(a / 2);
    }
  }

  /** hi followed by the k low bits of lo. */
  function Cat(hi: nat, lo: nat, k: nat): nat
    decreases k
  {
    if k == 0 then hi else 2 * Cat(hi, lo / 2, k - 1) + lo % 2
  }

  lemma {:induction false} CatValue(hi: nat, lo: nat, k: nat)
    requires lo < Pow2(k)
    ensures Cat(hi, lo, k) == hi * Pow2(k) + lo
    decreases k
  {
    if k == 0 {
    } else {
      CatValue(hi, lo / 2, k - 1);
      MulAssoc(hi, 2, Pow2(k - 1));
      MulAssoc(2, hi, Pow2(k - 1));
    }
  }

  /** Exclusive-or acts separately on the bits above and below position k. */
  lemma {:induction false} XorCat(hi: nat, lo: nat, hi': nat, lo': nat, k: nat)
    ensures Xor(Cat(hi, lo, k), Cat(hi', lo', k)) == Cat(Xor(hi, hi'), Xor(lo, lo'), k)
    decreases k
  {
    if k == 0 {
    } else {
      var x, y, z := Cat(hi, lo, k), Cat(hi', lo', k), Cat(Xor(hi, hi'), Xor(lo, lo'), k);
      assert x / 2 == Cat(hi, lo / 2, k - 1) && y / 2 == Cat(hi', lo' / 2, k - 1);
      XorParts(lo, lo');
      assert z / 2 == Cat(Xor(hi, hi'), Xor(lo / 2, lo' / 2), k - 1);
      XorCat(hi, lo / 2, hi', lo' / 2, k - 1);
      XorParts(x, y);
      ParitySum(x, y, lo, lo');
      HalfEqual(Xor(x, y), z);
    }
  }

  lemma HalfEqual(x: nat, y: nat)
    requires x / 2 == y / 2 && x % 2 == y % 2
    ensures x == y
  {
  }

  lemma ParitySum(x: nat, y: nat, a: nat, b: nat)
    requires x % 2 == a % 2 && y % 2 == b % 2
    ensures (x + y) % 2 == (a + b) % 2
  {
  }

  lemma HalfSum(x: nat, y: nat)
    ensures (2 * x + y) / 2 == x + y / 2 && (2 * x + y) % 2 == y % 2
  {
  }

  function XorByte(a: Byte, b: Byte): (r: Byte)
  {
    Pow2Table();
    XorBound(a, b, 8);
    Xor(a, b)
  }
}
