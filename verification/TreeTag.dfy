/**
  The 32-bit tag of a tree node: the bucket its children lie in and their two
  slots, packed by shifts, or with a Cantor pairing of the slots.
*/
module TreeTag {
  import opened Arith
  import opened HashBits

  /** tree(bid, s0, s1) of the shift build. */
  function Tag(bid: nat, s0: nat, s1: nat): (w: nat)
    requires bid < NBUCKETS && s0 < NSLOTS && s1 < NSLOTS
    ensures w < U32
  {
    (bid * NSLOTS + s0) * NSLOTS + s1
  }

  function BucketId(w: nat): nat
  {
    w / (NSLOTS * NSLOTS)
  }

  function SlotId0(w: nat): nat
  {
    w / NSLOTS % NSLOTS
  }

  function SlotId1(w: nat): nat
  {
    w % NSLOTS
  }

  /** A tag gives back its three fields. */
  lemma TagRoundTrip(bid: nat, s0: nat, s1: nat)
    requires bid < NBUCKETS && s0 < NSLOTS && s1 < NSLOTS
    ensures BucketId(Tag(bid, s0, s1)) == bid
    ensures SlotId0(Tag(bid, s0, s1)) == s0
    ensures SlotId1(Tag(bid, s0, s1)) == s1
  {
  }

  /** Where the fields of a tag lie: 14 bits of bucket above 9 bits of each slot, the first slot higher. */
  lemma TagLayout(bid: nat, s0: nat, s1: nat)
    requires bid < NBUCKETS && s0 < NSLOTS && s1 < NSLOTS
    ensures Tag(bid, s0, s1) == bid * 0x4_0000 + s0 * 0x200 + s1
  {
  }

  /** prob_disjoint of the shift build, on the xor of two tags. */
  predicate ProbDisjoint(w: nat, v: nat)
  {
    var x := Xor(w, v);
    BucketId(x) != 0 || (SlotId0(x) != 0 && SlotId1(x) != 0)
  }

  /** It is false exactly for two nodes of one bucket that share a first or a second slot. */
  lemma ProbDisjointExact(w: nat, v: nat)
    ensures ProbDisjoint(w, v) <==>
            BucketId(w) != BucketId(v) || (SlotId0(w) != SlotId0(v) && SlotId1(w) != SlotId1(v))
  {
    hide Xor;
    var a, b, c := BucketId(w), SlotId0(w), SlotId1(w);
    var a', b', c' := BucketId(v), SlotId0(v), SlotId1(v);
    Recompose(w);
    Recompose(v);
    XorFields(a, b, c, a', b', c');
    Decompose(Xor(a, a'), Xor(b, b'), Xor(c, c'));
    XorZero(a, a');
    XorZero(b, b');
    XorZero(c, c');
  }

  function Compose(a: nat, b: nat, c: nat): nat
  {
    (a * NSLOTS + b) * NSLOTS + c
  }

  lemma Recompose(w: nat)
    ensures w == Compose(BucketId(w), SlotId0(w), SlotId1(w))
  {
    DivMod(w, NSLOTS);
    DivMod(w / NSLOTS, NSLOTS);
    DivDiv(w, NSLOTS, NSLOTS);
  }

  lemma Decompose(a: nat, b: nat, c: nat)
    requires b < NSLOTS && c < NSLOTS
    ensures BucketId(Compose(a, b, c)) == a && SlotId0(Compose(a, b, c)) == b && SlotId1(Compose(a, b, c)) == c
  {
  }

  lemma ComposeCat(a: nat, b: nat, c: nat)
    requires b < NSLOTS && c < NSLOTS
    ensures Compose(a, b, c) == Cat(Cat(a, b, 9), c, 9)
  {
    hide Cat;
    Pow2Table();
    CatValue(a, b, 9);
    CatValue(a * NSLOTS + b, c, 9);
  }

  lemma XorFields(a: nat, b: nat, c: nat, a': nat, b': nat, c': nat)
    requires b < NSLOTS && c < NSLOTS && b' < NSLOTS && c' < NSLOTS
    ensures Xor(Compose(a, b, c), Compose(a', b', c')) == Compose(Xor(a, a'), Xor(b, b'), Xor(c, c'))
    ensures Xor(b, b') < NSLOTS && Xor(c, c') < NSLOTS
  {
    hide Cat;
    hide Xor;
    hide Compose;
    Pow2Table();
    XorBound(b, b', 9);
    XorBound(c, c', 9);
    ComposeCat(a, b, c);
    ComposeCat(a', b', c');
    ComposeCat(Xor(a, a'), Xor(b, b'), Xor(c, c'));
    XorCat(a, b, a', b', 9);
    XorCat(Cat(a, b, 9), c, Cat(a', b', 9), c', 9);
  }

  // ---------- the CANTOR build ----------

  function Cantor(s0: nat, s1: nat): nat
  {
    s1 * (s1 + 1) / 2 + s0
  }

  /** The bucket times cap, plus the first slot, plus the triangular number of the second. */
  lemma CantorLayout(bid: nat, s0: nat, s1: nat, cap: nat)
    ensures 2 * (CantorTag(bid, s0, s1, cap) - bid * cap - s0) == s1 * (s1 + 1)
  {
    EvenProduct(s1);
  }

  /** What the static_assert demands: pairs below n fit into numbers below cap. */
  predicate CantorFits(n: nat, cap: nat)
  {
    n > 0 && (n - 1) * (n + 2) / 2 <= cap
  }

  function CantorTag(bid: nat, s0: nat, s1: nat, cap: nat): nat
  {
    bid * cap + Cantor(s0, s1)
  }

  /** k is the integer square root of x. */
  predicate IsRoot(k: nat, x: nat)
  {
    k * k <= x < (k + 1) * (k + 1)
  }

  lemma Square(a: nat)
    ensures (2 * a + 1) * (2 * a + 1) == 8 * (a * (a + 1) / 2) + 1
  {
    EvenProduct(a);
    SquareOfSum(2 * a, 1);
    MulDouble(a, a);
    MulDouble(2 * a, a);
    MulDist(a, a, 1);
  }

  lemma EvenProduct(a: nat)
    ensures a * (a + 1) == 2 * (a * (a + 1) / 2)
  {
    if a % 2 == 0 {
      assert a == 2 * (a / 2);
      MulAssoc(2, a / 2, a + 1);
    } else {
      assert a + 1 == 2 * ((a + 1) / 2);
      MulDouble(a, (a + 1) / 2);
    }
  }

  lemma MulSquares(a: nat, b: nat)
    requires a * a < b * b
    ensures a < b
  {
    if a >= b {
      MulMono(b, b, a);
      MulMono(a, b, a);
    }
  }

  /** The number under the root lies between two neighbouring odd squares. */
  lemma RootGivesSlot(s0: nat, s1: nat, k: nat)
    requires s0 < s1 && IsRoot(k, 8 * Cantor(s0, s1) + 1)
    ensures (k - 1) / 2 == s1
  {
    var x := 8 * Cantor(s0, s1) + 1;
    Square(s1);
    Square(s1 + 1);
    assert (2 * s1 + 1) * (2 * s1 + 1) <= x;
    TriangleStep(s1);
    assert x < (2 * s1 + 3) * (2 * s1 + 3);
    MulSquares(2 * s1 + 1, k + 1);
    MulSquares(k, 2 * s1 + 3);
  }

  lemma TriangleStep(a: nat)
    ensures (a + 1) * (a + 2) / 2 == a * (a + 1) / 2 + a + 1
  {
    MulDist(a + 1, a, 2);
    assert (a + 1) * (a + 2) == a * (a + 1) + 2 * (a + 1);
  }

  /** One Newton step from above the root stays at or above it. */
  lemma NewtonStep(x: nat, k: nat, m: nat)
    requires k > 0 && m * m <= x
    ensures k + x / k >= 2 * m
  {
    DivMod(x, k);
    var q := x / k;
    if k + q < 2 * m {
      // then k * (q + 1) <= k * (2 * m - k) <= m * m <= x
      MulMono(k, q + 1, 2 * m - k);
      MulDist(k, q, 1);
      SquareDifference(m, k);
      assert false;
    }
  }

  lemma SquareDifference(m: int, k: int)
    ensures k * (2 * m - k) <= m * m
  {
    var d := m - k;
    MulDist(k, k, 2 * d);
    MulDouble(k, d);
    SquareOfSum(k, d);
    NoNegativeSquare(d);
  }

  lemma SquareOfSum(a: int, b: int)
    ensures (a + b) * (a + b) == a * a + 2 * (a * b) + b * b
  {
    MulDist(a + b, a, b);
    MulDist(a, a, b);
    MulDist(b, a, b);
  }

  lemma NoNegativeSquare(d: int)
    ensures d * d >= 0
  {
  }

  /** slotid1 of the CANTOR build: Newton's iteration from twice the slot count. */
  method CantorSlot1(w: nat, cap: nat, n: nat, ghost s0: nat, ghost s1: nat) returns (slot: nat)
    requires cap > 0 && CantorFits(n, cap) && s0 < s1 < n && w % cap == Cantor(s0, s1)
    ensures slot == s1
  {
    var sqr := 8 * (w % cap) + 1;
    var k := 2 * n;
    ghost var m := 2 * s1 + 1;
    Square(s1);
    assert m * m <= sqr;
    StartAbove(s0, s1, n);
    while sqr / k < k
      invariant k > 0 && sqr < (k + 1) * (k + 1)
      decreases k
    {
      NewtonKeepsAbove(sqr, k);
      NewtonStep(sqr, k, m);
      k := (k + sqr / k) / 2;
    }
    RootReached(sqr, k);
    RootGivesSlot(s0, s1, k);
    slot := (k - 1) / 2;
  }

  lemma StartAbove(s0: nat, s1: nat, n: nat)
    requires s0 < s1 < n
    ensures 8 * Cantor(s0, s1) + 1 < (2 * n + 1) * (2 * n + 1)
  {
    Square(s1);
    Square(s1 + 1);
    TriangleStep(s1);
    MulMono(2 * s1 + 3, 2 * s1 + 3, 2 * n + 1);
    MulMono(2 * n + 1, 2 * s1 + 3, 2 * n + 1);
  }

  lemma RootReached(x: nat, k: nat)
    requires k > 0 && x / k >= k && x < (k + 1) * (k + 1)
    ensures IsRoot(k, x)
  {
    DivMod(x, k);
    MulMono(k, k, x / k);
  }

  /** The average of k and x / k, rounded down, is at or above the root. */
  lemma NewtonKeepsAbove(x: nat, k: nat)
    requires k > 0
    ensures var j := (k + x / k) / 2; x < (j + 1) * (j + 1)
  {
    var j := (k + x / k) / 2;
    if (j + 1) * (j + 1) <= x {
      NewtonStep(x, k, j + 1);
      assert false;
    }
  }

  /** Both fields come back: the second slot by the root, the first by subtraction. */
  lemma CantorRoundTrip(bid: nat, s0: nat, s1: nat, n: nat, cap: nat)
    requires cap > 0 && CantorFits(n, cap) && s0 < s1 < n
    ensures var w := CantorTag(bid, s0, s1, cap);
            w / cap == bid && w % cap == Cantor(s0, s1) && w % cap - Cantor(0, s1) == s0
  {
    CantorBound(s0, s1, n);
    DivUnique(CantorTag(bid, s0, s1, cap), cap, bid, Cantor(s0, s1));
  }

  lemma CantorBound(s0: nat, s1: nat, n: nat)
    requires s0 < s1 < n
    ensures Cantor(s0, s1) < (n - 1) * (n + 2) / 2
  {
    TriangleMono(s1, n - 1);
    assert (n - 1) * (n + 2) == (n - 1) * n + 2 * (n - 1) by {
      MulDist(n - 1, n, 2);
    }
  }

  /** The static_assert asks for exactly what is needed: that the number of every pair of slots is below cap. */
  lemma CantorFitsExact(n: nat, cap: nat)
    requires n > 0
    ensures CantorFits(n, cap) <==> forall s0: nat, s1: nat :: s0 < s1 < n ==> Cantor(s0, s1) < cap
  {
    forall s0: nat, s1: nat | s0 < s1 < n
      ensures Cantor(s0, s1) < (n - 1) * (n + 2) / 2
    {
      CantorBound(s0, s1, n);
    }
    if n > 1 {
      LastPair(n);
    }
  }

  lemma LastPair(n: nat)
    requires n > 1
    ensures Cantor(n - 2, n - 1) + 1 == (n - 1) * (n + 2) / 2
  {
    MulDist(n - 1, n, 2);
  }

  lemma {:induction false} TriangleMono(a: nat, b: nat)
    requires a <= b
    ensures a * (a + 1) / 2 + (b - a) <= b * (b + 1) / 2
    decreases b - a
  {
    if a < b {
      TriangleMono(a + 1, b);
      TriangleStep(a);
    }
  }
}
