/**
  The nonces of one job: the server fixes the low bytes, every mining thread has its own
  value of the bytes from the twentieth on, and steps through the bytes between. Nothing
  limits how many bytes the server fixes, so its bits may reach into the thread's own.
*/
module Nonces {
  import opened Arith
  import opened Limbs
  import opened Uint256

  /** Bits below the byte that tells the threads apart. */
  const THREADBITS: nat := 8 * 19

  /** Where thread pos starts, and where thread pos - 1 ends: the server's nonce or the number of the thread. */
  function Limit(base: nat, pos: nat): nat
  {
    Or(base, pos * Pow2(THREADBITS))
  }

  /** The nonce after k increments, when the server fixes `bits` bits. */
  function Nonce(base: nat, pos: nat, bits: nat, k: nat): nat
  {
    After(Limit(base, pos), bits, k)
  }

  /** x after k increments of 2^bits in 256 bits. */
  function After(x: nat, bits: nat, k: nat): nat
  {
    Wrap(x + k * Pow2(bits))
  }

  function Wrap(n: nat): (r: nat)
    ensures r < PowB(WIDTH)
  {
    n % PowB(WIDTH)
  }

  /** The test for the end of the range succeeds after k solves. */
  predicate MeetsEnd(base: nat, pos: nat, bits: nat, k: nat)
  {
    k > 0 && Nonce(base, pos, bits, k) == Limit(base, pos + 1)
  }

  /**
    A nonce is the server's nonce or the thread's number at bit 152, plus k times 2^bits, in 256 bits; the
    end is the start of the next thread, and the first nonce is not compared with it.
  */
  lemma NonceExact(base: nat, pos: nat, bits: nat, k: nat)
    ensures Nonce(base, pos, bits, k) == (Or(base, pos * Pow2(152)) + k * Pow2(bits)) % Pow2(256)
    ensures MeetsEnd(base, pos, bits, k) <==>
            k > 0 && (Or(base, pos * Pow2(152)) + k * Pow2(bits)) % Pow2(256) == Or(base, (pos + 1) * Pow2(152))
  {
    hide Pow2, PowB, Or;
    PowBIsPow2(WIDTH);
  }

  /** The steps of a thread through its range, when the server's bits lie below the thread's. */
  function Steps(bits: nat): nat
    requires bits <= THREADBITS
  {
    Pow2(THREADBITS - bits)
  }

  // ---------- where a thread starts ----------

  lemma Pow2Of64()
    ensures Pow2(64) == U64
  {
    Pow2Of32();
    hide Pow2;
    Pow2Add(32, 32);
  }

  /** The number of a thread is not cut off at the top. */
  lemma LimitFits(base: nat, pos: nat)
    requires base < PowB(WIDTH) && pos < U64
    ensures pos * Pow2(THREADBITS) < PowB(WIDTH) && Limit(base, pos) < PowB(WIDTH)
  {
    hide Pow2;
    hide PowB;
    hide Or;
    Pow2Of64();
    Pow2Add(64, THREADBITS);
    TopPower(64 + THREADBITS);
    MulBelow(pos, Pow2(64), Pow2(THREADBITS));
    PowBIsPow2(WIDTH);
    OrBound(base, pos * Pow2(THREADBITS), 32 * WIDTH);
  }

  /** Without an overlap the two parts add up. */
  lemma LimitIsSum(base: nat, pos: nat)
    requires base < Pow2(THREADBITS)
    ensures Limit(base, pos) == base + pos * Pow2(THREADBITS)
  {
    hide Pow2;
    hide Or;
    OrDisjoint(pos, base, THREADBITS);
    OrComm(base, pos * Pow2(THREADBITS));
  }

  /** setServerNonce: the step that leaves the server's bits alone. */
  method ServerIncrement(bits: nat) returns (inc: BaseUint)
    ensures fresh(inc) && fresh(inc.pn) && inc.Valid() && inc.Val() == Pow2(bits) % PowB(WIDTH)
  {
    hide Value;
    hide Pow2;
    hide PowB;
    inc := new BaseUint();
    inc.Assign(1);
    inc.ShiftLeft(bits);
  }

  /** baseNonce | (add << 152). */
  method ThreadBase(baseNonce: BaseUint, add: nat) returns (nonce: BaseUint)
    requires baseNonce.Valid() && add < U64
    ensures fresh(nonce) && fresh(nonce.pn) && nonce.Valid() && nonce.Val() == Limit(baseNonce.Val(), add)
  {
    hide Value;
    hide Pow2;
    hide PowB;
    hide Or;
    var high := new BaseUint();
    high.Assign(add);
    high.ShiftLeft(THREADBITS);
    ValueBound(baseNonce.pn[..]);
    LimitFits(baseNonce.Val(), add);
    DivUnique(add * Pow2(THREADBITS), PowB(WIDTH), 0, add * Pow2(THREADBITS));
    nonce := new BaseUint.Copy(baseNonce);
    nonce.OrAssign(high);
  }

  // ---------- increments modulo 2^256 ----------

  lemma AfterIs(x: nat, bits: nat, k: nat, q: nat, r: nat)
    requires x + k * Pow2(bits) == PowB(WIDTH) * q + r && r < PowB(WIDTH)
    ensures After(x, bits, k) == r
  {
    hide Pow2;
    hide PowB;
    DivUnique(x + k * Pow2(bits), PowB(WIDTH), q, r);
  }

  lemma SameLow(x: nat, y: nat, b: nat, d: int)
    requires y == x + Pow2(b) * d
    ensures Low(x, b) == Low(y, b)
  {
    hide Pow2;
    var p := Pow2(b);
    DivMod(x, p);
    DivMod(y, p);
    MulDist(p, x / p, d);
    var q := x / p + d;
    if q < 0 {
      MulMono(p, q, -1);
      assert false;
    }
    DivUnique(y, p, q, x % p);
  }

  lemma Difference(x: nat, y: nat, b: nat) returns (d: int)
    requires Low(x, b) == Low(y, b)
    ensures y == x + Pow2(b) * d
  {
    hide Pow2;
    var p := Pow2(b);
    DivMod(x, p);
    DivMod(y, p);
    MulDist(p, y / p, -(x / p));
    d := y / p - x / p;
  }

  /** From 256 bits on the increment is zero. */
  lemma NoStep(x: nat, bits: nat, k: nat)
    requires x < PowB(WIDTH) && bits >= 32 * WIDTH
    ensures After(x, bits, k) == x && Low(x, bits) == x
  {
    hide Pow2;
    hide PowB;
    var t, n := PowB(WIDTH), Pow2(bits - 32 * WIDTH);
    PowBIsPow2(WIDTH);
    Pow2Add(bits - 32 * WIDTH, 32 * WIDTH);
    MulAssoc(t, n, k);
    DivUnique(x + k * Pow2(bits), t, n * k, x);
    MulMono(t, 1, n);
    LowSmall(x, bits);
  }

  /** No increment changes the bits below the increment. */
  lemma AfterLow(x: nat, bits: nat, k: nat)
    requires x < PowB(WIDTH)
    ensures Low(After(x, bits, k), bits) == Low(x, bits)
  {
    hide Pow2;
    hide PowB;
    hide Low;
    if bits >= 32 * WIDTH {
      NoStep(x, bits, k);
    } else {
      var p, m, t := Pow2(bits), Pow2(32 * WIDTH - bits), PowB(WIDTH);
      PowBIsPow2(WIDTH);
      Pow2Add(bits, 32 * WIDTH - bits);
      var n := x + k * p;
      DivMod(n, t);
      MulAssoc(p, m, n / t);
      MulDist(p, k, -(m * (n / t)));
      SameLow(x, n % t, bits, k - m * (n / t));
    }
  }

  /** A number is reached exactly when it has the same bits below the increment. */
  lemma ReachedExactly(x: nat, y: nat, bits: nat)
    requires x < PowB(WIDTH) && y < PowB(WIDTH)
    ensures (exists k: nat :: k > 0 && After(x, bits, k) == y) <==> Low(x, bits) == Low(y, bits)
  {
    hide *;
    forall k: nat | After(x, bits, k) == y
      ensures Low(x, bits) == Low(y, bits)
    {
      AfterLow(x, bits, k);
    }
    if Low(x, bits) == Low(y, bits) {
      var k := Reach(x, y, bits);
    }
  }

  lemma BackBelow(x: nat, y: nat, p: nat, d: int, m: nat)
    requires y == x + p * d && x < p * m
    ensures d + m > 0
  {
    if d + m <= 0 {
      MulMono(p, d + m, 0);
      MulDist(p, d, m);
      assert false;
    }
  }

  lemma Reach(x: nat, y: nat, bits: nat) returns (k: nat)
    requires x < PowB(WIDTH) && y < PowB(WIDTH) && Low(x, bits) == Low(y, bits)
    ensures k > 0 && After(x, bits, k) == y
    ensures bits < 32 * WIDTH ==> k <= Pow2(32 * WIDTH - bits) && (k == Pow2(32 * WIDTH - bits) ==> x == y)
    ensures bits >= 32 * WIDTH ==> k == 1
  {
    hide *;
    if bits >= 32 * WIDTH {
      k := 1;
      NoStep(x, bits, k);
      NoStep(y, bits, k);
    } else {
      var p, m, t := Pow2(bits), Pow2(32 * WIDTH - bits), PowB(WIDTH);
      PowBIsPow2(WIDTH);
      Pow2Add(bits, 32 * WIDTH - bits);
      var d := Difference(x, y, bits);
      if d > 0 {
        k := d;
        StepsBelow(x, y, p, d, m);
        AfterIs(x, bits, k, 0, y);
      } else {
        BackBelow(x, y, p, d, m);
        k := d + m;
        MulDist(p, d, m);
        AfterIs(x, bits, k, 1, y);
        NoDifference(x, y, p, d);
      }
    }
  }

  lemma StepsBelow(x: nat, y: nat, p: nat, d: nat, m: nat)
    requires y == x + p * d && y < p * m
    ensures d < m
  {
    if d >= m {
      MulMono(p, m, d);
      assert false;
    }
  }

  lemma NoDifference(x: nat, y: nat, p: nat, d: int)
    requires y == x + p * d
    ensures d == 0 ==> x == y
  {
  }

  // ---------- the end of the range ----------

  /**
    The test for the end of the range is met after some solves exactly when the limits of
    the thread and of the next agree in the bits that the server fixes.
  */
  lemma RangeEndsExactly(base: nat, pos: nat, bits: nat)
    requires base < PowB(WIDTH) && pos + 1 < U64
    ensures (exists k: nat :: MeetsEnd(base, pos, bits, k)) <==>
            Low(Limit(base, pos), bits) == Low(Limit(base, pos + 1), bits)
  {
    hide Pow2;
    hide PowB;
    hide Limit;
    hide After;
    hide Low;
    var x, y := Limit(base, pos), Limit(base, pos + 1);
    LimitFits(base, pos);
    LimitFits(base, pos + 1);
    ReachedExactly(x, y, bits);
    if k: nat :| k > 0 && After(x, bits, k) == y {
      assert MeetsEnd(base, pos, bits, k);
    }
    if k: nat :| MeetsEnd(base, pos, bits, k) {
      assert After(x, bits, k) == y;
    }
  }

  /** Nonces of a range do not wrap, and are the number of the thread, the step and the server's bits side by side. */
  lemma NonceParts(base: nat, pos: nat, bits: nat, k: nat)
    requires bits <= THREADBITS && base < Pow2(bits) && pos + 1 < U64 && k <= Steps(bits)
    ensures Nonce(base, pos, bits, k) == (pos * Steps(bits) + k) * Pow2(bits) + base
    ensures Limit(base, pos) == pos * Steps(bits) * Pow2(bits) + base
  {
    hide Pow2;
    hide PowB;
    hide Limit;
    hide Steps;
    hide After;
    StepsFill(bits);
    WithinRange(base, bits);
    LimitIsSum(base, pos);
    LimitIsSum(base, pos + 1);
    SideBySide(pos, Steps(bits), k, Pow2(bits));
    LimitFits(base, pos + 1);
    AfterIs(Limit(base, pos), bits, k, 0, Limit(base, pos) + k * Pow2(bits));
  }

  lemma SideBySide(pos: nat, n: nat, k: nat, p: nat)
    requires k <= n
    ensures (pos * n + k) * p == pos * n * p + k * p <= (pos + 1) * (n * p)
    ensures pos * n * p == pos * (n * p)
  {
    MulAssoc(pos, n, p);
    MulDist(p, pos * n, k);
    MulMono(p, k, n);
    MulDist(n * p, pos, 1);
  }

  lemma WithinRange(base: nat, bits: nat)
    requires bits <= THREADBITS && base < Pow2(bits)
    ensures base < Pow2(THREADBITS) <= PowB(WIDTH)
  {
    hide Pow2;
    hide PowB;
    StepsFill(bits);
    TopPower(THREADBITS);
    MulMono(Pow2(bits), 1, Steps(bits));
  }

  lemma StepsFill(bits: nat)
    requires bits <= THREADBITS
    ensures Steps(bits) * Pow2(bits) == Pow2(THREADBITS) && Steps(bits) >= 1
  {
    hide Pow2;
    Pow2Add(THREADBITS - bits, bits);
  }

  /** While the server's bits lie below the thread's, the end is met first after all the steps of the range. */
  lemma RangeLength(base: nat, pos: nat, bits: nat, k: nat)
    requires bits <= THREADBITS && base < Pow2(bits) && pos + 1 < U64 && 0 < k <= Steps(bits)
    ensures MeetsEnd(base, pos, bits, k) <==> k == Steps(bits)
  {
    hide Pow2;
    hide Limit;
    hide Nonce;
    hide Steps;
    StepsFill(bits);
    NonceParts(base, pos, bits, k);
    WithinRange(base, bits);
    LimitIsSum(base, pos + 1);
    SideBySide(pos, Steps(bits), k, Pow2(bits));
    SideBySide(pos, Steps(bits), Steps(bits), Pow2(bits));
    MulDist(Steps(bits) * Pow2(bits), pos, 1);
    if k < Steps(bits) {
      MulBelow(k, Steps(bits), Pow2(bits));
    }
  }

  // ---------- what the nonces share ----------

  lemma OrLow(a: nat, b: nat, n: nat)
    ensures Low(Or(a, b), n) == Or(Low(a, n), Low(b, n))
  {
    hide *;
    ShrLow(a, n);
    ShrLow(b, n);
    OrBound(Low(a, n), Low(b, n), n);
    OrOfParts(a, b, n, Shr(a, n), Low(a, n), Shr(b, n), Low(b, n));
    ShrUnique(Or(a, b), n, Or(Shr(a, n), Shr(b, n)), Or(Low(a, n), Low(b, n)));
  }

  lemma OrOfParts(a: nat, b: nat, n: nat, hi: nat, lo: nat, hi': nat, lo': nat)
    requires a == Pow2(n) * hi + lo && b == Pow2(n) * hi' + lo' && lo < Pow2(n) && lo' < Pow2(n)
    ensures Or(a, b) == Pow2(n) * Or(hi, hi') + Or(lo, lo')
  {
    hide *;
    OrSplit(hi, lo, hi', lo', n);
  }

  /**
    The bits of the server survive in a nonce exactly when those of the thread's number that
    reach into them are set there.
  */
  lemma ServerBitsKept(base: nat, pos: nat, bits: nat, k: nat)
    requires base < PowB(WIDTH) && base < Pow2(bits) && pos < U64
    ensures Low(Nonce(base, pos, bits, k), bits) == base <==> Or(base, Low(pos * Pow2(THREADBITS), bits)) == base
    ensures bits <= THREADBITS ==> Low(Nonce(base, pos, bits, k), bits) == base
  {
    hide Pow2;
    hide PowB;
    hide Or;
    hide Low;
    LimitFits(base, pos);
    AfterLow(Limit(base, pos), bits, k);
    OrLow(base, pos * Pow2(THREADBITS), bits);
    LowSmall(base, bits);
    if bits <= THREADBITS {
      StepsFill(bits);
      var n := pos * Steps(bits);
      MulAssoc(pos, Steps(bits), Pow2(bits));
      ShrUnique(pos * Pow2(THREADBITS), bits, n, 0);
      OrZero(base);
    }
  }

  /**
    While the server's bits lie below the thread's, all nonces of a job are different, within a
    thread and between threads.
  */
  lemma NoncesDiffer(base: nat, pos: nat, pos': nat, bits: nat, k: nat, k': nat)
    requires bits <= THREADBITS && base < Pow2(bits) && k < Steps(bits) && k' < Steps(bits)
    requires pos + 1 < U64 && pos' + 1 < U64
    requires Nonce(base, pos, bits, k) == Nonce(base, pos', bits, k')
    ensures pos == pos' && k == k'
  {
    hide Pow2;
    hide Nonce;
    hide Steps;
    NonceParts(base, pos, bits, k);
    NonceParts(base, pos', bits, k');
    SameNonce(pos, pos', Steps(bits), k, k', Pow2(bits), base);
  }

  lemma SameNonce(pos: nat, pos': nat, n: nat, k: nat, k': nat, p: nat, base: nat)
    requires k < n && k' < n && base < p && (pos * n + k) * p + base == (pos' * n + k') * p + base
    ensures pos == pos' && k == k'
  {
    SamePart(p, pos * n + k, pos' * n + k', base, base);
    SamePart(n, pos, pos', k, k');
  }

  lemma SamePart(p: nat, q: nat, q': nat, r: nat, r': nat)
    requires r < p && r' < p && q * p + r == q' * p + r'
    ensures q == q' && r == r'
  {
    DivUnique(q * p + r, p, q, r);
    DivUnique(q * p + r, p, q', r');
  }

  lemma AfterNothing(x: nat, bits: nat)
    requires x < PowB(WIDTH)
    ensures After(x, bits, 0) == x
  {
    hide Pow2;
    hide PowB;
    DivUnique(x, PowB(WIDTH), 0, x);
  }

  // ---------- which nonces are tried twice ----------

  /** The thread comes to its k-th nonce: the end has not been met before. */
  ghost predicate TriedAt(base: nat, pos: nat, bits: nat, k: nat)
  {
    forall j: nat :: j <= k ==> !MeetsEnd(base, pos, bits, j)
  }

  /** Both threads come to one nonce. */
  ghost predicate Shared(base: nat, pos: nat, pos': nat, bits: nat, k: nat, k': nat)
  {
    && TriedAt(base, pos, bits, k) && TriedAt(base, pos', bits, k')
    && Nonce(base, pos, bits, k) == Nonce(base, pos', bits, k')
  }

  lemma FirstTried(base: nat, pos: nat, bits: nat)
    ensures TriedAt(base, pos, bits, 0)
  {
  }

  /** Above the server's bits a limit is the thread's number. */
  lemma LimitHigh(base: nat, pos: nat, bits: nat)
    requires THREADBITS <= bits && base < Pow2(bits)
    ensures Shr(Limit(base, pos), bits) == Shr(pos, bits - THREADBITS)
  {
    hide Pow2;
    hide Or;
    hide Shr;
    var high := pos * Pow2(THREADBITS);
    OrHigh(base, high, bits);
    LowSmall(base, bits);
    ShrUnique(high, THREADBITS, pos, 0);
    ShrShr(high, bits - THREADBITS, THREADBITS);
    OrComm(0, Shr(high, bits));
    OrZero(Shr(high, bits));
  }

  lemma OrHigh(a: nat, b: nat, n: nat)
    ensures Shr(Or(a, b), n) == Or(Shr(a, n), Shr(b, n))
  {
    hide *;
    ShrLow(a, n);
    ShrLow(b, n);
    OrBound(Low(a, n), Low(b, n), n);
    OrOfParts(a, b, n, Shr(a, n), Low(a, n), Shr(b, n), Low(b, n));
    ShrUnique(Or(a, b), n, Or(Shr(a, n), Shr(b, n)), Or(Low(a, n), Low(b, n)));
  }

  lemma ShrNext(x: nat, b: nat)
    ensures Shr(x + 1, b) == Shr(x, b) + if Low(x + 1, b) == 0 then 1 else 0
  {
    hide *;
    var p, h, l := Pow2(b), Shr(x, b), Low(x, b);
    ShrLow(x, b);
    if l + 1 == p {
      MulDist(p, h, 1);
      ShrUnique(x + 1, b, h + 1, 0);
    } else {
      ShrUnique(x + 1, b, h, l + 1);
    }
  }

  /** k increments change the bits above the increment by k, modulo what fits above it. */
  lemma AfterHigh(x: nat, y: nat, bits: nat, k: nat) returns (q: nat)
    requires x < PowB(WIDTH) && y < PowB(WIDTH) && bits < 32 * WIDTH && After(x, bits, k) == y
    ensures Shr(x, bits) + k == Pow2(32 * WIDTH - bits) * q + Shr(y, bits)
  {
    hide Pow2;
    hide PowB;
    hide Low;
    hide Shr;
    AfterLow(x, bits, k);
    ShrLow(x, bits);
    ShrLow(y, bits);
    PowBIsPow2(WIDTH);
    Pow2Add(bits, 32 * WIDTH - bits);
    q := Turns(x + k * Pow2(bits));
    HighAlgebra(Pow2(bits), Pow2(32 * WIDTH - bits), Shr(x, bits), Shr(y, bits), Low(x, bits), k, q);
  }

  lemma Turns(n: nat) returns (q: nat)
    ensures n == PowB(WIDTH) * q + Wrap(n)
  {
    hide PowB;
    DivMod(n, PowB(WIDTH));
    q := n / PowB(WIDTH);
  }

  lemma HighAlgebra(p: nat, m: nat, hx: nat, hy: nat, l: nat, k: nat, q: nat)
    requires p > 0 && p * hx + l + k * p == p * m * q + (p * hy + l)
    ensures hx + k == m * q + hy
  {
    MulDist(p, hx, k);
    MulAssoc(p, m, q);
    MulDist(p, m * q, hy);
    MulCancel(p, hx + k, m * q + hy);
  }

  lemma MulCancel(p: nat, a: int, b: int)
    requires p > 0 && p * a == p * b
    ensures a == b
  {
    if a < b {
      MulMono(p, a + 1, b);
      MulDist(p, a, 1);
    } else if a > b {
      MulMono(p, b + 1, a);
      MulDist(p, b, 1);
    }
  }

  /**
    When the server's bits reach into the thread's number, an end met before all increments
    have come round is met after the first solve.
  */
  lemma EndAtOnce(base: nat, pos: nat, bits: nat, k: nat)
    requires THREADBITS < bits < 32 * WIDTH && base < Pow2(bits) && pos + 1 < U64
    requires 0 < k < Pow2(32 * WIDTH - bits) && MeetsEnd(base, pos, bits, k)
    ensures k == 1
  {
    hide Pow2;
    hide PowB;
    hide Limit;
    hide After;
    hide Shr;
    hide Low;
    WithinWidth(base, bits);
    LimitFits(base, pos);
    LimitFits(base, pos + 1);
    var q := AfterHigh(Limit(base, pos), Limit(base, pos + 1), bits, k);
    LimitHigh(base, pos, bits);
    LimitHigh(base, pos + 1, bits);
    ShrNext(pos, bits - THREADBITS);
    if q > 0 {
      MulMono(Pow2(32 * WIDTH - bits), 1, q);
      assert false;
    }
  }

  lemma WithinWidth(base: nat, bits: nat)
    requires bits <= 32 * WIDTH && base < Pow2(bits)
    ensures base < PowB(WIDTH)
  {
    hide Pow2;
    hide PowB;
    TopPower(bits);
  }

  /**
    That happens exactly when the limits agree in the server's bits and the number of the next
    thread ends in zeros there.
  */
  lemma EndAtOnceExactly(base: nat, pos: nat, bits: nat)
    requires THREADBITS < bits < 32 * WIDTH && base < Pow2(bits) && pos + 1 < U64
    ensures MeetsEnd(base, pos, bits, 1) <==>
            && Low(Limit(base, pos), bits) == Low(Limit(base, pos + 1), bits)
            && Low(pos + 1, bits - THREADBITS) == 0
  {
    hide Pow2;
    hide PowB;
    hide Limit;
    hide After;
    hide Shr;
    hide Low;
    var x, y, m := Limit(base, pos), Limit(base, pos + 1), Pow2(32 * WIDTH - bits);
    WithinWidth(base, bits);
    LimitFits(base, pos);
    LimitFits(base, pos + 1);
    LimitHigh(base, pos, bits);
    LimitHigh(base, pos + 1, bits);
    ShrNext(pos, bits - THREADBITS);
    if MeetsEnd(base, pos, bits, 1) {
      AfterLow(x, bits, 1);
      var q := AfterHigh(x, y, bits, 1);
      PowAtLeastTwo(32 * WIDTH - bits);
      if q > 0 {
        MulMono(m, 1, q);
        assert false;
      }
    }
    if Low(x, bits) == Low(y, bits) && Low(pos + 1, bits - THREADBITS) == 0 {
      ShrLow(x, bits);
      ShrLow(y, bits);
      MulDist(Pow2(bits), Shr(x, bits), 1);
      AfterIs(x, bits, 1, 0, y);
    }
  }

  lemma PowAtLeastTwo(n: nat)
    requires n > 0
    ensures Pow2(n) >= 2
  {
  }

  /** A thread that does not end at once comes to every nonce with its low bits. */
  lemma ComesToAll(base: nat, pos: nat, bits: nat, y: nat) returns (k: nat)
    requires THREADBITS < bits && base < Pow2(bits) && base < PowB(WIDTH) && pos + 1 < U64 && y < PowB(WIDTH)
    requires Low(Limit(base, pos), bits) == Low(y, bits) && !MeetsEnd(base, pos, bits, 1)
    ensures TriedAt(base, pos, bits, k) && Nonce(base, pos, bits, k) == y
  {
    hide Pow2;
    hide PowB;
    hide Limit;
    hide After;
    hide Low;
    hide MeetsEnd;
    var x := Limit(base, pos);
    LimitFits(base, pos);
    if bits >= 32 * WIDTH {
      NoStep(x, bits, 0);
      NoStep(y, bits, 0);
      NoEndYet(base, pos, bits);
      k := 0;
    } else {
      k := Reach(x, y, bits);
      NoEndYet(base, pos, bits);
      if k == Pow2(32 * WIDTH - bits) {
        AfterNothing(x, bits);
        k := 0;
      } else {
        forall j: nat | j <= k
          ensures !MeetsEnd(base, pos, bits, j)
        {
          if 0 < j && MeetsEnd(base, pos, bits, j) {
            EndAtOnce(base, pos, bits, j);
            assert false;
          }
        }
      }
    }
  }

  lemma NoEndYet(base: nat, pos: nat, bits: nat)
    ensures !MeetsEnd(base, pos, bits, 0) && TriedAt(base, pos, bits, 0)
  {
  }

  /**
    When the server's bits reach into the thread's number, two threads try a common nonce
    exactly when their limits agree in those bits and they do not both end at once, or the
    limits are the same altogether.
  */
  lemma LongNoncesSharedExactly(base: nat, pos: nat, pos': nat, bits: nat)
    requires THREADBITS < bits && base < Pow2(bits) && base < PowB(WIDTH) && pos + 1 < U64 && pos' + 1 < U64
    ensures (exists k: nat, k': nat :: Shared(base, pos, pos', bits, k, k')) <==>
            && Low(Limit(base, pos), bits) == Low(Limit(base, pos'), bits)
            && (|| Limit(base, pos) == Limit(base, pos')
                || !MeetsEnd(base, pos, bits, 1) || !MeetsEnd(base, pos', bits, 1))
  {
    hide *;
    var x, y := Limit(base, pos), Limit(base, pos');
    SomeLimits(base, pos, pos');
    StartNonce(base, pos, bits);
    StartNonce(base, pos', bits);
    forall k: nat, k': nat | Shared(base, pos, pos', bits, k, k')
      ensures Low(x, bits) == Low(y, bits)
      ensures x == y || !MeetsEnd(base, pos, bits, 1) || !MeetsEnd(base, pos', bits, 1)
    {
      SharedParts(base, pos, pos', bits, k, k');
      AfterLow(x, bits, k);
      AfterLow(y, bits, k');
      EndedAtOnce(base, pos, bits, k);
      EndedAtOnce(base, pos', bits, k');
    }
    if Low(x, bits) == Low(y, bits) {
      if x == y {
        MakeShared(base, pos, pos', bits, 0, 0);
      } else if !MeetsEnd(base, pos, bits, 1) {
        var k := ComesToAll(base, pos, bits, y);
        MakeShared(base, pos, pos', bits, k, 0);
      } else if !MeetsEnd(base, pos', bits, 1) {
        var k := ComesToAll(base, pos', bits, x);
        MakeShared(base, pos, pos', bits, 0, k);
      }
    }
  }

  lemma SomeLimits(base: nat, pos: nat, pos': nat)
    requires base < PowB(WIDTH) && pos + 1 < U64 && pos' + 1 < U64
    ensures Limit(base, pos) < PowB(WIDTH) && Limit(base, pos') < PowB(WIDTH)
  {
    LimitFits(base, pos);
    LimitFits(base, pos');
  }

  lemma StartNonce(base: nat, pos: nat, bits: nat)
    requires Limit(base, pos) < PowB(WIDTH)
    ensures Nonce(base, pos, bits, 0) == Limit(base, pos) && TriedAt(base, pos, bits, 0)
  {
    hide Limit;
    hide After;
    AfterNothing(Limit(base, pos), bits);
  }

  lemma SharedParts(base: nat, pos: nat, pos': nat, bits: nat, k: nat, k': nat)
    requires Shared(base, pos, pos', bits, k, k')
    ensures TriedAt(base, pos, bits, k) && TriedAt(base, pos', bits, k')
    ensures After(Limit(base, pos), bits, k) == After(Limit(base, pos'), bits, k')
    ensures Nonce(base, pos, bits, k) == Nonce(base, pos', bits, k')
  {
    hide TriedAt;
    hide Limit;
    hide After;
  }

  lemma MakeShared(base: nat, pos: nat, pos': nat, bits: nat, k: nat, k': nat)
    requires TriedAt(base, pos, bits, k) && TriedAt(base, pos', bits, k')
    requires Nonce(base, pos, bits, k) == Nonce(base, pos', bits, k')
    ensures Shared(base, pos, pos', bits, k, k')
  {
    hide TriedAt;
    hide Nonce;
  }

  lemma EndedAtOnce(base: nat, pos: nat, bits: nat, k: nat)
    requires TriedAt(base, pos, bits, k)
    ensures MeetsEnd(base, pos, bits, 1) ==> k == 0
  {
    hide MeetsEnd;
    if k >= 1 {
      assert !MeetsEnd(base, pos, bits, 1);
    }
  }

  /** While the server's bits lie below the thread's, a nonce tried lies within the range. */
  lemma TriedInRange(base: nat, pos: nat, bits: nat, k: nat)
    requires bits <= THREADBITS && base < Pow2(bits) && pos + 1 < U64 && TriedAt(base, pos, bits, k)
    ensures k < Steps(bits)
  {
    hide MeetsEnd;
    hide Pow2;
    hide Steps;
    StepsFill(bits);
    RangeLength(base, pos, bits, Steps(bits));
  }

  /** Which two threads try a common nonce in one job, for every server nonce. */
  lemma NoncesSharedExactly(base: nat, pos: nat, pos': nat, bits: nat)
    requires base < Pow2(bits) && base < PowB(WIDTH) && pos + 1 < U64 && pos' + 1 < U64
    ensures (exists k: nat, k': nat :: Shared(base, pos, pos', bits, k, k')) <==>
            if bits <= THREADBITS then pos == pos'
            else
              && Low(Limit(base, pos), bits) == Low(Limit(base, pos'), bits)
              && (|| Limit(base, pos) == Limit(base, pos')
                  || !MeetsEnd(base, pos, bits, 1) || !MeetsEnd(base, pos', bits, 1))
  {
    hide Pow2, PowB, Limit, Low, MeetsEnd, TriedAt, Nonce, Shared;
    if bits <= THREADBITS {
      forall k: nat, k': nat | Shared(base, pos, pos', bits, k, k')
        ensures pos == pos'
      {
        SharedParts(base, pos, pos', bits, k, k');
        TriedInRange(base, pos, bits, k);
        TriedInRange(base, pos', bits, k');
        NoncesDiffer(base, pos, pos', bits, k, k');
      }
      if pos == pos' {
        NoEndYet(base, pos, bits);
        MakeShared(base, pos, pos', bits, 0, 0);
      }
    } else {
      LongNoncesSharedExactly(base, pos, pos', bits);
    }
  }

  /** With all 256 bits fixed two threads try a common nonce exactly when they start on it. */
  lemma AllBytesSharedExactly(base: nat, pos: nat, pos': nat, bits: nat)
    requires 32 * WIDTH <= bits && base < PowB(WIDTH) && base < Pow2(bits) && pos + 1 < U64 && pos' + 1 < U64
    ensures (exists k: nat, k': nat :: Shared(base, pos, pos', bits, k, k')) <==> Limit(base, pos) == Limit(base, pos')
  {
    hide *;
    SomeLimits(base, pos, pos');
    LongNonce(bits);
    NoStep(Limit(base, pos), bits, 0);
    NoStep(Limit(base, pos'), bits, 0);
    LongNoncesSharedExactly(base, pos, pos', bits);
  }

  lemma LongNonce(bits: nat)
    requires 32 * WIDTH <= bits
    ensures THREADBITS < bits
  {
  }

  // ---------- what one thread tries twice ----------

  /** The thread comes to its nonce k', and it is one that it has tried before. */
  ghost predicate Repeated(base: nat, pos: nat, bits: nat, k: nat, k': nat)
  {
    k < k' && TriedAt(base, pos, bits, k') && Nonce(base, pos, bits, k) == Nonce(base, pos, bits, k')
  }

  /** All increments come round after 2^(256 - bits) steps, and not before. */
  lemma RoundTrip(x: nat, bits: nat, k: nat, k': nat)
    requires x < PowB(WIDTH) && bits < 32 * WIDTH && k < k' && After(x, bits, k) == After(x, bits, k')
    ensures k' >= Pow2(32 * WIDTH - bits)
  {
    hide Pow2;
    hide PowB;
    hide After;
    hide Shr;
    var y, m := After(x, bits, k), Pow2(32 * WIDTH - bits);
    AfterFits(x, bits, k);
    var q := AfterHigh(x, y, bits, k);
    var q' := AfterHigh(x, y, bits, k');
    RoundAlgebra(m, q, q', k, k');
  }

  lemma AfterFits(x: nat, bits: nat, k: nat)
    ensures After(x, bits, k) < PowB(WIDTH)
  {
  }

  lemma RoundAlgebra(m: nat, q: int, q': int, k: nat, k': nat)
    requires k < k' && k' - k == m * q' - m * q
    ensures k' >= m
  {
    MulDist(m, q', -q);
    if q' - q <= 0 {
      MulMono(m, q' - q, 0);
      assert false;
    }
    MulMono(m, 1, q' - q);
  }

  /**
    A thread tries a nonce twice before its end exactly when it has none: when its limit and
    that of the next thread differ in the server's bits. This holds for every server nonce.
  */
  lemma NonceRepeatedExactly(base: nat, pos: nat, bits: nat)
    requires base < PowB(WIDTH) && pos + 1 < U64
    ensures (exists k: nat, k': nat :: Repeated(base, pos, bits, k, k')) <==>
            Low(Limit(base, pos), bits) != Low(Limit(base, pos + 1), bits)
  {
    hide Pow2;
    hide PowB;
    hide Limit;
    hide Low;
    hide After;
    var x, y := Limit(base, pos), Limit(base, pos + 1);
    LimitFits(base, pos);
    LimitFits(base, pos + 1);
    if Low(x, bits) == Low(y, bits) {
      var r := Reach(x, y, bits);
      assert MeetsEnd(base, pos, bits, r);
      forall k: nat, k': nat | k < k' && TriedAt(base, pos, bits, k')
        ensures !Repeated(base, pos, bits, k, k')
      {
        BeforeEnd(base, pos, bits, r, k');
        NoRepeat(x, y, bits, r, k, k');
      }
    } else {
      NeverEnds(base, pos, bits);
      var k' := ComesRound(x, bits);
      AfterNothing(x, bits);
      assert Repeated(base, pos, bits, 0, k');
    }
  }

  lemma BeforeEnd(base: nat, pos: nat, bits: nat, r: nat, k: nat)
    requires MeetsEnd(base, pos, bits, r) && TriedAt(base, pos, bits, k)
    ensures k < r
  {
    hide MeetsEnd;
  }

  lemma NoRepeat(x: nat, y: nat, bits: nat, r: nat, k: nat, k': nat)
    requires x < PowB(WIDTH) && y < PowB(WIDTH) && k < k' < r
    requires bits < 32 * WIDTH ==> r <= Pow2(32 * WIDTH - bits)
    requires bits >= 32 * WIDTH ==> r == 1
    ensures After(x, bits, k) != After(x, bits, k')
  {
    hide Pow2;
    hide PowB;
    hide After;
    if After(x, bits, k) == After(x, bits, k') {
      RoundTrip(x, bits, k, k');
      assert false;
    }
  }

  lemma NeverEnds(base: nat, pos: nat, bits: nat)
    requires Limit(base, pos) < PowB(WIDTH) && Low(Limit(base, pos), bits) != Low(Limit(base, pos + 1), bits)
    ensures forall k: nat :: TriedAt(base, pos, bits, k)
  {
    hide Limit;
    hide Low;
    hide After;
    forall j: nat
      ensures !MeetsEnd(base, pos, bits, j)
    {
      AfterLow(Limit(base, pos), bits, j);
    }
  }

  lemma ComesRound(x: nat, bits: nat) returns (k: nat)
    requires x < PowB(WIDTH)
    ensures k > 0 && After(x, bits, k) == x
  {
    hide *;
    k := Reach(x, x, bits);
  }

  // ---------- server nonces of more than nineteen bytes ----------

  lemma {:induction false} OrSelf(a: nat)
    ensures Or(a, a) == a
  {
    if a == 0 {
    } else {
      OrSelf(a / 2);
    }
  }

  lemma LimitsOverlap()
    ensures Limit(Pow2(THREADBITS), 0) == Pow2(THREADBITS) == Limit(Pow2(THREADBITS), 1)
  {
    hide Pow2;
    hide Or;
    OrZero(Pow2(THREADBITS));
    OrSelf(Pow2(THREADBITS));
  }

  /**
    A twentieth byte that is 1: the threads 0 and 1 start on the same nonce, and thread 0 first
    meets its end after 2^96 solves.
  */
  lemma TwentyBytesSharedStart(k: nat)
    requires 0 < k <= Pow2(96)
    ensures Nonce(Pow2(THREADBITS), 0, 160, 0) == Nonce(Pow2(THREADBITS), 1, 160, 0)
    ensures MeetsEnd(Pow2(THREADBITS), 0, 160, k) <==> k == Pow2(96)
  {
    hide Pow2;
    hide PowB;
    hide Or;
    LimitsOverlap();
    hide Limit;
    hide After;
    PowBIsPow2(WIDTH);
    Pow2Add(96, 160);
    BelowTop();
    FirstWrap(Pow2(THREADBITS), 160, k, Pow2(96));
  }

  lemma FirstWrap(x: nat, bits: nat, k: nat, m: nat)
    requires x < Pow2(bits) && m * Pow2(bits) == PowB(WIDTH) && 0 < k <= m
    ensures After(x, bits, k) == x <==> k == m
  {
    hide *;
    var p := Pow2(bits);
    if k == m {
      AfterIs(x, bits, k, 1, x);
    } else {
      MulMono(p, k, m - 1);
      MulMono(p, 1, k);
      MulDist(p, m, -1);
      AfterIs(x, bits, k, 0, x + k * p);
    }
  }

  lemma BelowTop()
    ensures Pow2(THREADBITS) < Pow2(160) <= PowB(WIDTH)
  {
    hide Pow2;
    hide PowB;
    TopPower(160);
    Pow2Add(8, THREADBITS);
    Pow2Table();
    MulMono(Pow2(THREADBITS), 2, Pow2(8));
  }

  /** All 32 bytes fixed and the twentieth 1: the increment is zero and thread 0 ends after one solve. */
  lemma AllBytesOneSolve()
    ensures MeetsEnd(Pow2(THREADBITS), 0, 256, 1)
  {
    hide Pow2;
    hide PowB;
    hide Or;
    LimitsOverlap();
    hide Limit;
    BelowTop();
    NoStep(Pow2(THREADBITS), 256, 1);
  }

  /** Twenty zero bytes: thread 1 changes the server's bits, and thread 0 never meets its end. */
  lemma TwentyZeroBytes(k: nat)
    ensures Low(Nonce(0, 1, 160, k), 160) != 0 && !MeetsEnd(0, 0, 160, k)
  {
    hide Pow2;
    hide PowB;
    hide Or;
    hide Low;
    var x := Pow2(THREADBITS);
    OrZero(0);
    OrZero(x);
    OrComm(0, x);
    BelowTop();
    LowSmall(x, 160);
    LowSmall(0, 160);
    AfterLow(0, 160, k);
    AfterLow(x, 160, k);
  }

  lemma OverlapLimit(h: nat, pos: nat)
    ensures Limit(h * Pow2(THREADBITS), pos) == Or(h, pos) * Pow2(THREADBITS)
  {
    hide Pow2;
    hide Or;
    OrZero(0);
    OrSplit(h, 0, pos, 0, THREADBITS);
  }

  lemma SmallOrs()
    ensures Or(255, 255) == 255 && Or(255, 256) == 511 && Or(255, 511) == 511 && Or(255, 512) == 767
  {
    Pow2Table();
    OrZero(1);
    OrComm(0, 1);
    OrSelf(255);
    hide Or;
    hide Pow2;
    OrDisjoint(1, 255, 8);
    OrComm(255, 256);
    OrSplit(0, 255, 1, 255, 8);
    OrDisjoint(2, 255, 8);
    OrComm(255, 512);
  }

  lemma StepOf256(a: nat)
    requires a < 512
    ensures After(a * Pow2(THREADBITS), 160, 1) == (a + 256) * Pow2(THREADBITS) < PowB(WIDTH)
    ensures Low(a * Pow2(THREADBITS), 160) == Low((a + 256) * Pow2(THREADBITS), 160)
    ensures a * Pow2(THREADBITS) < Pow2(160) <==> a < 256
  {
    hide Pow2;
    hide PowB;
    hide After;
    hide Low;
    var p := Pow2(THREADBITS);
    Pow2Table();
    Pow2Add(8, THREADBITS);
    MulDist(p, a, 256);
    Pow2Add(10, THREADBITS);
    Pow2Add(9, 1);
    TopPower(10 + THREADBITS);
    MulMono(p, a + 256, 1024 - 1);
    MulDist(p, 1024, -1);
    AfterIs(a * p, 160, 1, 0, (a + 256) * p);
    SameLow(a * p, (a + 256) * p, 160, 1);
    if a < 256 {
      MulBelow(a, 256, p);
    } else {
      MulMono(p, 256, a);
    }
  }

  /**
    A twentieth byte of ones: the threads 255 and 511 start on different nonces that agree in the
    server's bits, yet each ends after one solve and they have no nonce in common.
  */
  lemma BothEndAtOnce()
    ensures var base := 255 * Pow2(THREADBITS);
            && Low(Limit(base, 255), 160) == Low(Limit(base, 511), 160)
            && MeetsEnd(base, 255, 160, 1) && MeetsEnd(base, 511, 160, 1)
            && forall k: nat, k': nat :: !Shared(base, 255, 511, 160, k, k')
  {
    hide Pow2;
    hide PowB;
    hide Or;
    hide Low;
    hide Limit;
    hide After;
    hide Shared;
    SmallOrs();
    OverlapLimit(255, 255);
    OverlapLimit(255, 256);
    OverlapLimit(255, 511);
    OverlapLimit(255, 512);
    StepOf256(255);
    StepOf256(511);
    MulBelow(255, 511, Pow2(THREADBITS));
    LongNoncesSharedExactly(255 * Pow2(THREADBITS), 255, 511, 160);
  }

  // ---------- the loop of the thread ----------

  /**
    One job: a solve for each nonce in turn, until the end of the range is met or, after
    `limit` solves, one of the thread's flags ends the loop.
  */
  method MineRange(baseNonce: BaseUint, pos: nat, bits: nat, limit: nat) returns (tried: seq<nat>, ended: bool)
    requires baseNonce.Valid() && pos + 1 < U64
    ensures |tried| <= limit && forall k :: 0 <= k < |tried| ==> tried[k] == Nonce(baseNonce.Val(), pos, bits, k)
    ensures forall k :: 0 <= k < |tried| ==> !MeetsEnd(baseNonce.Val(), pos, bits, k)
    ensures ended <==> MeetsEnd(baseNonce.Val(), pos, bits, |tried|)
    ensures !ended ==> |tried| == limit
    ensures ended ==> forall k: nat :: TriedAt(baseNonce.Val(), pos, bits, k) <==> k < |tried|
  {
    hide Value;
    hide Pow2;
    hide PowB;
    hide Limit;
    hide After;
    hide Or;
    hide Shr;
    ghost var base := baseNonce.Val();
    var inc := ServerIncrement(bits);
    var nonce := ThreadBase(baseNonce, pos);
    var nonceEnd := ThreadBase(baseNonce, pos + 1);
    ValueBound(baseNonce.pn[..]);
    LimitFits(base, pos);
    AfterNothing(Limit(base, pos), bits);
    tried := [];
    ended := false;
    while |tried| < limit
      invariant inc.Valid() && nonce.Valid() && nonceEnd.Valid() && fresh(nonce.pn)
      invariant nonce.pn != inc.pn && nonce.pn != nonceEnd.pn && nonce.pn != baseNonce.pn
      invariant inc.Val() == Pow2(bits) % PowB(WIDTH) && nonceEnd.Val() == Limit(base, pos + 1)
      invariant nonce.Val() == Nonce(base, pos, bits, |tried|) && |tried| <= limit
      invariant forall i :: 0 <= i < |tried| ==> tried[i] == Nonce(base, pos, bits, i)
      invariant forall k :: 0 <= k <= |tried| ==> !MeetsEnd(base, pos, bits, k)
      invariant base == baseNonce.Val() && !ended
      decreases limit - |tried|
    {
      ghost var k := |tried|;
      var n := Solved(nonce);
      tried := tried + [n];
      AfterNext(Limit(base, pos), bits, k);
      nonce.Add(inc);
      ended := nonce.Equals(nonceEnd);
      if ended {
        FirstEnd(base, pos, bits, |tried|);
        break;
      }
    }
  }

  lemma FirstEnd(base: nat, pos: nat, bits: nat, n: nat)
    requires MeetsEnd(base, pos, bits, n) && forall j: nat :: j < n ==> !MeetsEnd(base, pos, bits, j)
    ensures forall k: nat :: TriedAt(base, pos, bits, k) <==> k < n
  {
    hide MeetsEnd;
  }

  lemma AfterNext(x: nat, bits: nat, k: nat)
    ensures After(x, bits, k + 1) == Wrap(After(x, bits, k) + Wrap(Pow2(bits)))
  {
    hide Pow2;
    hide Wrap;
    MulDist(Pow2(bits), k, 1);
    WrapSum(x + k * Pow2(bits), Pow2(bits));
  }

  lemma WrapSum(n: nat, p: nat)
    ensures Wrap(n + p) == Wrap(Wrap(n) + Wrap(p))
  {
    hide PowB;
    var t := PowB(WIDTH);
    DivMod(n, t);
    DivMod(p, t);
    ModOfParts(t, n / t, n % t, p / t, p % t);
  }

  lemma ModOfParts(t: nat, a: nat, b: nat, c: nat, d: nat)
    requires t > 0
    ensures (t * a + b + (t * c + d)) % t == (b + d) % t
  {
    MulDist(t, a, c);
    ModShift(t, a + c, b + d);
  }

  /** The value a solve is run on. */
  method Solved(nonce: BaseUint) returns (n: nat)
    requires nonce.Valid()
    ensures n == nonce.Val()
  {
    n := 0;
    var i := WIDTH;
    while i > 0
      invariant 0 <= i <= WIDTH && n == Value(nonce.pn[i..])
    {
      i := i - 1;
      ValueDrop(nonce.pn[..], i);
      assert nonce.pn[..][i..] == nonce.pn[i..] && nonce.pn[..][i + 1..] == nonce.pn[i + 1..];
      n := nonce.pn[i] + U32 * n;
    }
    assert nonce.pn[0..] == nonce.pn[..];
  }
}
