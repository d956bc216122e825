/**
  collisiondata: within one bucket, slots with equal rest bits are linked in lists.

  xhashslots holds the last slot added for each rest value and nextxhashslot the
  slot before it, so a walk from a new slot visits the earlier slots of its list
  from the highest down. The number XNIL, the 16-bit ~0, ends a list.
*/
module Collisions {
  import opened HashBits
  import opened Layers

  const XNIL: nat := 0xffff

  /** The highest slot below n whose rest is x, or XNIL. */
  function Prev(rests: seq<nat>, x: nat, n: nat): nat
    requires n <= |rests|
  {
    if n == 0 then XNIL else if rests[n - 1] == x then n - 1 else Prev(rests, x, n - 1)
  }

  /** Prev is the head of the partner list, and the list goes on below it. */
  lemma {:induction false} PrevHeads(rests: seq<nat>, x: nat, n: nat)
    requires n <= |rests| <= NSLOTS
    ensures var p := Prev(rests, x, n);
            if p == XNIL then Partners(rests, x, n) == []
            else p < n && rests[p] == x && Partners(rests, x, n) == [p] + Partners(rests, x, p)
  {
    if n == 0 {
    } else {
      PrevHeads(rests, x, n - 1);
    }
  }

  /** Slots added later do not change the lists below n. */
  lemma {:induction false} PrevPrefix(rests: seq<nat>, more: seq<nat>, x: nat, n: nat)
    requires n <= |rests|
    ensures Prev(rests + more, x, n) == Prev(rests, x, n)
    ensures Partners(rests + more, x, n) == Partners(rests, x, n)
  {
    if n == 0 {
    } else {
      PrevPrefix(rests, more, x, n - 1);
    }
  }

  /** The partners below n only depend on the rests below n. */
  lemma PartnersPrefix(rests: seq<nat>, x: nat, n: nat)
    requires n < |rests|
    ensures Partners(rests[..n + 1], x, n) == Partners(rests, x, n)
  {
    PrevPrefix(rests[..n + 1], rests[n + 1..], x, n);
    assert rests == rests[..n + 1] + rests[n + 1..];
  }

  /** How adding a slot with rest xh changes the list heads, and the link it stores. */
  lemma AddedLinks(rests: seq<nat>, xh: nat, x: nat)
    ensures Prev(rests + [xh], x, |rests| + 1) == if x == xh then |rests| else Prev(rests, x, |rests|)
    ensures Prev(rests + [xh], x, |rests|) == Prev(rests, x, |rests|)
  {
    PrevPrefix(rests, [xh], x, |rests|);
  }

  class CollisionData {
    const xhashslots: array<nat>
    const nextxhashslot: array<nat>
    var nextslot: nat
    var s0: nat

    /** The rest bits of the slots added since the last clear. */
    ghost var rests: seq<nat>

    /** The slots the current walk has still to visit. */
    ghost var pending: seq<nat>

    ghost predicate Valid()
      reads this, xhashslots, nextxhashslot
    {
      && xhashslots.Length == NRESTS && nextxhashslot.Length == NSLOTS && xhashslots != nextxhashslot
      && |rests| <= NSLOTS
      && (forall x :: 0 <= x < NRESTS ==> xhashslots[x] == Prev(rests, x, |rests|))
      && (forall i :: 0 <= i < |rests| ==> nextxhashslot[i] == Prev(rests, rests[i], i))
    }

    /** The walk stands before the head of pending. */
    ghost predicate Walking()
      reads this
    {
      && |rests| <= NSLOTS
      && if pending == [] then nextslot == XNIL
         else nextslot < |rests| && pending == [nextslot] + Partners(rests, rests[nextslot], nextslot)
    }

    constructor ()
      ensures Valid() && rests == []
      ensures fresh(xhashslots) && fresh(nextxhashslot)
    {
      xhashslots := new nat[NRESTS](_ => XNIL);
      nextxhashslot := new nat[NSLOTS](_ => XNIL);
      nextslot, s0 := XNIL, XNIL;
      rests, pending := [], [];
    }

    method Clear()
      requires Valid()
      modifies this`rests, xhashslots, nextxhashslot
      ensures Valid() && rests == []
    {
      forall x | 0 <= x < NRESTS {
        xhashslots[x] := XNIL;
      }
      forall i | 0 <= i < NSLOTS {
        nextxhashslot[i] := XNIL;
      }
      rests := [];
    }

    /** Links the next slot in and starts the walk over the earlier slots with its rest. */
    method AddSlot(s1: nat, xh: nat)
      requires Valid() && s1 == |rests| < NSLOTS && xh < NRESTS
      modifies this`nextslot, this`rests, this`pending, xhashslots, nextxhashslot
      ensures Valid() && Walking()
      ensures rests == old(rests) + [xh]
      ensures pending == Partners(rests, xh, s1)
    {
      hide Prev;
      hide Partners;
      ghost var before := rests;
      nextslot := xhashslots[xh];
      nextxhashslot[s1] := nextslot;
      xhashslots[xh] := s1;
      rests := rests + [xh];
      pending := Partners(rests, xh, s1);
      PrevHeads(rests, xh, s1);
      AddedLinks(before, xh, xh);
      forall x | 0 <= x < NRESTS
        ensures xhashslots[x] == Prev(rests, x, |rests|)
      {
        AddedLinks(before, xh, x);
      }
      forall i | 0 <= i < |rests|
        ensures nextxhashslot[i] == Prev(rests, rests[i], i)
      {
        if i < s1 {
          PrevPrefix(before, [xh], rests[i], i);
        }
      }
    }

    predicate NextCollision()
      requires Walking()
      reads this
      ensures NextCollision() <==> pending != []
    {
      nextslot != XNIL
    }

    /** Visits the next slot; the link it follows leads strictly down, so every walk ends. */
    method Slot() returns (s: nat)
      requires Valid() && Walking() && pending != []
      modifies this`nextslot, this`s0, this`pending
      ensures Valid() && Walking()
      ensures s == old(pending)[0] && pending == old(pending)[1..]
      ensures s == old(nextslot) && (nextslot == XNIL || nextslot < s)
    {
      PrevHeads(rests, rests[nextslot], nextslot);
      s0 := nextslot;
      nextslot := nextxhashslot[s0];
      pending := pending[1..];
      s := s0;
    }
  }
}
