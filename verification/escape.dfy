/**
  The escape-time membership test: iterate `z ← z² + c` from `z = 0` and
  report whether the orbit stays within modulus 2 for a fixed number of steps.
 */
module Escape {
  import opened ComplexPlane

  /** The iteration cap the program is built with. */
  const MAX_ITER: nat := 1000

  /** One step of the quadratic recurrence: square, then add `c`. */
  function Step(z: Complex, c: Complex): Complex
  {
    Add(Square(z), c)
  }

  /** The `k`-th iterate of the recurrence started at the origin. */
  function Iterate(c: Complex, k: nat): Complex
  {
    if k == 0 then Zero else Step(Iterate(c, k - 1), c)
  }

  /** `z` has left the disc of radius 2 (compared on the squared modulus). */
  predicate Escaped(z: Complex)
  {
    ModulusSq(z) > 4.0
  }

  /** None of the iterates `1 .. n` of `c` has escaped, checked from the last one back. */
  predicate Bounded(c: Complex, n: nat)
  {
    n == 0 || (Bounded(c, n - 1) && !Escaped(Iterate(c, n)))
  }

  /**
    The bounded escape-time test. It returns 1 exactly when the first `maxIter`
    iterates all stay within modulus 2, and 0 otherwise; when it returns 0,
    it did so at the first iterate that escaped.
   */
  method InMandelbrot(c: Complex, maxIter: nat) returns (r: int)
    ensures r == 0 || r == 1
    ensures r == 1 <==> Bounded(c, maxIter)
    ensures r == 0 ==> exists k :: 1 <= k <= maxIter && Escaped(Iterate(c, k)) && Bounded(c, k - 1)
  {
    var z := Zero;
    var i := 0;
    while i < maxIter
      invariant 0 <= i <= maxIter
      invariant z == Iterate(c, i)
      invariant Bounded(c, i)
    {
      IterateNext(c, i);
      var sq := Square(z);
      z := Complex(sq.re + c.re, sq.im + c.im);
      assert z == Iterate(c, i + 1);
      if ModulusSq(z) > 4.0 {
        assert Escaped(Iterate(c, i + 1)) && Bounded(c, (i + 1) - 1);
        BoundedMonotone(c, i + 1, maxIter);
        return 0;
      }
      i := i + 1;
    }
    return 1;
  }

  /** Unfolds one step of the orbit. */
  lemma IterateNext(c: Complex, k: nat)
    ensures Iterate(c, k + 1) == Step(Iterate(c, k), c)
  {
  }

  /** A point bounded for `n` steps has no escaped iterate among `1 .. n`. */
  lemma {:induction false} BoundedAt(c: Complex, n: nat, k: nat)
    requires Bounded(c, n) && 1 <= k <= n
    ensures !Escaped(Iterate(c, k))
  {
    if k < n {
      BoundedAt(c, n - 1, k);
    }
  }

  /** A point that is not bounded for `n` steps has an escaped iterate among `1 .. n`. */
  lemma {:induction false} EscapeWitness(c: Complex, n: nat) returns (k: nat)
    requires !Bounded(c, n)
    ensures 1 <= k <= n && Escaped(Iterate(c, k))
  {
    if Bounded(c, n - 1) {
      k := n;
    } else {
      k := EscapeWitness(c, n - 1);
    }
  }

  /**
    `Bounded` agrees with its direct reading: no iterate among the first `n`
    leaves the disc of radius 2.
   */
  lemma {:induction false} BoundedIff(c: Complex, n: nat)
    ensures Bounded(c, n) ==> forall k :: 1 <= k <= n ==> !Escaped(Iterate(c, k))
    ensures (forall k :: 1 <= k <= n ==> !Escaped(Iterate(c, k))) ==> Bounded(c, n)
  {
    if Bounded(c, n) {
      forall k | 1 <= k <= n
        ensures !Escaped(Iterate(c, k))
      {
        BoundedAt(c, n, k);
      }
    } else {
      var k := EscapeWitness(c, n);
    }
  }

  /** Boundedness for `n` steps implies it for every smaller cap. */
  lemma {:induction false} BoundedMonotone(c: Complex, m: nat, n: nat)
    requires m <= n
    ensures Bounded(c, n) ==> Bounded(c, m)
  {
    if m < n {
      BoundedMonotone(c, m, n - 1);
    }
  }

  /** From the origin, one step lands on `c`: the first iterate is `c` itself. */
  lemma FirstIterate(c: Complex)
    ensures Iterate(c, 1) == c
  {
    assert Iterate(c, 0) == Zero;
    assert Iterate(c, 1) == Add(Square(Iterate(c, 0)), c);
    SquareZero();
  }

  /** A `c` outside the radius-2 disc escapes at the first iterate. */
  lemma EscapeAtFirst(c: Complex, n: nat)
    requires 1 <= n && ModulusSq(c) > 4.0
    ensures !Bounded(c, n)
  {
    FirstIterate(c);
    assert !Bounded(c, 1);
    BoundedMonotone(c, 1, n);
  }

  /** If the `k-1`-th iterate of the origin is the origin, so is the `k`-th. */
  lemma OriginFixed(k: nat)
    requires 0 < k && Iterate(Zero, k - 1) == Zero
    ensures Iterate(Zero, k) == Zero
  {
    IterateNext(Zero, k - 1);
    SquareZero();
  }

  /** Every iterate of the origin is the origin. */
  lemma {:induction false} IterateZero(k: nat)
    ensures Iterate(Zero, k) == Zero
  {
    if k > 0 {
      IterateZero(k - 1);
      OriginFixed(k);
    }
  }

  /** The origin is a member for every iteration cap. */
  lemma {:induction false} ZeroIsMember(n: nat)
    ensures Bounded(Zero, n)
  {
    if n > 0 {
      ZeroIsMember(n - 1);
      IterateZero(n);
    }
  }

  /** The orbit of the conjugate is the conjugate of the orbit. */
  lemma {:induction false} IterateConj(c: Complex, k: nat)
    ensures Iterate(Conj(c), k) == Conj(Iterate(c, k))
  {
    if k > 0 {
      IterateConj(c, k - 1);
      var z := Iterate(c, k - 1);
      SquareConj(z);
      AddConj(Square(z), c);
      assert Iterate(Conj(c), k) == Add(Square(Iterate(Conj(c), k - 1)), Conj(c));
      assert Iterate(c, k) == Add(Square(z), c);
    }
  }

  /** Membership is symmetric about the real axis. */
  lemma {:induction false} BoundedConj(c: Complex, n: nat)
    ensures Bounded(Conj(c), n) <==> Bounded(c, n)
  {
    if n > 0 {
      BoundedConj(c, n - 1);
      IterateConj(c, n);
      ConjModulus(Iterate(c, n));
    }
  }
}
