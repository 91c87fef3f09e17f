/** The numeric primitives the per-frame rules share: the exponential used for
    damping (kept abstract, with only the laws the proofs need), the constant
    pi, and the damping law `v / exp(deltaT * 4)` used by both the player and
    the swarm. */
module Physics {

  /** `Math.PI` as a decimal. Only ever added, so its exact value is immaterial. */
  const PI: real := 3.141592653589793

  /** The laws of the natural exponential that the model relies on: it is
      positive everywhere, at least 1 on non-negative arguments and above 1 on
      positive ones. Every function passed as `exp` is assumed to obey them. */
  ghost predicate IsExp(exp: real -> real)
  {
    forall t :: 0.0 < exp(t) && (0.0 <= t ==> 1.0 <= exp(t)) && (0.0 < t ==> 1.0 < exp(t))
  }

  /** Exponential damping over one frame of length `deltaT`. */
  function Decay(v: real, deltaT: real, exp: real -> real): real
    requires IsExp(exp)
  {
    v / exp(deltaT * 4.0)
  }

  /** Damping with a non-negative frame length never flips the sign of a value
      and never makes it larger in magnitude; with a positive frame length a
      non-zero value shrinks strictly. */
  lemma DecayShrinks(v: real, deltaT: real, exp: real -> real)
    requires IsExp(exp) && 0.0 <= deltaT
    ensures 0.0 <= v ==> 0.0 <= Decay(v, deltaT, exp) <= v
    ensures v <= 0.0 ==> v <= Decay(v, deltaT, exp) <= 0.0
    ensures 0.0 < deltaT && v != 0.0 ==> Abs(Decay(v, deltaT, exp)) < Abs(v)
  {
    var e := exp(deltaT * 4.0);
    assert 1.0 <= e;
    assert 0.0 < deltaT ==> 1.0 < e;
    var r := v / e;
    assert Decay(v, deltaT, exp) == r;
    assert r * e == v;
    if 0.0 <= v {
      assert 0.0 <= r;
      assert r <= r * e;
      if 0.0 < deltaT && v != 0.0 {
        assert 0.0 < r;
        assert r < r * e;
      }
    } else {
      assert r < 0.0;
      assert r * e <= r;
      if 0.0 < deltaT {
        assert r * e < r;
      }
    }
  }

  function Abs(v: real): real { if v < 0.0 then -v else v }

  /** `n` consecutive frames of damping with the same frame length and no
      other input. */
  function DecayRepeated(v: real, deltaT: real, exp: real -> real, n: nat): real
    requires IsExp(exp)
  {
    if n == 0 then v else Decay(DecayRepeated(v, deltaT, exp, n - 1), deltaT, exp)
  }

  /** Repeated damping is monotone: the sign never changes and the magnitude
      never grows from one frame to the next. */
  lemma {:induction false} DecayRepeatedMonotone(v: real, deltaT: real, exp: real -> real, n: nat)
    requires IsExp(exp) && 0.0 <= deltaT
    ensures 0.0 <= v ==> 0.0 <= DecayRepeated(v, deltaT, exp, n + 1) <= DecayRepeated(v, deltaT, exp, n) <= v
    ensures v <= 0.0 ==> v <= DecayRepeated(v, deltaT, exp, n) <= DecayRepeated(v, deltaT, exp, n + 1) <= 0.0
  {
    if n > 0 {
      DecayRepeatedMonotone(v, deltaT, exp, n - 1);
    }
    DecayShrinks(DecayRepeated(v, deltaT, exp, n), deltaT, exp);
  }

  /** One frame of damping followed by `n` more is `n + 1` frames of damping:
      the fold may be unrolled from either end. */
  lemma {:induction false} DecayRepeatedShift(v: real, deltaT: real, exp: real -> real, n: nat)
    requires IsExp(exp)
    ensures DecayRepeated(Decay(v, deltaT, exp), deltaT, exp, n) == DecayRepeated(v, deltaT, exp, n + 1)
  {
    if n > 0 {
      DecayRepeatedShift(v, deltaT, exp, n - 1);
    }
  }

  /** After `n` frames the magnitude times `1 + n * (e - 1)`, with `e` the
      damping factor of one frame, is still at most the initial magnitude
      (Bernoulli's inequality for `e ^ n`). */
  lemma {:induction false} DecayRepeatedBound(v: real, deltaT: real, exp: real -> real, n: nat)
    requires IsExp(exp) && 0.0 <= deltaT
    ensures Abs(DecayRepeated(v, deltaT, exp, n)) * (1.0 + n as real * (exp(deltaT * 4.0) - 1.0)) <= Abs(v)
  {
    if n > 0 {
      DecayRepeatedBound(v, deltaT, exp, n - 1);
      AbsDecay(DecayRepeated(v, deltaT, exp, n - 1), deltaT, exp);
      BernoulliStep(Abs(DecayRepeated(v, deltaT, exp, n)), Abs(DecayRepeated(v, deltaT, exp, n - 1)),
                    exp(deltaT * 4.0) - 1.0, (n - 1) as real, n as real);
    }
  }

  /** Damping divides the magnitude by the frame's factor. */
  lemma AbsDecay(x: real, deltaT: real, exp: real -> real)
    requires IsExp(exp)
    ensures Abs(Decay(x, deltaT, exp)) * (1.0 + (exp(deltaT * 4.0) - 1.0)) == Abs(x)
  {
    var e := exp(deltaT * 4.0);
    assert Decay(x, deltaT, exp) * e == x;
    assert 1.0 + (e - 1.0) == e;
  }

  /** The algebraic step of Bernoulli's inequality: `(1 + d) * (1 + k * d)`
      exceeds `1 + (k + 1) * d` by `k * d * d`. */
  lemma BernoulliStep(a: real, prev: real, d: real, k: real, n: real)
    requires 0.0 <= a && 0.0 <= d && 0.0 <= k && n == k + 1.0
    requires a * (1.0 + d) == prev
    ensures a * (1.0 + n * d) <= prev * (1.0 + k * d)
  {
    MulLeftMonotone(k, 0.0, d);
    MulLeftMonotone(k * d, 0.0, d);
    assert (1.0 + d) * (1.0 + k * d) == 1.0 + n * d + k * d * d;
    MulLeftMonotone(a, 1.0 + n * d, (1.0 + d) * (1.0 + k * d));
    assert a * ((1.0 + d) * (1.0 + k * d)) == prev * (1.0 + k * d);
  }

  lemma MulLeftMonotone(a: real, x: real, y: real)
    requires 0.0 <= a && x <= y
    ensures a * x <= a * y
  {
  }

  lemma MulLeftStrict(a: real, x: real, y: real)
    requires 0.0 < a && x < y
    ensures a * x < a * y
  {
  }

  /** From frame `n` on, the damped value stays below `eps` in magnitude. */
  ghost predicate StaysBelow(v: real, deltaT: real, exp: real -> real, eps: real, n: nat)
    requires IsExp(exp)
  {
    forall m: nat :: n <= m ==> Abs(DecayRepeated(v, deltaT, exp, m)) < eps
  }

  /** Once `m * (e - 1) * eps` exceeds the initial magnitude, the damped value
      is below `eps`. */
  lemma DecayBelow(v: real, deltaT: real, exp: real -> real, eps: real, m: nat)
    requires IsExp(exp) && 0.0 <= deltaT && 0.0 < eps
    requires Abs(v) < m as real * ((exp(deltaT * 4.0) - 1.0) * eps)
    ensures Abs(DecayRepeated(v, deltaT, exp, m)) < eps
  {
    DecayRepeatedBound(v, deltaT, exp, m);
    BelowFromBound(Abs(DecayRepeated(v, deltaT, exp, m)), exp(deltaT * 4.0) - 1.0, m as real, Abs(v), eps);
  }

  /** If `a * (1 + k * d) <= V < k * d * eps` then `a < eps`. */
  lemma BelowFromBound(a: real, d: real, k: real, V: real, eps: real)
    requires 0.0 <= a && 0.0 <= d && 0.0 <= k && 0.0 < eps
    requires a * (1.0 + k * d) <= V && V < k * (d * eps)
    ensures a < eps
  {
    MulLeftMonotone(k, 0.0, d);
    var b := 1.0 + k * d;
    assert k * (d * eps) == eps * (k * d);
    assert eps * b == eps + eps * (k * d);
    assert a * b < eps * b;
    CancelRight(a, eps, b);
  }

  lemma CancelRight(a: real, c: real, b: real)
    requires 0.0 < b && a * b < c * b
    ensures a < c
  {
  }

  /** With a positive frame length repeated damping converges to zero: for
      every tolerance there is a frame count after which the magnitude stays
      below it. */
  lemma DecayConverges(v: real, deltaT: real, exp: real -> real, eps: real)
    requires IsExp(exp) && 0.0 < deltaT && 0.0 < eps
    ensures exists n: nat :: StaysBelow(v, deltaT, exp, eps, n)
  {
    var c := (exp(deltaT * 4.0) - 1.0) * eps;
    assert 0.0 < c;
    var q := Abs(v) / c;
    var n: nat := q.Floor + 1;
    assert q < n as real;
    assert Abs(v) == q * c;
    forall m: nat | n <= m
      ensures Abs(DecayRepeated(v, deltaT, exp, m)) < eps
    {
      MulLeftStrict(c, q, m as real);
      assert Abs(v) < (m as real) * c;
      DecayBelow(v, deltaT, exp, eps, m);
    }
    assert StaysBelow(v, deltaT, exp, eps, n);
  }
}
