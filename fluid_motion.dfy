// Equations of motion of the host Lennard-Jones fluid
// (src/halmd/mdsim/ljfluid_host.hpp): the two leapfrog half-steps with
// the periodic wrap and the box-image counter, the centring and scaling
// of velocities in boltzmann and rescale_velocities, and the thermostat
// counter of mdstep. The imperative loops of module LjFluid are proved
// against these functions.

module FluidMotion {
  import opened Vectors

  // ---------------------------------------------------------------
  // Leapfrog half-steps
  // ---------------------------------------------------------------

  /** Half-step velocity v + f*dt/2. */
  function Kick(v: Vector, f: Vector, dt: real): (w: Vector)
    requires |v| == |f|
    ensures |w| == |v|
    ensures forall i :: 0 <= i < |v| ==> w[i] == v[i] + f[i] * (dt / 2.0)
  {
    Add(v, Scale(f, dt / 2.0))
  }

  /** One coordinate after the drift, wrapped at most once into the box. */
  function WrapComp(x: real, box: real): real
  {
    if x > box then x - box
    else if x < 0.0 then x + box
    else x
  }

  /** The change of the box-image counter made by that wrap. */
  function ImageShift(x: real, box: real): real
  {
    if x > box then 1.0
    else if x < 0.0 then -1.0
    else 0.0
  }

  /** Position after the drift r + v*dt and the wrap. */
  function Drift(r: Vector, v: Vector, dt: real, box: real): (s: Vector)
    requires |r| == |v|
    ensures |s| == |r|
    ensures forall i :: 0 <= i < |r| ==> s[i] == WrapComp(r[i] + v[i] * dt, box)
  {
    var u := seq(|r|, i requires 0 <= i < |r| => r[i] + v[i] * dt);
    seq(|r|, i requires 0 <= i < |r| => WrapComp(u[i], box))
  }

  /** Box-image counter after the drift. */
  function DriftImage(R: Vector, r: Vector, v: Vector, dt: real, box: real): (S: Vector)
    requires |r| == |v| == |R|
    ensures |S| == |R|
    ensures forall i :: 0 <= i < |R| ==> S[i] == R[i] + ImageShift(r[i] + v[i] * dt, box)
  {
    var u := seq(|r|, i requires 0 <= i < |r| => r[i] + v[i] * dt);
    seq(|R|, i requires 0 <= i < |R| => R[i] + ImageShift(u[i], box))
  }

  /** The position extended by the box images, r + R*box. */
  function Unwrapped(r: Vector, R: Vector, box: real): (u: Vector)
    requires |r| == |R|
    ensures |u| == |r|
    ensures forall i :: 0 <= i < |r| ==> u[i] == r[i] + R[i] * box
  {
    Add(r, Scale(R, box))
  }

  /** The wrap changes the position by exactly the box lengths it counts. */
  lemma WrapKeepsUnwrapped(x: real, R: real, box: real)
    ensures WrapComp(x, box) + (R + ImageShift(x, box)) * box == x + R * box
  {
  }

  /** The unwrapped position advances by exactly v*dt. */
  lemma DriftAdvancesUnwrapped(r: Vector, R: Vector, v: Vector, dt: real, box: real)
    requires |r| == |v| == |R|
    ensures Unwrapped(Drift(r, v, dt, box), DriftImage(R, r, v, dt, box), box)
         == Add(Unwrapped(r, R, box), Scale(v, dt))
  {
    var lhs := Unwrapped(Drift(r, v, dt, box), DriftImage(R, r, v, dt, box), box);
    var rhs := Add(Unwrapped(r, R, box), Scale(v, dt));
    forall i | 0 <= i < |r|
      ensures lhs[i] == rhs[i]
    {
      WrapKeepsUnwrapped(r[i] + v[i] * dt, R[i], box);
    }
  }

  /** A drift by less than one box length in either direction ends inside [0, box]. */
  predicate SingleWrap(r: Vector, v: Vector, dt: real, box: real)
    requires |r| == |v|
  {
    forall i :: 0 <= i < |r| ==> -box <= r[i] + v[i] * dt <= 2.0 * box
  }

  lemma DriftStaysInBox(r: Vector, v: Vector, dt: real, box: real)
    requires |r| == |v| && SingleWrap(r, v, dt, box)
    ensures forall i :: 0 <= i < |r| ==> 0.0 <= Drift(r, v, dt, box)[i] <= box
  {
  }

  /** Kick applied to every particle. */
  function KickAll(vs: seq<Vector>, fs: seq<Vector>, dt: real): (ws: seq<Vector>)
    requires |vs| == |fs| && forall k :: 0 <= k < |vs| ==> |vs[k]| == |fs[k]|
    ensures |ws| == |vs|
    ensures forall k :: 0 <= k < |vs| ==> ws[k] == Kick(vs[k], fs[k], dt)
  {
    seq(|vs|, k requires 0 <= k < |vs| => Kick(vs[k], fs[k], dt))
  }

  /** Drift applied to every particle. */
  function DriftAll(rs: seq<Vector>, vs: seq<Vector>, dt: real, box: real): (ss: seq<Vector>)
    requires |rs| == |vs| && forall k :: 0 <= k < |rs| ==> |rs[k]| == |vs[k]|
    ensures |ss| == |rs|
    ensures forall k :: 0 <= k < |rs| ==> ss[k] == Drift(rs[k], vs[k], dt, box)
  {
    seq(|rs|, k requires 0 <= k < |rs| => Drift(rs[k], vs[k], dt, box))
  }

  /** Image counters of every particle after the drift. */
  function DriftImageAll(Rs: seq<Vector>, rs: seq<Vector>, vs: seq<Vector>, dt: real, box: real): (Ss: seq<Vector>)
    requires |rs| == |vs| == |Rs|
    requires forall k :: 0 <= k < |rs| ==> |rs[k]| == |vs[k]| == |Rs[k]|
    ensures |Ss| == |Rs|
    ensures forall k :: 0 <= k < |Rs| ==> Ss[k] == DriftImage(Rs[k], rs[k], vs[k], dt, box)
  {
    seq(|Rs|, k requires 0 <= k < |Rs| => DriftImage(Rs[k], rs[k], vs[k], dt, box))
  }

  /** The largest v.v among the first n velocities, and 0 if there are none. */
  function MaxSquare(vs: seq<Vector>, n: nat): (m: real)
    requires n <= |vs|
    ensures m >= 0.0
    ensures forall k :: 0 <= k < n ==> Dot(vs[k], vs[k]) <= m
    ensures m == 0.0 || exists k :: 0 <= k < n && m == Dot(vs[k], vs[k])
  {
    if n == 0 then 0.0
    else
      var m := MaxSquare(vs, n - 1);
      var x := Norm2(vs[n - 1]);
      if m >= x then m else x
  }

  /** The largest speed among the first n velocities: sqrt applied to the largest v.v. */
  function MaxSpeed(sqrt: real -> real, vs: seq<Vector>, n: nat): real
    requires n <= |vs|
  {
    sqrt(MaxSquare(vs, n))
  }

  // ---------------------------------------------------------------
  // Velocity centring and scaling (boltzmann, rescale_velocities)
  // ---------------------------------------------------------------

  /** Every velocity minus the same vector. */
  function Shift(vs: seq<Vector>, w: Vector): (us: seq<Vector>)
    requires AllDim(vs, |w|)
    ensures |us| == |vs| && AllDim(us, |w|)
    ensures forall k :: 0 <= k < |vs| ==> us[k] == Sub(vs[k], w)
  {
    seq(|vs|, k requires 0 <= k < |vs| => Sub(vs[k], w))
  }

  /** Every velocity times the same factor. */
  function ScaleAll(vs: seq<Vector>, s: real): (us: seq<Vector>)
    ensures |us| == |vs|
    ensures forall k :: 0 <= k < |vs| ==> us[k] == Scale(vs[k], s)
  {
    seq(|vs|, k requires 0 <= k < |vs| => Scale(vs[k], s))
  }

  /** Mean velocity: the sum divided by the number of particles. */
  function MeanVelocity(vs: seq<Vector>, d: nat): (m: Vector)
    requires |vs| > 0 && AllDim(vs, d)
    ensures |m| == d
  {
    Scale(Sum(vs, d), 1.0 / (|vs| as real))
  }

  /** Mean squared velocity. */
  function MeanSquare(vs: seq<Vector>): real
    requires |vs| > 0
  {
    SquaresSum(vs, |vs|) / (|vs| as real)
  }

  lemma {:induction false} SumCompShift(vs: seq<Vector>, w: Vector, c: nat)
    requires AllDim(vs, |w|) && c < |w|
    ensures SumComp(Shift(vs, w), c) == SumComp(vs, c) - (|vs| as real) * w[c]
  {
    if |vs| > 0 {
      var init := vs[..|vs| - 1];
      assert Shift(vs, w)[..|vs| - 1] == Shift(init, w);
      SumCompShift(init, w, c);
    }
  }

  /** After subtracting the mean velocity the total momentum is zero. */
  lemma CentredMomentumZero(vs: seq<Vector>, d: nat, c: nat)
    requires |vs| > 0 && AllDim(vs, d) && c < d
    ensures SumComp(Shift(vs, MeanVelocity(vs, d)), c) == 0.0
  {
    var n := |vs| as real;
    SumCompShift(vs, MeanVelocity(vs, d), c);
    assert MeanVelocity(vs, d)[c] == SumComp(vs, c) * (1.0 / n);
    assert n * (SumComp(vs, c) * (1.0 / n)) == SumComp(vs, c);
  }

  lemma {:induction false} SumCompScale(vs: seq<Vector>, s: real, d: nat, c: nat)
    requires AllDim(vs, d) && c < d
    ensures SumComp(ScaleAll(vs, s), c) == SumComp(vs, c) * s
  {
    if |vs| > 0 {
      var init := vs[..|vs| - 1];
      assert ScaleAll(vs, s)[..|vs| - 1] == ScaleAll(init, s);
      SumCompScale(init, s, d, c);
    }
  }

  /** If every squared component of b is k times that of a, so is b.b. */
  lemma {:induction false} DotSquaresFactor(a: Vector, b: Vector, k: real)
    requires |a| == |b|
    requires forall i :: 0 <= i < |a| ==> Square(b[i]) == k * Square(a[i])
    ensures Dot(b, b) == k * Dot(a, a)
  {
    if |a| > 0 {
      DotSquaresFactor(a[1..], b[1..], k);
      ScaledSum(k, Square(a[0]), Dot(a[1..], a[1..]), Dot(a, a), Square(b[0]), Dot(b[1..], b[1..]), Dot(b, b));
    }
  }

  lemma DotScale(a: Vector, s: real)
    ensures Norm2(Scale(a, s)) == Square(s) * Norm2(a)
  {
    ScaledSquares(a, s);
    DotSquaresFactor(a, Scale(a, s), Square(s));
  }

  lemma ScaledSquares(a: Vector, s: real)
    ensures forall i :: 0 <= i < |a| ==> Square(Scale(a, s)[i]) == Square(s) * Square(a[i])
  {
    var b := Scale(a, s);
    forall i | 0 <= i < |a|
      ensures Square(b[i]) == Square(s) * Square(a[i])
    {
      SquareOfScaled(a[i], b[i], s);
    }
  }

  lemma SquareOfScaled(x: real, y: real, s: real)
    requires y == x * s
    ensures Square(y) == Square(s) * Square(x)
  {
  }

  /** If every v.v of us is k times that of vs, so is the sum over the first n. */
  lemma {:induction false} SquaresSumFactor(vs: seq<Vector>, us: seq<Vector>, k: real, n: nat)
    requires n <= |vs| && n <= |us|
    requires forall j :: 0 <= j < n ==> |us[j]| == |vs[j]| && Norm2(us[j]) == k * Norm2(vs[j])
    ensures SquaresSum(us, n) == k * SquaresSum(vs, n)
  {
    if n > 0 {
      SquaresSumFactor(vs, us, k, n - 1);
      ScaledSum(k, SquaresSum(vs, n - 1), Norm2(vs[n - 1]), SquaresSum(vs, n),
                SquaresSum(us, n - 1), Norm2(us[n - 1]), SquaresSum(us, n));
    }
  }

  lemma ScaledDots(vs: seq<Vector>, s: real)
    ensures forall j :: 0 <= j < |vs| ==>
      |ScaleAll(vs, s)[j]| == |vs[j]| && Norm2(ScaleAll(vs, s)[j]) == Square(s) * Norm2(vs[j])
  {
    forall j | 0 <= j < |vs|
      ensures Norm2(ScaleAll(vs, s)[j]) == Square(s) * Norm2(vs[j])
    {
      DotScale(vs[j], s);
    }
  }

  lemma SquaresSumScale(vs: seq<Vector>, s: real, n: nat)
    requires n <= |vs|
    ensures SquaresSum(ScaleAll(vs, s), n) == Square(s) * SquaresSum(vs, n)
  {
    ScaledDots(vs, s);
    SquaresSumFactor(vs, ScaleAll(vs, s), Square(s), n);
  }

  /** If z = x + y and z1 = x1 + y1 with x1 = k*x and y1 = k*y, then z1 = k*z. */
  lemma ScaledSum(k: real, x: real, y: real, z: real, x1: real, y1: real, z1: real)
    requires z == x + y && z1 == x1 + y1
    requires x1 == k * x && y1 == k * y
    ensures z1 == k * z
  {
  }

  lemma DivFactor(k: real, q: real, q1: real, n: real)
    requires n != 0.0 && q1 == k * q
    ensures q1 / n == k * (q / n)
  {
  }

  /** Scaling all velocities by s multiplies the mean square by s^2. */
  lemma MeanSquareScale(vs: seq<Vector>, s: real)
    requires |vs| > 0
    ensures MeanSquare(ScaleAll(vs, s)) == Square(s) * MeanSquare(vs)
  {
    var us := ScaleAll(vs, s);
    SquaresSumScale(vs, s, |vs|);
    DivFactor(Square(s), SquaresSum(vs, |vs|), SquaresSum(us, |us|), |vs| as real);
  }

  /** Scaling all velocities by s scales the total momentum by s. */
  lemma MomentumScale(vs: seq<Vector>, s: real, d: nat)
    requires AllDim(vs, d)
    ensures forall c :: 0 <= c < d ==> SumComp(ScaleAll(vs, s), c) == SumComp(vs, c) * s
  {
    forall c | 0 <= c < d
      ensures SumComp(ScaleAll(vs, s), c) == SumComp(vs, c) * s
    {
      SumCompScale(vs, s, d, c);
    }
  }

  /** The velocities boltzmann leaves from the drawn ones, given the scale factor s. */
  function Thermalize(drawn: seq<Vector>, d: nat, s: real): (vs: seq<Vector>)
    requires |drawn| > 0 && AllDim(drawn, d)
    ensures |vs| == |drawn|
  {
    ScaleAll(Shift(drawn, MeanVelocity(drawn, d)), s)
  }

  /** The velocities boltzmann leaves at temperature temp: the factor is sqrt(temp*dimension/vv), vv the mean square of the centred draws. */
  function BathVelocities(drawn: seq<Vector>, d: nat, temp: real, sqrt: real -> real): (vs: seq<Vector>)
    requires |drawn| > 0 && AllDim(drawn, d) && MeanSquare(Shift(drawn, MeanVelocity(drawn, d))) != 0.0
    ensures |vs| == |drawn|
  {
    Thermalize(drawn, d, sqrt(temp * (d as real) / MeanSquare(Shift(drawn, MeanVelocity(drawn, d)))))
  }

  /**
   * With s the exact square root of temp*dimension/vv, vv the mean square
   * of the centred velocities, boltzmann leaves zero total momentum and the
   * mean square velocity temp*dimension.
   */
  lemma ThermalizeEffect(drawn: seq<Vector>, d: nat, temp: real, s: real)
    requires |drawn| > 0 && AllDim(drawn, d)
    requires MeanSquare(Shift(drawn, MeanVelocity(drawn, d))) != 0.0
    requires Square(s) == temp * (d as real) / MeanSquare(Shift(drawn, MeanVelocity(drawn, d)))
    ensures forall c :: 0 <= c < d ==> SumComp(Thermalize(drawn, d, s), c) == 0.0
    ensures MeanSquare(Thermalize(drawn, d, s)) == temp * (d as real)
  {
    var centred := Shift(drawn, MeanVelocity(drawn, d));
    MeanSquareScale(centred, s);
    MomentumScale(centred, s, d);
    forall c | 0 <= c < d
      ensures SumComp(Thermalize(drawn, d, s), c) == 0.0
    {
      CentredMomentumZero(drawn, d, c);
    }
  }

  // ---------------------------------------------------------------
  // Thermostat counter (mdstep)
  // ---------------------------------------------------------------

  /**
   * One step of the thermostat counter: with a nonzero period the count is
   * incremented, the heat bath couples when it reaches the period, and the
   * count is then reset. Returns (couples, new count).
   */
  function ThermostatStep(steps: nat, count: nat): (res: (bool, nat))
    ensures steps == 0 ==> res == (false, count)
    ensures steps > 0 && count < steps ==> res.1 < steps
  {
    var c := if steps != 0 then count + 1 else count;
    var couple := steps != 0 && c >= steps;
    (couple, if couple then 0 else c)
  }

  lemma RemainderUnique(a: int, q: int, r: int, m: int)
    requires m > 0 && 0 <= r < m && a == q * m + r
    ensures a % m == r
  {
    var q0, r0 := a / m, a % m;
    assert a == q0 * m + r0;
    if q0 > q {
      MulMono(q + 1, q0, m);
      assert false;
    }
    if q0 < q {
      MulMono(q0 + 1, q, m);
      assert false;
    }
  }

  lemma MulMono(a: int, b: int, m: int)
    requires m > 0 && a <= b
    ensures a * m <= b * m
  {
  }

  /** Incrementing a remainder: it goes up by one, or wraps to zero. */
  lemma RemainderStep(a: nat, m: nat)
    requires m > 0
    ensures (a + 1) % m == if a % m + 1 < m then a % m + 1 else 0
  {
    var q, r := a / m, a % m;
    assert a == q * m + r;
    if r + 1 < m {
      RemainderUnique(a + 1, q, r + 1, m);
    } else {
      assert a + 1 == (q + 1) * m;
      RemainderUnique(a + 1, q + 1, 0, m);
    }
  }

  /** The thermostat count after n steps from zero. */
  function ThermostatCount(steps: nat, n: nat): nat
  {
    if n == 0 then 0 else ThermostatStep(steps, ThermostatCount(steps, n - 1)).1
  }

  /** With period steps > 0, the count after n steps is n mod steps. */
  lemma {:induction false} ThermostatCountIsRemainder(steps: nat, n: nat)
    requires steps > 0
    ensures ThermostatCount(steps, n) == n % steps
  {
    if n > 0 {
      ThermostatCountIsRemainder(steps, n - 1);
      RemainderStep(n - 1, steps);
    }
  }

  /** The heat bath couples at the n-th step (counting from 1) iff n is a multiple of the period. */
  lemma ThermostatPeriodic(steps: nat, n: nat)
    requires steps > 0 && n > 0
    ensures ThermostatStep(steps, ThermostatCount(steps, n - 1)).0 <==> n % steps == 0
  {
    ThermostatCountIsRemainder(steps, n - 1);
    ThermostatCountIsRemainder(steps, n);
  }
}
