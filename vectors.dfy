// Fixed-dimension real vectors (D = 2 or 3) and the few operations the
// simulation code uses on them: componentwise addition, subtraction,
// scaling, the inner product and sums over a sequence of vectors.

module Vectors {

  type Vector = seq<real>

  /** True if every vector of `vs` has `d` components. */
  predicate AllDim(vs: seq<Vector>, d: nat)
  {
    forall k :: 0 <= k < |vs| ==> |vs[k]| == d
  }

  function Zero(d: nat): (z: Vector)
    ensures |z| == d
    ensures forall i :: 0 <= i < d ==> z[i] == 0.0
  {
    seq(d, i => 0.0)
  }

  function Add(a: Vector, b: Vector): (c: Vector)
    requires |a| == |b|
    ensures |c| == |a|
    ensures forall i :: 0 <= i < |a| ==> c[i] == a[i] + b[i]
  {
    seq(|a|, i requires 0 <= i < |a| => a[i] + b[i])
  }

  function Sub(a: Vector, b: Vector): (c: Vector)
    requires |a| == |b|
    ensures |c| == |a|
    ensures forall i :: 0 <= i < |a| ==> c[i] == a[i] - b[i]
  {
    seq(|a|, i requires 0 <= i < |a| => a[i] - b[i])
  }

  function Scale(a: Vector, s: real): (c: Vector)
    ensures |c| == |a|
    ensures forall i :: 0 <= i < |a| ==> c[i] == a[i] * s
  {
    seq(|a|, i requires 0 <= i < |a| => a[i] * s)
  }

  function Dot(a: Vector, b: Vector): real
    requires |a| == |b|
  {
    if |a| == 0 then 0.0 else a[0] * b[0] + Dot(a[1..], b[1..])
  }

  lemma {:induction false} DotSelfNonNegative(a: Vector)
    ensures Dot(a, a) >= 0.0
  {
    if |a| > 0 {
      DotSelfNonNegative(a[1..]);
    }
  }

  /** Component `c` of the sum of all vectors in `vs`. */
  function SumComp(vs: seq<Vector>, c: nat): real
    requires forall k :: 0 <= k < |vs| ==> c < |vs[k]|
  {
    if |vs| == 0 then 0.0 else SumComp(vs[..|vs| - 1], c) + vs[|vs| - 1][c]
  }

  /** The sum of all vectors in `vs`, each of dimension `d`. */
  function Sum(vs: seq<Vector>, d: nat): (s: Vector)
    requires AllDim(vs, d)
    ensures |s| == d
  {
    seq(d, c requires 0 <= c < d => SumComp(vs, c))
  }

  /** The sequence of `n` zero vectors. */
  function Zeros(n: nat, d: nat): (zs: seq<Vector>)
    ensures |zs| == n && AllDim(zs, d)
    ensures forall k :: 0 <= k < n ==> zs[k] == Zero(d)
  {
    seq(n, k => Zero(d))
  }

  lemma {:induction false} SumCompZeros(n: nat, d: nat, c: nat)
    requires c < d
    ensures SumComp(Zeros(n, d), c) == 0.0
  {
    if n > 0 {
      assert Zeros(n, d)[..n - 1] == Zeros(n - 1, d);
      SumCompZeros(n - 1, d, c);
    }
  }

  /** Replacing one vector changes the sum by the difference. */
  lemma {:induction false} SumCompUpdate(vs: seq<Vector>, k: nat, v: Vector, c: nat)
    requires k < |vs|
    requires forall j :: 0 <= j < |vs| ==> c < |vs[j]|
    requires c < |v|
    ensures SumComp(vs[k := v], c) == SumComp(vs, c) - vs[k][c] + v[c]
  {
    var n := |vs|;
    if k == n - 1 {
      assert vs[k := v][..n - 1] == vs[..n - 1];
    } else {
      assert vs[k := v][..n - 1] == vs[..n - 1][k := v];
      SumCompUpdate(vs[..n - 1], k, v, c);
    }
  }

  /** The sum of the first k + 1 vectors is the sum of the first k plus vector k. */
  lemma SumSnoc(vs: seq<Vector>, k: nat, d: nat)
    requires k < |vs| && AllDim(vs, d)
    ensures Sum(vs[..k + 1], d) == Add(Sum(vs[..k], d), vs[k])
  {
    assert vs[..k + 1][..k] == vs[..k];
  }

  /** x * x (std::pow(x, 2)). */
  function Square(x: real): real
  {
    x * x
  }

  /** The squared length v.v. */
  function Norm2(v: Vector): real
  {
    Dot(v, v)
  }

  /** The sum of v.v over the first n velocities. */
  function SquaresSum(v: seq<Vector>, n: nat): real
    requires n <= |v|
  {
    if n == 0 then 0.0 else SquaresSum(v, n - 1) + Norm2(v[n - 1])
  }

  /** The component sum distributes over concatenation. */
  lemma {:induction false} SumCompAppend(vs: seq<Vector>, ws: seq<Vector>, c: nat)
    requires forall j :: 0 <= j < |vs| ==> c < |vs[j]|
    requires forall j :: 0 <= j < |ws| ==> c < |ws[j]|
    ensures SumComp(vs + ws, c) == SumComp(vs, c) + SumComp(ws, c)
  {
    if |ws| > 0 {
      assert (vs + ws)[..|vs + ws| - 1] == vs + ws[..|ws| - 1];
      SumCompAppend(vs, ws[..|ws| - 1], c);
    } else {
      assert vs + ws == vs;
    }
  }
}

module Errors {

  /** The exceptions the modelled code throws, by meaning. */
  datatype Error =
    | LogicError(what: string)
    | RuntimeError(what: string)
    | PotentialEnergyDivergence
    | Exception(what: string)
    | DriverError

  datatype Result<T> = Ok(value: T) | Err(error: Error)

  datatype Outcome = Pass | Fail(error: Error)
}
