// The host Oseen / Rotne–Prager mobility: in the overdamped regime the
// velocity of each particle is its own force plus the hydrodynamic
// interaction tensor applied to every other particle's force, all times the
// self mobility 1 / (6 π η a).
//
// The box's periodic reduction and the square root are parameters.

module OseenMobility {
  import opened Vectors
  import opened HostParticle

  /** M_PI in double precision. */
  const PI: real := 3.14159265358979323846

  /**
   * The mobility's parameters: particle radius a, viscosity η, the order of
   * accuracy in (a/r), the box's periodic reduction and the square root.
   */
  datatype Mobility = Mobility(
    radius: real,
    viscosity: real,
    order: int,
    reduce: Vector -> Vector,
    sqrt: real -> real)

  ghost predicate WellFormed(mob: Mobility)
  {
    mob.radius != 0.0 && mob.viscosity != 0.0 && forall v :: |mob.reduce(v)| == |v|
  }

  function SelfMobility(radius: real, viscosity: real): real
    requires radius != 0.0 && viscosity != 0.0
  {
    Nonzero3(6.0 * PI, viscosity, radius);
    1.0 / (6.0 * PI * viscosity * radius)
  }

  lemma Nonzero3(a: real, b: real, c: real)
    requires a != 0.0 && b != 0.0 && c != 0.0
    ensures a * b * c != 0.0
  {
    Nonzero2(a, b, a * b);
    Nonzero2(a * b, c, a * b * c);
  }

  lemma Nonzero2(a: real, b: real, p: real)
    requires a != 0.0 && b != 0.0 && p == a * b
    ensures p != 0.0
  {
  }

  /** The Oseen tensor (order up to 2): (f + (dr·f / r²) dr) · 0.75 · a/r. */
  function OseenTensor(a: real, dr: Vector, dist2: real, dist: real, fj: Vector): (t: Vector)
    requires |dr| == |fj| && dist2 != 0.0 && dist != 0.0
    ensures |t| == |fj|
  {
    var b := a / dist;
    Scale(Scale(Add(fj, Scale(dr, Dot(dr, fj) / dist2)), 0.75), b)
  }

  /** The Rotne–Prager tensor of overlapping spheres (r < 2a). */
  function NearRotnePrager(a: real, dr: Vector, dist: real, fj: Vector): (t: Vector)
    requires |dr| == |fj| && a != 0.0 && dist != 0.0
    ensures |t| == |fj|
  {
    Nonzero2(a, dist, a * dist);
    Add(Scale(fj, 1.0 - (9.0 / 32.0) * dist / a), Scale(dr, (3.0 / 32.0) * Dot(dr, fj) / (a * dist)))
  }

  /** The Rotne–Prager tensor of separate spheres (r ≥ 2a), with b = a/r. */
  function FarRotnePrager(a: real, dr: Vector, dist2: real, dist: real, fj: Vector): (t: Vector)
    requires |dr| == |fj| && dist2 != 0.0 && dist != 0.0
    ensures |t| == |fj|
  {
    var b := a / dist;
    Add(Scale(fj, FarSelf(b)), Scale(dr, FarProjection(b, Dot(dr, fj), dist2)))
  }

  /** The coefficient (0.75 − 1.5 b²) b (dr·f) / r² of the far tensor's projection term. */
  function FarProjection(b: real, p: real, dist2: real): real
    requires dist2 != 0.0
  {
    (0.75 - 1.5 * Square(b)) * b * p / dist2
  }

  /** The coefficient (0.75 + 0.5 b²) b of the far tensor's own term. */
  function FarSelf(b: real): real
  {
    (0.75 + 0.5 * Square(b)) * b
  }

  /**
   * The interaction tensor at distance vector dr (squared length dist2,
   * length dist) applied to a force fj, by the order of accuracy in a/r:
   * up to 2 the Oseen tensor, up to 4 the Rotne–Prager tensor, beyond 4 no
   * interaction.
   */
  function Tensor(mob: Mobility, dr: Vector, dist2: real, dist: real, fj: Vector): (t: Vector)
    requires |dr| == |fj| && mob.radius != 0.0
    requires mob.order <= 4 ==> dist2 != 0.0 && dist != 0.0
    ensures |t| == |fj|
  {
    if mob.order <= 2 then OseenTensor(mob.radius, dr, dist2, dist, fj)
    else if mob.order <= 4 then
      if dist < 2.0 * mob.radius then NearRotnePrager(mob.radius, dr, dist, fj)
      else FarRotnePrager(mob.radius, dr, dist2, dist, fj)
    else Zero(|fj|)
  }

  /** The reduced distance vector of the pair i < j, r[i] − r[j]. */
  function PairDr(mob: Mobility, r: seq<Vector>, i: nat, j: nat): (dr: Vector)
    requires WellFormed(mob) && i < |r| && j < |r| && |r[i]| == |r[j]|
    ensures |dr| == |r[i]|
  {
    mob.reduce(Sub(r[i], r[j]))
  }

  /** Positions whose reduced pairwise distances can be divided by. */
  ghost predicate Separated(mob: Mobility, r: seq<Vector>, d: nat)
    requires WellFormed(mob) && AllDim(r, d)
  {
    forall i, j :: 0 <= i < j < |r| ==>
      Dot(PairDr(mob, r, i, j), PairDr(mob, r, i, j)) != 0.0
      && mob.sqrt(Dot(PairDr(mob, r, i, j), PairDr(mob, r, i, j))) != 0.0
  }

  ghost predicate Ready(mob: Mobility, r: seq<Vector>, f: seq<Vector>, d: nat)
  {
    WellFormed(mob) && |f| == |r| && AllDim(r, d) && AllDim(f, d)
    && (mob.order <= 4 ==> Separated(mob, r, d))
  }

  /**
   * The contribution of particle l to the velocity of particle k: its own
   * force for l = k, otherwise the tensor of the pair's distance vector
   * (taken from the lower index to the higher) applied to f[l].
   */
  function Term(mob: Mobility, r: seq<Vector>, f: seq<Vector>, d: nat, k: nat, l: nat): (t: Vector)
    requires Ready(mob, r, f, d) && k < |r| && l < |r|
    ensures |t| == d
  {
    if k == l then f[k]
    else
      var lo, hi := if k < l then k else l, if k < l then l else k;
      var dr := PairDr(mob, r, lo, hi);
      var dist2 := Dot(dr, dr);
      Tensor(mob, dr, dist2, mob.sqrt(dist2), f[l])
  }

  /** The contributions of particles 0, ..., m − 1 to particle k, added in that order. */
  function Partial(mob: Mobility, r: seq<Vector>, f: seq<Vector>, d: nat, k: nat, m: nat): (p: Vector)
    requires Ready(mob, r, f, d) && k < |r| && m <= |r|
    ensures |p| == d
  {
    if m == 0 then Zero(d) else Add(Partial(mob, r, f, d, k, m - 1), Term(mob, r, f, d, k, m - 1))
  }

  /** The velocity of particle k: all contributions, scaled by the self mobility. */
  function Velocity(mob: Mobility, r: seq<Vector>, f: seq<Vector>, d: nat, k: nat): (u: Vector)
    requires Ready(mob, r, f, d) && k < |r|
    ensures |u| == d
  {
    Scale(Partial(mob, r, f, d, k, |r|), SelfMobility(mob.radius, mob.viscosity))
  }

  // ---------------------------------------------------------------------------
  // compute_velocities

  /** The velocities after the first i outer iterations. */
  ghost function AfterRows(mob: Mobility, r: seq<Vector>, f: seq<Vector>, d: nat, i: nat): (v: seq<Vector>)
    requires Ready(mob, r, f, d) && i <= |r|
    ensures |v| == |r|
  {
    seq(|r|, k requires 0 <= k < |r| =>
      if k < i then Velocity(mob, r, f, d, k) else Partial(mob, r, f, d, k, i))
  }

  /**
   * The velocities within outer iteration i, once the pairs (i, i + 1), ...,
   * (i, j − 1) are done.
   */
  ghost function WithinRow(mob: Mobility, r: seq<Vector>, f: seq<Vector>, d: nat, i: nat, j: nat): (v: seq<Vector>)
    requires Ready(mob, r, f, d) && i < j <= |r|
    ensures |v| == |r|
  {
    seq(|r|, k requires 0 <= k < |r| =>
      if k < i then Velocity(mob, r, f, d, k)
      else if k == i then Partial(mob, r, f, d, i, j)
      else if k < j then Partial(mob, r, f, d, k, i + 1)
      else Partial(mob, r, f, d, k, i))
  }

  /**
   * The nested loop: zero all velocities, then for each i add f[i] and the
   * pair terms with every j > i to both v[i] and v[j], then scale v[i].
   */
  method Velocities(mob: Mobility, r: seq<Vector>, f: seq<Vector>, d: nat) returns (v: seq<Vector>)
    requires Ready(mob, r, f, d)
    ensures |v| == |r|
    ensures forall k :: 0 <= k < |r| ==> v[k] == Velocity(mob, r, f, d, k)
  {
    var n := |r|;
    v := Zeros(n, d);
    assert v == AfterRows(mob, r, f, d, 0);
    var i := 0;
    while i < n
      invariant 0 <= i <= n && v == AfterRows(mob, r, f, d, i)
    {
      v := OuterStep(mob, r, f, d, v, i);
      i := i + 1;
    }
    assert forall k :: 0 <= k < n ==> v[k] == AfterRows(mob, r, f, d, n)[k];
  }

  /** Outer iteration i: own force, pair terms with j > i, then the scaling of v[i]. */
  method OuterStep(mob: Mobility, r: seq<Vector>, f: seq<Vector>, d: nat, v0: seq<Vector>, i: nat)
    returns (v: seq<Vector>)
    requires Ready(mob, r, f, d) && i < |r| && v0 == AfterRows(mob, r, f, d, i)
    ensures v == AfterRows(mob, r, f, d, i + 1)
  {
    v := v0[i := Add(v0[i], f[i])];
    assert v == WithinRow(mob, r, f, d, i, i + 1);
    v := PairsOf(mob, r, f, d, v, i);
    v := v[i := Scale(v[i], SelfMobility(mob.radius, mob.viscosity))];
  }

  /** The inner loop of iteration i: the pairs (i, j) for j = i + 1, ..., n − 1. */
  method PairsOf(mob: Mobility, r: seq<Vector>, f: seq<Vector>, d: nat, v0: seq<Vector>, i: nat)
    returns (v: seq<Vector>)
    requires Ready(mob, r, f, d) && i < |r| && v0 == WithinRow(mob, r, f, d, i, i + 1)
    ensures v == WithinRow(mob, r, f, d, i, |r|)
  {
    var n := |r|;
    v := v0;
    var j := i + 1;
    while j < n
      invariant i < j <= n && v == WithinRow(mob, r, f, d, i, j)
    {
      v := PairStep(mob, r, f, d, v, i, j);
      j := j + 1;
    }
  }

  /** The pair (i, j), i < j: the same distance vector serves both particles. */
  method PairStep(mob: Mobility, r: seq<Vector>, f: seq<Vector>, d: nat, v0: seq<Vector>, i: nat, j: nat)
    returns (v: seq<Vector>)
    requires Ready(mob, r, f, d) && i < j < |r| && v0 == WithinRow(mob, r, f, d, i, j)
    ensures v == WithinRow(mob, r, f, d, i, j + 1)
  {
    var dr := mob.reduce(Sub(r[i], r[j]));
    var dist2 := Dot(dr, dr);
    var dist := mob.sqrt(dist2);
    assert dr == PairDr(mob, r, i, j) && |dr| == d;
    assert mob.order <= 4 ==> dist2 != 0.0 && dist != 0.0;
    var ti := Tensor(mob, dr, dist2, dist, f[j]);
    var tj := Tensor(mob, dr, dist2, dist, f[i]);
    assert ti == Term(mob, r, f, d, i, j) && tj == Term(mob, r, f, d, j, i);
    assert v0[i] == Partial(mob, r, f, d, i, j) && v0[j] == Partial(mob, r, f, d, j, i);
    v := v0[i := Add(v0[i], ti)][j := Add(v0[j], tj)];
    forall k | 0 <= k < |r|
      ensures v[k] == WithinRow(mob, r, f, d, i, j + 1)[k]
    {
      if k == i {
        assert v[k] == Partial(mob, r, f, d, i, j + 1);
      } else if k == j {
        assert v[k] == Partial(mob, r, f, d, j, i + 1);
      } else {
        assert v[k] == v0[k];
      }
    }
  }

  /** The mobility module over a host particle instance. */
  class Oseen {
    const particle: Particle
    const mobility: Mobility
    const selfMobility: real

    /** The self mobility 1 / (6 π η a) is fixed at construction. */
    constructor (particle: Particle, mobility: Mobility)
      requires WellFormed(mobility)
      ensures this.particle == particle && this.mobility == mobility
      ensures selfMobility == SelfMobility(mobility.radius, mobility.viscosity)
    {
      this.particle := particle;
      this.mobility := mobility;
      selfMobility := SelfMobility(mobility.radius, mobility.viscosity);
    }

    /** Replaces every velocity by the mobility applied to the forces. */
    method ComputeVelocities()
      requires particle.Valid() && Ready(mobility, particle.r, particle.f, particle.dim)
      modifies particle`v
      ensures particle.Valid()
      ensures forall k :: 0 <= k < particle.nbox ==>
                particle.v[k] == Velocity(mobility, particle.r, particle.f, particle.dim, k)
    {
      particle.v := Velocities(mobility, particle.r, particle.f, particle.dim);
    }

    /** The mobility tensor itself is not computed: compute() changes nothing. */
    method Compute()
    {
    }
  }

  // ---------------------------------------------------------------------------
  // Properties

  lemma {:induction false} PartialWithoutInteraction(mob: Mobility, r: seq<Vector>, f: seq<Vector>, d: nat, k: nat, m: nat)
    requires Ready(mob, r, f, d) && k < |r| && m <= |r| && mob.order > 4
    ensures Partial(mob, r, f, d, k, m) == if k < m then f[k] else Zero(d)
  {
    if m > 0 {
      PartialWithoutInteraction(mob, r, f, d, k, m - 1);
      var prev := Partial(mob, r, f, d, k, m - 1);
      var t := Term(mob, r, f, d, k, m - 1);
      if k == m - 1 {
        assert Add(prev, t) == f[k];
      } else {
        assert t == Zero(d);
        assert Add(prev, t) == prev;
      }
    }
  }

  /** Beyond order 4 there is no interaction: each velocity is the self mobility times the own force. */
  lemma NoInteractionBeyondOrderFour(mob: Mobility, r: seq<Vector>, f: seq<Vector>, d: nat, k: nat)
    requires Ready(mob, r, f, d) && k < |r| && mob.order > 4
    ensures Velocity(mob, r, f, d, k) == Scale(f[k], SelfMobility(mob.radius, mob.viscosity))
  {
    PartialWithoutInteraction(mob, r, f, d, k, |r|);
  }

  /** A single particle moves with the self mobility times its force. */
  lemma SingleParticle(mob: Mobility, r: seq<Vector>, f: seq<Vector>, d: nat)
    requires Ready(mob, r, f, d) && |r| == 1
    ensures Velocity(mob, r, f, d, 0) == Scale(f[0], SelfMobility(mob.radius, mob.viscosity))
  {
    assert Partial(mob, r, f, d, 0, 1) == f[0] by {
      assert Add(Zero(d), f[0]) == f[0];
    }
  }

  function Negate(v: Vector): (w: Vector)
    ensures |w| == |v| && forall i :: 0 <= i < |v| ==> w[i] == -v[i]
  {
    Scale(v, -1.0)
  }

  lemma {:induction false} DotNegate(a: Vector, b: Vector)
    requires |a| == |b|
    ensures Dot(Negate(a), b) == -Dot(a, b) && Dot(Negate(a), Negate(a)) == Dot(a, a)
  {
    if |a| > 0 {
      assert Negate(a)[1..] == Negate(a[1..]);
      DotNegate(a[1..], b[1..]);
    }
  }

  lemma ScaleNegate(v: Vector, x: real, y: real)
    requires y == -x
    ensures Scale(Negate(v), y) == Scale(v, x)
  {
    forall i | 0 <= i < |v|
      ensures Scale(Negate(v), y)[i] == Scale(v, x)[i]
    {
      assert -v[i] * -x == v[i] * x;
    }
  }

  lemma NegateQuotient(x: real, y: real, q: real)
    requires q != 0.0 && y == -x
    ensures y / q == -(x / q)
  {
  }

  lemma NegateProduct(k: real, x: real, y: real)
    requires y == -x
    ensures k * y == -(k * x)
  {
  }

  lemma OseenTensorIsEven(a: real, dr: Vector, dist2: real, dist: real, fj: Vector)
    requires |dr| == |fj| && dist2 != 0.0 && dist != 0.0
    ensures OseenTensor(a, Negate(dr), dist2, dist, fj) == OseenTensor(a, dr, dist2, dist, fj)
  {
    DotNegate(dr, fj);
    var x := Dot(dr, fj);
    NegateQuotient(x, Dot(Negate(dr), fj), dist2);
    ScaleNegate(dr, x / dist2, Dot(Negate(dr), fj) / dist2);
  }

  lemma NearRotnePragerIsEven(a: real, dr: Vector, dist: real, fj: Vector)
    requires |dr| == |fj| && a != 0.0 && dist != 0.0
    ensures NearRotnePrager(a, Negate(dr), dist, fj) == NearRotnePrager(a, dr, dist, fj)
  {
    DotNegate(dr, fj);
    var x := Dot(dr, fj);
    var q := a * dist;
    Nonzero2(a, dist, q);
    NegateQuotient((3.0 / 32.0) * x, (3.0 / 32.0) * Dot(Negate(dr), fj), q);
    ScaleNegate(dr, (3.0 / 32.0) * x / q, (3.0 / 32.0) * Dot(Negate(dr), fj) / q);
  }

  lemma FarRotnePragerIsEven(a: real, dr: Vector, dist2: real, dist: real, fj: Vector)
    requires |dr| == |fj| && dist2 != 0.0 && dist != 0.0
    ensures FarRotnePrager(a, Negate(dr), dist2, dist, fj) == FarRotnePrager(a, dr, dist2, dist, fj)
  {
    DotNegate(dr, fj);
    FarProjectionIsOdd(a / dist, Dot(dr, fj), Dot(Negate(dr), fj), dist2);
    ScaleNegate(dr, FarProjection(a / dist, Dot(dr, fj), dist2), FarProjection(a / dist, Dot(Negate(dr), fj), dist2));
  }

  lemma FarProjectionIsOdd(b: real, x: real, y: real, q: real)
    requires q != 0.0 && y == -x
    ensures FarProjection(b, y, q) == -FarProjection(b, x, q)
  {
    var k := (0.75 - 1.5 * Square(b)) * b;
    NegateProduct(k, x, y);
    NegateQuotient(k * x, k * y, q);
  }

  /**
   * The tensor is even in the distance vector: −dr gives the same velocity as
   * dr, which is why each pair's distance vector is computed only once.
   */
  lemma TensorIsEven(mob: Mobility, dr: Vector, dist2: real, dist: real, fj: Vector)
    requires |dr| == |fj| && mob.radius != 0.0
    requires mob.order <= 4 ==> dist2 != 0.0 && dist != 0.0
    ensures Tensor(mob, Negate(dr), dist2, dist, fj) == Tensor(mob, dr, dist2, dist, fj)
  {
    if mob.order <= 2 {
      OseenTensorIsEven(mob.radius, dr, dist2, dist, fj);
    } else if mob.order <= 4 {
      if dist < 2.0 * mob.radius {
        NearRotnePragerIsEven(mob.radius, dr, dist, fj);
      } else {
        FarRotnePragerIsEven(mob.radius, dr, dist2, dist, fj);
      }
    }
  }

  /**
   * With a reduction that commutes with negation (as the minimum-image
   * reduction does), the contribution of l to k is the tensor of k's own
   * distance vector r[k] − r[l]: which particle of the pair is visited first
   * does not matter.
   */
  lemma TermUsesOwnDistance(mob: Mobility, r: seq<Vector>, f: seq<Vector>, d: nat, k: nat, l: nat)
    requires Ready(mob, r, f, d) && k < |r| && l < |r| && k != l
    requires forall x: Vector :: mob.reduce(Negate(x)) == Negate(mob.reduce(x))
    requires var dr := mob.reduce(Sub(r[k], r[l]));
             mob.order <= 4 ==> Dot(dr, dr) != 0.0 && mob.sqrt(Dot(dr, dr)) != 0.0
    ensures var dr := mob.reduce(Sub(r[k], r[l]));
            Term(mob, r, f, d, k, l) == Tensor(mob, dr, Dot(dr, dr), mob.sqrt(Dot(dr, dr)), f[l])
  {
    var dr := mob.reduce(Sub(r[k], r[l]));
    if l < k {
      assert Sub(r[l], r[k]) == Negate(Sub(r[k], r[l]));
      var lo := PairDr(mob, r, l, k);
      assert lo == Negate(dr);
      DotNegate(dr, dr);
      TensorIsEven(mob, dr, Dot(dr, dr), mob.sqrt(Dot(dr, dr)), f[l]);
    }
  }
}
