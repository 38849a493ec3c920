// Pair forces of the host Lennard-Jones fluid
// (src/halmd/mdsim/ljfluid_host.hpp, compute_forces and
// compute_smooth_potential): the reduced-unit 12-6 force and shifted
// energy of one pair, the optional C2 smoothing, and the accumulation of
// forces, potential energy and virial over the neighbour pairs, as a fold
// that the imperative loop in module LjFluid is proved against.

module FluidForces {
  import opened Vectors
  import opened Periodic
  import opened FluidCells

  /** Number of pair types: AA, AB, BB for a binary mixture, one otherwise. */
  function NumPairTypes(binary: bool): nat
  {
    if binary then 3 else 1
  }

  /** Pair-potential parameters indexed by pair type. */
  datatype Potential = Potential(
    rCut: seq<real>,
    rrCut: seq<real>,
    enCut: seq<real>,
    sigma2: seq<real>,
    epsilon: seq<real>,
    smooth: bool,       // potential_ == C2POT
    rriSmooth: real)

  predicate ValidPotential(binary: bool, pot: Potential)
  {
    var n := NumPairTypes(binary);
    |pot.rCut| == n && |pot.rrCut| == n && |pot.enCut| == n && |pot.sigma2| == n
    && |pot.epsilon| == n
    && (forall t :: 0 <= t < n ==> pot.sigma2[t] > 0.0)
  }

  ghost predicate SqrtPositive(sqrt: real -> real)
  {
    forall x :: x > 0.0 ==> sqrt(x) > 0.0
  }

  /**
   * compute_smooth_potential: with y = r - r_cut and x = y^2/r_smooth^2,
   * the force and energy are multiplied by h0 = x^4/(1+x^4), the force also
   * corrected by the derivative h1 of the smoothing function.
   */
  function Smooth(r: real, rCut: real, rriSmooth: real, fval: real, pot: real): (res: (real, real))
    requires r != 0.0
    ensures r == rCut ==> res == (0.0, 0.0)
  {
    var y := r - rCut;
    var x2 := y * y * rriSmooth;
    var x4 := x2 * x2;
    var x4i := 1.0 / (1.0 + x4);
    var h0 := x4 * x4i;
    var h1 := 4.0 * y * rriSmooth * x2 * x4i * x4i;
    assert y == 0.0 ==> x2 == 0.0 && h0 == 0.0 && h1 == 0.0;
    assert y == 0.0 ==> h0 * fval - h1 * (pot / r) == 0.0 && h0 * pot == 0.0;
    (h0 * fval - h1 * (pot / r), h0 * pot)
  }

  /** The smoothing factor x^4/(1+x^4) of the energy. */
  function SmoothFactor(r: real, rCut: real, rriSmooth: real): real
  {
    var y := r - rCut;
    var x2 := y * y * rriSmooth;
    var x4 := x2 * x2;
    x4 * (1.0 / (1.0 + x4))
  }

  /** The smoothed energy is the energy damped by a factor in [0, 1). */
  lemma SmoothDampsEnergy(r: real, rCut: real, rriSmooth: real, fval: real, pot: real)
    requires r != 0.0
    ensures Smooth(r, rCut, rriSmooth, fval, pot).1 == SmoothFactor(r, rCut, rriSmooth) * pot
    ensures 0.0 <= SmoothFactor(r, rCut, rriSmooth) < 1.0
  {
    var y := r - rCut;
    var x2 := y * y * rriSmooth;
    var x4 := x2 * x2;
    assert x4 >= 0.0;
    var x4i := 1.0 / (1.0 + x4);
    assert x4i > 0.0;
    assert x4 * x4i == x4 / (1.0 + x4);
    assert x4 / (1.0 + x4) < 1.0;
  }

  /**
   * Force magnitude over distance and energy of one pair at squared
   * distance rr > 0 in reduced units; `r` is the distance, used only by
   * the smoothing.
   */
  function PairForce(binary: bool, P: Potential, t: nat, rr: real, r: real): (res: (real, real))
    requires ValidPotential(binary, P) && t < NumPairTypes(binary)
    requires rr > 0.0
    requires P.smooth ==> r != 0.0
    ensures !P.smooth ==> res.1 == (4.0 * LjR6(binary, P, t, rr) * (LjR6(binary, P, t, rr) - 1.0) - P.enCut[t]) * LjEps(binary, P, t)
  {
    var sigma2 := if binary then P.sigma2[t] else 1.0;
    var eps := LjEps(binary, P, t);
    var rri := sigma2 / rr;
    var r6i := rri * rri * rri;
    var fval := 48.0 * rri * r6i * (r6i - 0.5) * (eps / sigma2);
    var pot := (4.0 * r6i * (r6i - 1.0) - P.enCut[t]) * eps;
    if P.smooth then Smooth(r, P.rCut[if binary then t else 0], P.rriSmooth, fval, pot)
    else (fval, pot)
  }

  function LjEps(binary: bool, P: Potential, t: nat): real
    requires ValidPotential(binary, P) && t < NumPairTypes(binary)
  {
    if binary then P.epsilon[t] else 1.0
  }

  /** (sigma^2/rr)^3 */
  function LjR6(binary: bool, P: Potential, t: nat, rr: real): real
    requires ValidPotential(binary, P) && t < NumPairTypes(binary)
    requires rr > 0.0
  {
    var rri := (if binary then P.sigma2[t] else 1.0) / rr;
    rri * rri * rri
  }

  /**
   * With the energy shift equal to the 12-6 energy at the cutoff, the
   * unsmoothed pair energy vanishes at the cutoff.
   */
  lemma PairEnergyVanishesAtCutoff(binary: bool, P: Potential, t: nat, r: real)
    requires ValidPotential(binary, P) && t < NumPairTypes(binary)
    requires !P.smooth && P.rrCut[t] > 0.0
    requires P.enCut[t] == 4.0 * LjR6(binary, P, t, P.rrCut[t]) * (LjR6(binary, P, t, P.rrCut[t]) - 1.0)
    ensures PairForce(binary, P, t, P.rrCut[t], r).1 == 0.0
  {
  }

  // ---------------------------------------------------------------
  // Accumulation state and one pair visit
  // ---------------------------------------------------------------

  /**
   * Forces per particle, the potential energy sum, the virial tensors per
   * species and whether a pair at zero distance made the energy diverge.
   */
  datatype ForceState = ForceState(f: seq<Vector>, enPot: real, virial: seq<seq<real>>, diverged: bool)

  /** Entries of a virial tensor: the trace part and the off-diagonal products. */
  function TensorSize(dim: nat): nat
  {
    if dim == 3 then 4 else 2
  }

  predicate ValidState(g: Geometry, n: nat, nspecies: nat, st: ForceState)
  {
    |st.f| == n && AllDim(st.f, g.dim) && |st.virial| == nspecies
    && (forall s :: 0 <= s < nspecies ==> |st.virial[s]| == TensorSize(g.dim))
  }

  /** The virial contributions of one pair, each already halved for the two partners. */
  function PairVirial(dim: nat, r: Vector, rr: real, fval: real): (w: seq<real>)
    requires |r| == dim && (dim == 2 || dim == 3)
    ensures |w| == TensorSize(dim)
  {
    if dim == 3 then
      [0.5 * rr * fval, 0.5 * r[1] * r[2] * fval, 0.5 * r[2] * r[0] * fval, 0.5 * r[0] * r[1] * fval]
    else
      [0.5 * rr * fval, 0.5 * r[0] * r[1] * fval]
  }

  function AddAt(vs: seq<seq<real>>, s: nat, w: seq<real>): (res: seq<seq<real>>)
    requires s < |vs| && |vs[s]| == |w|
    ensures |res| == |vs|
    ensures forall u :: 0 <= u < |vs| ==> |res[u]| == |vs[u]|
  {
    vs[s := Add(vs[s], w)]
  }

  /** Everything the force loop reads besides the particles. */
  datatype ForceSetup = ForceSetup(g: Geometry, P: Potential, sqrt: real -> real, nspecies: nat)

  ghost predicate ValidSetup(fs: ForceSetup)
  {
    ValidGeometry(fs.g) && ValidPotential(fs.g.binary, fs.P) && SqrtPositive(fs.sqrt)
    && fs.nspecies == (if fs.g.binary then 2 else 1)
  }

  /** The species of every particle indexes a virial tensor. */
  ghost predicate ValidSystem(fs: ForceSetup, ps: seq<Site>)
  {
    ValidSetup(fs) && ValidSites(fs.g, ps)
    && (forall k :: 0 <= k < |ps| ==> ps[k].ptype < fs.nspecies)
  }

  /** Every neighbour list holds indices of particles. */
  predicate ListsIn(nbl: seq<seq<nat>>, n: nat)
  {
    forall k :: 0 <= k < |nbl| ==> IndicesIn(nbl[k], n)
  }

  /** Minimum-image separation of the pair (p1, p2). */
  function PairSeparation(fs: ForceSetup, ps: seq<Site>, p1: nat, p2: nat): (r: Vector)
    requires ValidSystem(fs, ps) && p1 < |ps| && p2 < |ps|
    ensures |r| == fs.g.dim
  {
    MinImage(Sub(ps[p1].r, ps[p2].r), fs.g.box)
  }

  function PairTypeOf(fs: ForceSetup, ps: seq<Site>, p1: nat, p2: nat): (t: nat)
    requires ValidSystem(fs, ps) && p1 < |ps| && p2 < |ps|
    ensures t < NumPairTypes(fs.g.binary)
  {
    PairType(fs.g.binary, ps[p1].ptype, ps[p2].ptype)
  }

  /** The pair lies inside its cutoff radius. */
  predicate InCutoff(fs: ForceSetup, ps: seq<Site>, pair: (nat, nat))
    requires ValidSystem(fs, ps) && pair.0 < |ps| && pair.1 < |ps|
  {
    var r := PairSeparation(fs, ps, pair.0, pair.1);
    Dot(r, r) < fs.P.rrCut[PairTypeOf(fs, ps, pair.0, pair.1)]
  }

  /** One visit of the pair (p1, p2) in compute_forces. */
  function ForceStep(fs: ForceSetup, ps: seq<Site>, st: ForceState, pair: (nat, nat)): (res: ForceState)
    requires ValidSystem(fs, ps) && ValidState(fs.g, |ps|, fs.nspecies, st)
    requires pair.0 < |ps| && pair.1 < |ps|
    ensures ValidState(fs.g, |ps|, fs.nspecies, res)
  {
    var (p1, p2) := pair;
    var r := PairSeparation(fs, ps, p1, p2);
    var t := PairTypeOf(fs, ps, p1, p2);
    var rr := Dot(r, r);
    if rr >= fs.P.rrCut[t] then st
    else if rr == 0.0 then st.(diverged := true)
    else
      DotSelfNonNegative(r);
      assert fs.sqrt(rr) > 0.0;
      var (fval, pot) := PairForce(fs.g.binary, fs.P, t, rr, fs.sqrt(rr));
      var fr := Scale(r, fval);
      var f1 := st.f[p1 := Add(st.f[p1], fr)];
      var f2 := f1[p2 := Sub(f1[p2], fr)];
      var w := PairVirial(fs.g.dim, r, rr, fval);
      var vir1 := AddAt(st.virial, ps[p1].ptype, w);
      var vir2 := AddAt(vir1, ps[p2].ptype, w);
      ForceState(f2, st.enPot + pot, vir2, st.diverged)
  }

  predicate PairsIn(pairs: seq<(nat, nat)>, n: nat)
  {
    forall k :: 0 <= k < |pairs| ==> pairs[k].0 < n && pairs[k].1 < n
  }

  /** The accumulation over a sequence of pair visits, in order. */
  function FoldForces(fs: ForceSetup, ps: seq<Site>, st: ForceState, pairs: seq<(nat, nat)>): (res: ForceState)
    requires ValidSystem(fs, ps) && ValidState(fs.g, |ps|, fs.nspecies, st) && PairsIn(pairs, |ps|)
    ensures ValidState(fs.g, |ps|, fs.nspecies, res)
  {
    if |pairs| == 0 then st
    else ForceStep(fs, ps, FoldForces(fs, ps, st, pairs[..|pairs| - 1]), pairs[|pairs| - 1])
  }

  /** The pairs (p1, p2) for p2 in p1's neighbour list, p1 taken in order up to n. */
  function NeighbourPairs(nbl: seq<seq<nat>>, n: nat): (pairs: seq<(nat, nat)>)
    requires n <= |nbl| && ListsIn(nbl, |nbl|)
    ensures PairsIn(pairs, |nbl|)
  {
    if n == 0 then [] else NeighbourPairs(nbl, n - 1) + PairsOf(nbl, n - 1, |nbl[n - 1]|)
  }

  /** The pairs (p1, p2) for the first j entries p2 of p1's neighbour list. */
  function PairsOf(nbl: seq<seq<nat>>, p1: nat, j: nat): (pairs: seq<(nat, nat)>)
    requires p1 < |nbl| && j <= |nbl[p1]| && ListsIn(nbl, |nbl|)
    ensures |pairs| == j
    ensures forall k :: 0 <= k < j ==> pairs[k] == (p1, nbl[p1][k])
    ensures PairsIn(pairs, |nbl|)
  {
    seq(j, k requires 0 <= k < j => (p1, nbl[p1][k]))
  }

  lemma FoldForcesAppend(fs: ForceSetup, ps: seq<Site>, st: ForceState, a: seq<(nat, nat)>, b: seq<(nat, nat)>)
    requires ValidSystem(fs, ps) && ValidState(fs.g, |ps|, fs.nspecies, st)
    requires PairsIn(a, |ps|) && PairsIn(b, |ps|)
    ensures PairsIn(a + b, |ps|)
    ensures FoldForces(fs, ps, st, a + b) == FoldForces(fs, ps, FoldForces(fs, ps, st, a), b)
    decreases |b|
  {
    if |b| > 0 {
      assert (a + b)[..|a + b| - 1] == a + b[..|b| - 1];
      FoldForcesAppend(fs, ps, st, a, b[..|b| - 1]);
    } else {
      assert a + b == a;
    }
  }

  /** Folding one more pair is one more pair visit. */
  lemma FoldForcesSnoc(fs: ForceSetup, ps: seq<Site>, st: ForceState, pairs: seq<(nat, nat)>, pair: (nat, nat))
    requires ValidSystem(fs, ps) && ValidState(fs.g, |ps|, fs.nspecies, st) && PairsIn(pairs, |ps|)
    requires pair.0 < |ps| && pair.1 < |ps|
    ensures PairsIn(pairs + [pair], |ps|)
    ensures FoldForces(fs, ps, st, pairs + [pair]) == ForceStep(fs, ps, FoldForces(fs, ps, st, pairs), pair)
  {
    assert (pairs + [pair])[..|pairs|] == pairs;
  }

  /** The pairs of the first p1 lists and the first j + 1 entries of list p1. */
  lemma PairsOfSnoc(nbl: seq<seq<nat>>, p1: nat, j: nat)
    requires p1 < |nbl| && j < |nbl[p1]| && ListsIn(nbl, |nbl|)
    ensures NeighbourPairs(nbl, p1) + PairsOf(nbl, p1, j + 1)
         == (NeighbourPairs(nbl, p1) + PairsOf(nbl, p1, j)) + [(p1, nbl[p1][j])]
  {
    assert PairsOf(nbl, p1, j + 1) == PairsOf(nbl, p1, j) + [(p1, nbl[p1][j])];
  }

  // ---------------------------------------------------------------
  // Properties of the accumulation
  // ---------------------------------------------------------------

  /** Each pair visit adds the same force to one partner as it takes from the other. */
  lemma ForceStepConservesMomentum(fs: ForceSetup, ps: seq<Site>, st: ForceState, pair: (nat, nat), c: nat)
    requires ValidSystem(fs, ps) && ValidState(fs.g, |ps|, fs.nspecies, st)
    requires pair.0 < |ps| && pair.1 < |ps| && c < fs.g.dim
    ensures SumComp(ForceStep(fs, ps, st, pair).f, c) == SumComp(st.f, c)
  {
    var (p1, p2) := pair;
    var r := PairSeparation(fs, ps, p1, p2);
    var t := PairTypeOf(fs, ps, p1, p2);
    var rr := Dot(r, r);
    if rr < fs.P.rrCut[t] && rr != 0.0 {
      DotSelfNonNegative(r);
      var (fval, pot) := PairForce(fs.g.binary, fs.P, t, rr, fs.sqrt(rr));
      var fr := Scale(r, fval);
      var f1 := st.f[p1 := Add(st.f[p1], fr)];
      SumCompUpdate(st.f, p1, Add(st.f[p1], fr), c);
      SumCompUpdate(f1, p2, Sub(f1[p2], fr), c);
    }
  }

  /** Newton's third law: the accumulation leaves the total force unchanged. */
  lemma {:induction false} FoldForcesConservesMomentum(fs: ForceSetup, ps: seq<Site>, st: ForceState, pairs: seq<(nat, nat)>, c: nat)
    requires ValidSystem(fs, ps) && ValidState(fs.g, |ps|, fs.nspecies, st) && PairsIn(pairs, |ps|)
    requires c < fs.g.dim
    ensures SumComp(FoldForces(fs, ps, st, pairs).f, c) == SumComp(st.f, c)
  {
    if |pairs| > 0 {
      FoldForcesConservesMomentum(fs, ps, st, pairs[..|pairs| - 1], c);
      ForceStepConservesMomentum(fs, ps, FoldForces(fs, ps, st, pairs[..|pairs| - 1]), pairs[|pairs| - 1], c);
    }
  }

  /** The pairs of a sequence that lie inside their cutoff, in order. */
  function CutoffPairs(fs: ForceSetup, ps: seq<Site>, pairs: seq<(nat, nat)>): (res: seq<(nat, nat)>)
    requires ValidSystem(fs, ps) && PairsIn(pairs, |ps|)
    ensures PairsIn(res, |ps|)
  {
    if |pairs| == 0 then []
    else
      var last := pairs[|pairs| - 1];
      CutoffPairs(fs, ps, pairs[..|pairs| - 1]) + (if InCutoff(fs, ps, last) then [last] else [])
  }

  /** Pairs at or beyond the cutoff contribute nothing: dropping them gives the same result. */
  lemma {:induction false} FoldForcesOnlyCutoffPairs(fs: ForceSetup, ps: seq<Site>, st: ForceState, pairs: seq<(nat, nat)>)
    requires ValidSystem(fs, ps) && ValidState(fs.g, |ps|, fs.nspecies, st) && PairsIn(pairs, |ps|)
    ensures FoldForces(fs, ps, st, pairs) == FoldForces(fs, ps, st, CutoffPairs(fs, ps, pairs))
  {
    if |pairs| > 0 {
      var init, last := pairs[..|pairs| - 1], pairs[|pairs| - 1];
      FoldForcesOnlyCutoffPairs(fs, ps, st, init);
      if InCutoff(fs, ps, last) {
        var c := CutoffPairs(fs, ps, init) + [last];
        assert c[..|c| - 1] == CutoffPairs(fs, ps, init);
      } else {
        assert CutoffPairs(fs, ps, pairs) == CutoffPairs(fs, ps, init);
        assert ForceStep(fs, ps, FoldForces(fs, ps, st, init), last) == FoldForces(fs, ps, st, init);
      }
    }
  }

  /** A pair inside its cutoff at zero distance: its energy is infinite. */
  predicate Coincident(fs: ForceSetup, ps: seq<Site>, pair: (nat, nat))
    requires ValidSystem(fs, ps) && pair.0 < |ps| && pair.1 < |ps|
  {
    var r := PairSeparation(fs, ps, pair.0, pair.1);
    InCutoff(fs, ps, pair) && Dot(r, r) == 0.0
  }

  lemma ForceStepDiverges(fs: ForceSetup, ps: seq<Site>, st: ForceState, pair: (nat, nat))
    requires ValidSystem(fs, ps) && ValidState(fs.g, |ps|, fs.nspecies, st)
    requires pair.0 < |ps| && pair.1 < |ps|
    ensures ForceStep(fs, ps, st, pair).diverged <==> st.diverged || Coincident(fs, ps, pair)
  {
  }

  /** Some pair of the sequence is coincident. */
  predicate AnyCoincident(fs: ForceSetup, ps: seq<Site>, pairs: seq<(nat, nat)>)
    requires ValidSystem(fs, ps) && PairsIn(pairs, |ps|)
  {
    exists k :: 0 <= k < |pairs| && Coincident(fs, ps, pairs[k])
  }

  lemma AnyCoincidentSnoc(fs: ForceSetup, ps: seq<Site>, pairs: seq<(nat, nat)>)
    requires ValidSystem(fs, ps) && PairsIn(pairs, |ps|) && |pairs| > 0
    ensures AnyCoincident(fs, ps, pairs) <==>
      AnyCoincident(fs, ps, pairs[..|pairs| - 1]) || Coincident(fs, ps, pairs[|pairs| - 1])
  {
    var init := pairs[..|pairs| - 1];
    if AnyCoincident(fs, ps, init) {
      var k :| 0 <= k < |init| && Coincident(fs, ps, init[k]);
      assert pairs[k] == init[k];
    }
    if AnyCoincident(fs, ps, pairs) {
      var k :| 0 <= k < |pairs| && Coincident(fs, ps, pairs[k]);
      if k < |init| {
        assert init[k] == pairs[k];
      }
    }
  }

  /** The energy diverges iff it had diverged before or some visited pair is coincident. */
  lemma {:induction false} FoldForcesDiverges(fs: ForceSetup, ps: seq<Site>, st: ForceState, pairs: seq<(nat, nat)>)
    requires ValidSystem(fs, ps) && ValidState(fs.g, |ps|, fs.nspecies, st) && PairsIn(pairs, |ps|)
    ensures FoldForces(fs, ps, st, pairs).diverged <==> st.diverged || AnyCoincident(fs, ps, pairs)
  {
    if |pairs| > 0 {
      var init := pairs[..|pairs| - 1];
      FoldForcesDiverges(fs, ps, st, init);
      ForceStepDiverges(fs, ps, FoldForces(fs, ps, st, init), pairs[|pairs| - 1]);
      AnyCoincidentSnoc(fs, ps, pairs);
    }
  }

  /** The energy of one pair visit: zero outside the cutoff or at zero distance. */
  function PairEnergy(fs: ForceSetup, ps: seq<Site>, pair: (nat, nat)): real
    requires ValidSystem(fs, ps) && pair.0 < |ps| && pair.1 < |ps|
  {
    var r := PairSeparation(fs, ps, pair.0, pair.1);
    var t := PairTypeOf(fs, ps, pair.0, pair.1);
    var rr := Dot(r, r);
    if rr >= fs.P.rrCut[t] || rr == 0.0 then 0.0
    else
      DotSelfNonNegative(r);
      assert fs.sqrt(rr) > 0.0;
      PairForce(fs.g.binary, fs.P, t, rr, fs.sqrt(rr)).1
  }

  function EnergySum(fs: ForceSetup, ps: seq<Site>, pairs: seq<(nat, nat)>): real
    requires ValidSystem(fs, ps) && PairsIn(pairs, |ps|)
  {
    if |pairs| == 0 then 0.0
    else EnergySum(fs, ps, pairs[..|pairs| - 1]) + PairEnergy(fs, ps, pairs[|pairs| - 1])
  }

  /**
   * The accumulated energy is the starting value plus the sum of the pair
   * energies; forces and virial do not influence it.
   */
  lemma {:induction false} FoldForcesEnergy(fs: ForceSetup, ps: seq<Site>, st: ForceState, pairs: seq<(nat, nat)>)
    requires ValidSystem(fs, ps) && ValidState(fs.g, |ps|, fs.nspecies, st) && PairsIn(pairs, |ps|)
    ensures FoldForces(fs, ps, st, pairs).enPot == st.enPot + EnergySum(fs, ps, pairs)
  {
    if |pairs| > 0 {
      FoldForcesEnergy(fs, ps, st, pairs[..|pairs| - 1]);
    }
  }

  /**
   * The force state compute_forces reaches: from zero forces, zero energy
   * and the virial vir0, every neighbour pair (p1, p2) visited in order.
   */
  ghost function StepForces(fs: ForceSetup, ps: seq<Site>, nbl: seq<seq<nat>>, vir0: seq<seq<real>>): (st: ForceState)
    requires ValidSystem(fs, ps) && |nbl| == |ps| && ListsIn(nbl, |ps|)
    requires |vir0| == fs.nspecies && forall s :: 0 <= s < |vir0| ==> |vir0[s]| == TensorSize(fs.g.dim)
    ensures ValidState(fs.g, |ps|, fs.nspecies, st)
  {
    FoldForces(fs, ps, ForceState(Zeros(|ps|, fs.g.dim), 0.0, vir0, false), NeighbourPairs(nbl, |ps|))
  }

  /**
   * What one force computation yields: the total force is zero, the
   * energy is the sum of the pair energies over the neighbour pairs, and
   * it diverges exactly when one of those pairs is coincident.
   */
  lemma StepForcesProperties(fs: ForceSetup, ps: seq<Site>, nbl: seq<seq<nat>>, vir0: seq<seq<real>>)
    requires ValidSystem(fs, ps) && |nbl| == |ps| && ListsIn(nbl, |ps|)
    requires |vir0| == fs.nspecies && forall s :: 0 <= s < |vir0| ==> |vir0[s]| == TensorSize(fs.g.dim)
    ensures Sum(StepForces(fs, ps, nbl, vir0).f, fs.g.dim) == Zero(fs.g.dim)
    ensures StepForces(fs, ps, nbl, vir0).enPot == EnergySum(fs, ps, NeighbourPairs(nbl, |ps|))
    ensures StepForces(fs, ps, nbl, vir0).diverged <==> AnyCoincident(fs, ps, NeighbourPairs(nbl, |ps|))
  {
    var st0 := ForceState(Zeros(|ps|, fs.g.dim), 0.0, vir0, false);
    var pairs := NeighbourPairs(nbl, |ps|);
    forall c | 0 <= c < fs.g.dim
      ensures SumComp(StepForces(fs, ps, nbl, vir0).f, c) == 0.0
    {
      FoldForcesConservesMomentum(fs, ps, st0, pairs, c);
      SumCompZeros(|ps|, fs.g.dim, c);
    }
    FoldForcesEnergy(fs, ps, st0, pairs);
    FoldForcesDiverges(fs, ps, st0, pairs);
  }

  // ---------------------------------------------------------------
  // Kinetic part of the virial (compute_virial_kinetic)
  // ---------------------------------------------------------------

  /** The kinetic terms of one velocity: v.v and the off-diagonal products. */
  function KineticTerms(dim: nat, v: Vector): (w: seq<real>)
    requires |v| == dim && (dim == 2 || dim == 3)
    ensures |w| == TensorSize(dim)
  {
    if dim == 3 then [Dot(v, v), v[1] * v[2], v[2] * v[0], v[0] * v[1]]
    else [Dot(v, v), v[0] * v[1]]
  }

  /** Velocities of dimension dim, one per particle, each particle of one of nspecies species. */
  predicate ValidVelocities(dim: nat, nspecies: nat, types: seq<nat>, v: seq<Vector>)
  {
    (dim == 2 || dim == 3) && |v| == |types| && AllDim(v, dim)
    && (forall k :: 0 <= k < |types| ==> types[k] < nspecies)
  }

  function ZeroTensors(nspecies: nat, dim: nat): (vs: seq<seq<real>>)
    ensures |vs| == nspecies
    ensures forall s :: 0 <= s < nspecies ==> vs[s] == Zero(TensorSize(dim))
  {
    seq(nspecies, s => Zero(TensorSize(dim)))
  }

  /** The kinetic virial tensors of the first n particles, summed per species. */
  function KineticVirial(dim: nat, nspecies: nat, types: seq<nat>, v: seq<Vector>, n: nat): (vs: seq<seq<real>>)
    requires ValidVelocities(dim, nspecies, types, v) && n <= |v|
    ensures |vs| == nspecies
    ensures forall s :: 0 <= s < nspecies ==> |vs[s]| == TensorSize(dim)
  {
    if n == 0 then ZeroTensors(nspecies, dim)
    else AddAt(KineticVirial(dim, nspecies, types, v, n - 1), types[n - 1], KineticTerms(dim, v[n - 1]))
  }

  function TraceSum(vs: seq<seq<real>>): real
    requires forall s :: 0 <= s < |vs| ==> |vs[s]| > 0
  {
    if |vs| == 0 then 0.0 else TraceSum(vs[..|vs| - 1]) + vs[|vs| - 1][0]
  }

  lemma {:induction false} TraceSumAddAt(vs: seq<seq<real>>, s: nat, w: seq<real>)
    requires s < |vs| && |vs[s]| == |w| && |w| > 0
    requires forall u :: 0 <= u < |vs| ==> |vs[u]| > 0
    ensures TraceSum(AddAt(vs, s, w)) == TraceSum(vs) + w[0]
  {
    var n := |vs|;
    var ws := AddAt(vs, s, w);
    if s == n - 1 {
      assert ws[..n - 1] == vs[..n - 1];
    } else {
      assert ws[..n - 1] == AddAt(vs[..n - 1], s, w);
      TraceSumAddAt(vs[..n - 1], s, w);
    }
  }

  lemma {:induction false} TraceSumZero(nspecies: nat, dim: nat)
    ensures TraceSum(ZeroTensors(nspecies, dim)) == 0.0
  {
    if nspecies > 0 {
      assert ZeroTensors(nspecies, dim)[..nspecies - 1] == ZeroTensors(nspecies - 1, dim);
      TraceSumZero(nspecies - 1, dim);
    }
  }

  /**
   * Summed over the species, the diagonal part of the kinetic virial is
   * the sum of v.v over all particles, whatever their species.
   */
  lemma {:induction false} KineticVirialTrace(dim: nat, nspecies: nat, types: seq<nat>, v: seq<Vector>, n: nat)
    requires ValidVelocities(dim, nspecies, types, v) && n <= |v|
    ensures TraceSum(KineticVirial(dim, nspecies, types, v, n)) == SquaresSum(v, n)
  {
    if n == 0 {
      TraceSumZero(nspecies, dim);
    } else {
      KineticVirialTrace(dim, nspecies, types, v, n - 1);
      TraceSumAddAt(KineticVirial(dim, nspecies, types, v, n - 1), types[n - 1], KineticTerms(dim, v[n - 1]));
    }
  }
}
