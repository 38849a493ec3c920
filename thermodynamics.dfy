// The reduction accumulators of the GPU thermodynamics observables.  Each
// accumulator holds running sums; merging another accumulator adds its sums,
// and the result operator turns the sums into the observable.  Because every
// merge is an addition, a reduction depends only on the multiset of partial
// sums, not on the order in which the partial accumulators are merged.
//
// The per-particle accumulation operator (reading velocities, masses, potential
// energies and stress tensors from textures) is defined in a file that is not
// part of this model.

module Thermodynamics {
  import opened Vectors

  /** The sum of `xs`, accumulated left to right as a sequence of merges does. */
  function Total(xs: seq<real>): real
  {
    if |xs| == 0 then 0.0 else Total(xs[..|xs| - 1]) + xs[|xs| - 1]
  }

  lemma {:induction false} TotalAppend(xs: seq<real>, ys: seq<real>)
    ensures Total(xs + ys) == Total(xs) + Total(ys)
  {
    if |ys| == 0 {
      assert xs + ys == xs;
    } else {
      assert (xs + ys)[..|xs + ys| - 1] == xs + ys[..|ys| - 1];
      TotalAppend(xs, ys[..|ys| - 1]);
    }
  }

  lemma TotalSingleton(x: real)
    ensures Total([x]) == x
  {
    assert [x][..0] == [];
  }

  /** Taking element k out of the sum. */
  lemma TotalRemove(ys: seq<real>, k: nat)
    requires k < |ys|
    ensures Total(ys) == Total(ys[..k] + ys[k + 1..]) + ys[k]
  {
    var front, mid, back := ys[..k], [ys[k]] + ys[k + 1..], ys[k + 1..];
    assert ys == front + mid;
    TotalAppend(front, mid);
    TotalAppend([ys[k]], back);
    TotalSingleton(ys[k]);
    TotalAppend(front, back);
  }

  lemma MultisetRemove(ys: seq<real>, k: nat)
    requires k < |ys|
    ensures multiset(ys[..k] + ys[k + 1..]) == multiset(ys) - multiset{ys[k]}
  {
    assert ys == ys[..k] + [ys[k]] + ys[k + 1..];
  }

  /** Merging partial sums in any order gives the same total. */
  lemma {:induction false} TotalPermutation(xs: seq<real>, ys: seq<real>)
    requires multiset(xs) == multiset(ys)
    ensures Total(xs) == Total(ys)
  {
    if |xs| > 0 {
      var n := |xs|;
      var x := xs[n - 1];
      assert x in multiset(ys) by { assert x in multiset(xs); }
      var k :| 0 <= k < |ys| && ys[k] == x;
      var rest := ys[..k] + ys[k + 1..];
      MultisetRemove(ys, k);
      assert xs == xs[..n - 1] + [x];
      assert multiset(xs[..n - 1]) == multiset(rest);
      TotalPermutation(xs[..n - 1], rest);
      TotalRemove(ys, k);
    } else {
      assert |ys| == 0;
    }
  }

  /** The total kinetic energy accumulator: the sum of m v² over its particles. */
  class KineticEnergy {
    var mv2: real

    /** A new accumulator holds nothing. */
    constructor ()
      ensures mv2 == 0.0
    {
      mv2 := 0.0;
    }

    /** Merging adds the other accumulator's sum (the other may be this one). */
    method Merge(acc: KineticEnergy)
      modifies this
      ensures mv2 == old(mv2) + old(acc.mv2)
      ensures Result() == old(Result()) + old(acc.Result())
    {
      mv2 := mv2 + acc.mv2;
    }

    /** The kinetic energy, half the sum of m v². */
    function Result(): (e: real)
      reads this
      ensures e + e == mv2
    {
      0.5 * mv2
    }
  }

  function KineticSums(accs: seq<KineticEnergy>): (s: seq<real>)
    reads accs
    ensures |s| == |accs|
  {
    seq(|accs|, k requires 0 <= k < |accs| reads accs => accs[k].mv2)
  }

  /** Merging a sequence of partial accumulators, one after the other. */
  method ReduceKinetic(accs: seq<KineticEnergy>) returns (total: KineticEnergy)
    ensures fresh(total)
    ensures total.mv2 == Total(KineticSums(accs))
  {
    total := new KineticEnergy();
    var k := 0;
    while k < |accs|
      invariant 0 <= k <= |accs|
      invariant total.mv2 == Total(KineticSums(accs[..k]))
    {
      assert KineticSums(accs[..k + 1])[..k] == KineticSums(accs[..k]);
      total.Merge(accs[k]);
      k := k + 1;
    }
    assert accs[..k] == accs;
  }

  /** The centre-of-mass velocity accumulator: total momentum and total mass. */
  class VelocityOfCentreOfMass {
    var mv: Vector
    var m: real

    /** A new accumulator holds zero momentum and zero mass. */
    constructor (dim: nat)
      ensures mv == Zero(dim) && m == 0.0
    {
      mv := Zero(dim);
      m := 0.0;
    }

    /** Merging adds momentum and mass (the other may be this one). */
    method Merge(acc: VelocityOfCentreOfMass)
      requires |acc.mv| == |mv|
      modifies this
      ensures mv == Add(old(mv), old(acc.mv)) && m == old(m) + old(acc.m)
    {
      mv := Add(mv, acc.mv);
      m := m + acc.m;
    }

    /** The velocity u of the centre of mass: the one with m u equal to the momentum. */
    function Result(): (u: Vector)
      reads this
      requires m != 0.0
      ensures |u| == |mv|
      ensures forall i :: 0 <= i < |u| ==> u[i] * m == mv[i]
    {
      var u := Scale(mv, 1.0 / m);
      assert forall i :: 0 <= i < |u| ==> u[i] * m == mv[i] by {
        forall i | 0 <= i < |u|
          ensures u[i] * m == mv[i]
        {
          QuotientTimes(mv[i], m);
        }
      }
      u
    }
  }

  lemma QuotientTimes(x: real, m: real)
    requires m != 0.0
    ensures x * (1.0 / m) * m == x
  {
  }

  /**
   * The merged centre-of-mass velocity is the mass-weighted mean of the two
   * partial velocities u1 = p1/m1 and u2 = p2/m2.
   */
  lemma MergedVelocityIsWeightedMean(p1: real, m1: real, p2: real, m2: real)
    requires m1 != 0.0 && m2 != 0.0 && m1 + m2 != 0.0
    ensures (p1 + p2) / (m1 + m2) == (m1 * (p1 / m1) + m2 * (p2 / m2)) / (m1 + m2)
  {
    assert m1 * (p1 / m1) == p1;
    assert m2 * (p2 / m2) == p2;
  }

  function MomentumComponents(accs: seq<VelocityOfCentreOfMass>, c: nat): (s: seq<real>)
    reads accs
    requires forall k :: 0 <= k < |accs| ==> c < |accs[k].mv|
    ensures |s| == |accs|
  {
    seq(|accs|, k requires 0 <= k < |accs| && c < |accs[k].mv| reads accs => accs[k].mv[c])
  }

  function Masses(accs: seq<VelocityOfCentreOfMass>): (s: seq<real>)
    reads accs
    ensures |s| == |accs|
  {
    seq(|accs|, k requires 0 <= k < |accs| reads accs => accs[k].m)
  }

  /**
   * The momentum of a sequence of accumulators merged left to right; each
   * component is the total of that component over the accumulators.
   */
  function MomentumSum(accs: seq<VelocityOfCentreOfMass>, dim: nat): (p: Vector)
    reads accs
    requires forall k :: 0 <= k < |accs| ==> |accs[k].mv| == dim
    ensures |p| == dim
    ensures forall c :: 0 <= c < dim ==> p[c] == Total(MomentumComponents(accs, c))
  {
    if |accs| == 0 then Zero(dim)
    else
      var n := |accs| - 1;
      var p := Add(MomentumSum(accs[..n], dim), accs[n].mv);
      assert forall c :: 0 <= c < dim ==> MomentumComponents(accs, c)[..n] == MomentumComponents(accs[..n], c);
      p
  }

  /** Merging a sequence of partial centre-of-mass accumulators of dimension dim. */
  method ReduceVelocityOfCentreOfMass(accs: seq<VelocityOfCentreOfMass>, dim: nat)
    returns (total: VelocityOfCentreOfMass)
    requires forall k :: 0 <= k < |accs| ==> |accs[k].mv| == dim
    ensures fresh(total)
    ensures total.mv == MomentumSum(accs, dim) && total.m == Total(Masses(accs))
  {
    total := new VelocityOfCentreOfMass(dim);
    var k := 0;
    while k < |accs|
      invariant 0 <= k <= |accs| && fresh(total)
      invariant total.mv == MomentumSum(accs[..k], dim) && total.m == Total(Masses(accs[..k]))
    {
      MergeNext(total, accs, k, dim);
      k := k + 1;
    }
    assert accs[..k] == accs;
  }

  /** The loop body: merging accumulator k into a total that holds the first k. */
  method MergeNext(total: VelocityOfCentreOfMass, accs: seq<VelocityOfCentreOfMass>, k: nat, dim: nat)
    requires k < |accs| && total !in accs
    requires forall j :: 0 <= j < |accs| ==> |accs[j].mv| == dim
    requires total.mv == MomentumSum(accs[..k], dim) && total.m == Total(Masses(accs[..k]))
    modifies total
    ensures total.mv == MomentumSum(accs[..k + 1], dim) && total.m == Total(Masses(accs[..k + 1]))
  {
    CentreOfMassSnoc(accs, k, dim);
    total.Merge(accs[k]);
  }

  /** One more accumulator adds its momentum and its mass. */
  lemma CentreOfMassSnoc(accs: seq<VelocityOfCentreOfMass>, k: nat, dim: nat)
    requires k < |accs| && forall j :: 0 <= j < |accs| ==> |accs[j].mv| == dim
    ensures MomentumSum(accs[..k + 1], dim) == Add(MomentumSum(accs[..k], dim), accs[k].mv)
    ensures Total(Masses(accs[..k + 1])) == Total(Masses(accs[..k])) + accs[k].m
  {
    assert accs[..k + 1][..k] == accs[..k];
    assert Masses(accs[..k + 1])[..k] == Masses(accs[..k]);
  }

  /**
   * The potential energy accumulator.  It has no constructor: a
   * default-initialised accumulator holds an unspecified sum.
   */
  class PotentialEnergy {
    var enPot: real

    method Merge(acc: PotentialEnergy)
      modifies this
      ensures enPot == old(enPot) + old(acc.enPot)
    {
      enPot := enPot + acc.enPot;
    }

    function Result(): real
      reads this
    {
      enPot
    }

    /** Merging a sequence of partial accumulators into this one. */
    method MergeAll(accs: seq<PotentialEnergy>)
      requires this !in accs
      modifies this
      ensures Result() == old(Result()) + Total(PotentialSums(accs))
    {
      var k := 0;
      while k < |accs|
        invariant 0 <= k <= |accs|
        invariant enPot == old(enPot) + Total(PotentialSums(accs[..k]))
      {
        assert PotentialSums(accs[..k + 1])[..k] == PotentialSums(accs[..k]);
        Merge(accs[k]);
        k := k + 1;
      }
      assert accs[..k] == accs;
    }
  }

  function PotentialSums(accs: seq<PotentialEnergy>): (s: seq<real>)
    reads accs
    ensures |s| == |accs|
  {
    seq(|accs|, k requires 0 <= k < |accs| reads accs => accs[k].enPot)
  }

  /**
   * The virial accumulator (the trace of the stress tensor).  It has no
   * constructor either.
   */
  class Virial {
    var virial: real

    method Merge(acc: Virial)
      modifies this
      ensures virial == old(virial) + old(acc.virial)
    {
      virial := virial + acc.virial;
    }

    function Result(): real
      reads this
    {
      virial
    }

    /** Merging a sequence of partial accumulators into this one. */
    method MergeAll(accs: seq<Virial>)
      requires this !in accs
      modifies this
      ensures Result() == old(Result()) + Total(VirialSums(accs))
    {
      var k := 0;
      while k < |accs|
        invariant 0 <= k <= |accs|
        invariant virial == old(virial) + Total(VirialSums(accs[..k]))
      {
        assert VirialSums(accs[..k + 1])[..k] == VirialSums(accs[..k]);
        Merge(accs[k]);
        k := k + 1;
      }
      assert accs[..k] == accs;
    }
  }

  function VirialSums(accs: seq<Virial>): (s: seq<real>)
    reads accs
    ensures |s| == |accs|
  {
    seq(|accs|, k requires 0 <= k < |accs| reads accs => accs[k].virial)
  }
}
