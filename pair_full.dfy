// The modular host force evaluator over all ordered particle pairs.  Every
// ordered pair (i, j) with i != j is visited once: the pair force r·fval is
// added to particle i and subtracted from particle j.  An "auxiliary" pass,
// requested by aux_enable() for the next compute() only, also accumulates the
// potential energy, the potential part of the stress tensor and the
// hypervirial, and averages them per particle.
//
// The potential, the periodic reduction of the box, the stress tensor of a
// pair and the isinf test are parameters of the model.

module PairFull {
  import opened Vectors
  import opened Errors
  import opened HostParticle

  /** What the potential returns for a pair: force over distance, energy and hypervirial. */
  datatype PairValue = PairValue(fval: real, en: real, hvir: real)

  /**
   * The collaborators of the force module: the potential at squared distance
   * rr for species a and b, the box's periodic reduction of a distance vector,
   * and the stress tensor of a pair (nstress components).
   */
  datatype Interaction = Interaction(
    potential: (real, nat, nat) -> PairValue,
    reduce: Vector -> Vector,
    stress: (real, Vector) -> seq<real>,
    dim: nat,
    nstress: nat)

  ghost predicate WellFormed(m: Interaction)
  {
    (m.dim == 2 || m.dim == 3)
    && (forall v :: |m.reduce(v)| == |v|) && (forall rr, v :: |m.stress(rr, v)| == m.nstress)
  }

  /** The running sums of a pass: forces, energy, stress tensor and hypervirial. */
  datatype Acc = Acc(f: seq<Vector>, en: real, stress: seq<real>, hvir: real)

  predicate Shaped(m: Interaction, acc: Acc, n: nat)
  {
    |acc.f| == n && AllDim(acc.f, m.dim) && |acc.stress| == m.nstress
  }

  /** The sums at the start of a pass: zero forces and zero auxiliary sums. */
  function Start(m: Interaction, n: nat): (acc: Acc)
    ensures Shaped(m, acc, n)
  {
    Acc(Zeros(n, m.dim), 0.0, Zero(m.nstress), 0.0)
  }

  /** The minimum-image distance vector of the pair (i, j). */
  function PairDistance(m: Interaction, r: seq<Vector>, i: nat, j: nat): (d: Vector)
    requires WellFormed(m) && AllDim(r, m.dim) && i < |r| && j < |r|
    ensures |d| == m.dim
  {
    m.reduce(Sub(r[i], r[j]))
  }

  /** The force the pair (i, j) exerts on i: the distance vector times fval. */
  function PairForce(m: Interaction, r: seq<Vector>, types: seq<nat>, i: nat, j: nat): (df: Vector)
    requires WellFormed(m) && AllDim(r, m.dim) && |types| == |r| && i < |r| && j < |r|
    ensures |df| == m.dim
  {
    var d := PairDistance(m, r, i, j);
    Scale(d, m.potential(Dot(d, d), types[i], types[j]).fval)
  }

  /** One visit of the ordered pair (i, j); the self pair is skipped. */
  function Visit(m: Interaction, r: seq<Vector>, types: seq<nat>, acc: Acc, i: nat, j: nat): (next: Acc)
    requires WellFormed(m) && AllDim(r, m.dim) && |types| == |r| && i < |r| && j < |r|
    requires Shaped(m, acc, |r|)
    ensures Shaped(m, next, |r|)
  {
    if i == j then acc
    else
      var d := PairDistance(m, r, i, j);
      var rr := Dot(d, d);
      var pv := m.potential(rr, types[i], types[j]);
      var df := Scale(d, pv.fval);
      var f1 := acc.f[i := Add(acc.f[i], df)];
      Acc(f1[j := Sub(f1[j], df)], acc.en + pv.en, Add(acc.stress, Scale(m.stress(rr, d), pv.fval)),
          acc.hvir + pv.hvir / ((m.dim * m.dim) as real))
  }

  /** The sums after visiting (i, 0), ..., (i, j − 1). */
  function Row(m: Interaction, r: seq<Vector>, types: seq<nat>, acc: Acc, i: nat, j: nat): (next: Acc)
    requires WellFormed(m) && AllDim(r, m.dim) && |types| == |r| && i < |r| && j <= |r|
    requires Shaped(m, acc, |r|)
    ensures Shaped(m, next, |r|)
  {
    if j == 0 then acc else Visit(m, r, types, Row(m, r, types, acc, i, j - 1), i, j - 1)
  }

  /** The sums after the rows 0, ..., i − 1: every ordered pair in lexicographic order. */
  function Rows(m: Interaction, r: seq<Vector>, types: seq<nat>, acc: Acc, i: nat): (next: Acc)
    requires WellFormed(m) && AllDim(r, m.dim) && |types| == |r| && i <= |r|
    requires Shaped(m, acc, |r|)
    ensures Shaped(m, next, |r|)
  {
    if i == 0 then acc else Row(m, r, types, Rows(m, r, types, acc, i - 1), i - 1, |r|)
  }

  /** The sums of a whole pass over every ordered pair. */
  function PassSums(m: Interaction, r: seq<Vector>, types: seq<nat>): (acc: Acc)
    requires WellFormed(m) && AllDim(r, m.dim) && |types| == |r|
    ensures Shaped(m, acc, |r|)
  {
    Rows(m, r, types, Start(m, |r|), |r|)
  }

  // ---------------------------------------------------------------------------
  // Newton's third law: the forces of a pass add up to zero

  lemma VisitKeepsTotalForce(m: Interaction, r: seq<Vector>, types: seq<nat>, acc: Acc, i: nat, j: nat, c: nat)
    requires WellFormed(m) && AllDim(r, m.dim) && |types| == |r| && i < |r| && j < |r|
    requires Shaped(m, acc, |r|) && c < m.dim
    ensures SumComp(Visit(m, r, types, acc, i, j).f, c) == SumComp(acc.f, c)
  {
    if i != j {
      var df := PairForce(m, r, types, i, j);
      var f1 := acc.f[i := Add(acc.f[i], df)];
      SumCompUpdate(acc.f, i, Add(acc.f[i], df), c);
      SumCompUpdate(f1, j, Sub(f1[j], df), c);
    }
  }

  lemma {:induction false} RowKeepsTotalForce(m: Interaction, r: seq<Vector>, types: seq<nat>, acc: Acc, i: nat, j: nat, c: nat)
    requires WellFormed(m) && AllDim(r, m.dim) && |types| == |r| && i < |r| && j <= |r|
    requires Shaped(m, acc, |r|) && c < m.dim
    ensures SumComp(Row(m, r, types, acc, i, j).f, c) == SumComp(acc.f, c)
  {
    if j > 0 {
      RowKeepsTotalForce(m, r, types, acc, i, j - 1, c);
      LastVisitKeepsTotalForce(m, r, types, acc, i, j, c);
    }
  }

  lemma LastVisitKeepsTotalForce(m: Interaction, r: seq<Vector>, types: seq<nat>, acc: Acc, i: nat, j: nat, c: nat)
    requires WellFormed(m) && AllDim(r, m.dim) && |types| == |r| && i < |r| && 0 < j <= |r|
    requires Shaped(m, acc, |r|) && c < m.dim
    ensures SumComp(Row(m, r, types, acc, i, j).f, c) == SumComp(Row(m, r, types, acc, i, j - 1).f, c)
  {
    var prev := Row(m, r, types, acc, i, j - 1);
    RowStep(m, r, types, acc, i, j);
    VisitKeepsTotalForce(m, r, types, prev, i, j - 1, c);
  }

  /** A row of j visits is the row of j − 1 visits followed by the visit of j − 1. */
  lemma RowStep(m: Interaction, r: seq<Vector>, types: seq<nat>, acc: Acc, i: nat, j: nat)
    requires WellFormed(m) && AllDim(r, m.dim) && |types| == |r| && i < |r| && 0 < j <= |r|
    requires Shaped(m, acc, |r|)
    ensures Row(m, r, types, acc, i, j) == Visit(m, r, types, Row(m, r, types, acc, i, j - 1), i, j - 1)
  {
  }

  lemma {:induction false} RowsKeepTotalForce(m: Interaction, r: seq<Vector>, types: seq<nat>, acc: Acc, i: nat, c: nat)
    requires WellFormed(m) && AllDim(r, m.dim) && |types| == |r| && i <= |r|
    requires Shaped(m, acc, |r|) && c < m.dim
    ensures SumComp(Rows(m, r, types, acc, i).f, c) == SumComp(acc.f, c)
  {
    if i > 0 {
      RowsKeepTotalForce(m, r, types, acc, i - 1, c);
      LastRowKeepsTotalForce(m, r, types, acc, i, c);
    }
  }

  lemma LastRowKeepsTotalForce(m: Interaction, r: seq<Vector>, types: seq<nat>, acc: Acc, i: nat, c: nat)
    requires WellFormed(m) && AllDim(r, m.dim) && |types| == |r| && 0 < i <= |r|
    requires Shaped(m, acc, |r|) && c < m.dim
    ensures SumComp(Rows(m, r, types, acc, i).f, c) == SumComp(Rows(m, r, types, acc, i - 1).f, c)
  {
    var prev := Rows(m, r, types, acc, i - 1);
    RowKeepsTotalForce(m, r, types, prev, i - 1, |r|, c);
  }

  /** Every component of the total force of a pass is zero. */
  lemma TotalForceVanishes(m: Interaction, r: seq<Vector>, types: seq<nat>, c: nat)
    requires WellFormed(m) && AllDim(r, m.dim) && |types| == |r| && c < m.dim
    ensures SumComp(PassSums(m, r, types).f, c) == 0.0
  {
    RowsKeepTotalForce(m, r, types, Start(m, |r|), |r|, c);
    SumCompZeros(|r|, m.dim, c);
  }

  /**
   * With two particles, the pair forces add up on each particle: particle 0
   * receives the force of the pair (0, 1) and minus that of (1, 0).  For a
   * reduction that is odd and a potential symmetric in the species, both are
   * the same force, so the pair contributes twice.
   */
  lemma TwoParticlesEachPairTwice(m: Interaction, r: seq<Vector>, types: seq<nat>)
    requires WellFormed(m) && AllDim(r, m.dim) && |types| == |r| == 2
    ensures PassSums(m, r, types).f[0]
            == Sub(Add(Zero(m.dim), PairForce(m, r, types, 0, 1)), PairForce(m, r, types, 1, 0))
    ensures PassSums(m, r, types).f[1]
            == Add(Sub(Zero(m.dim), PairForce(m, r, types, 0, 1)), PairForce(m, r, types, 1, 0))
  {
    var s := Start(m, 2);
    var a := Visit(m, r, types, s, 0, 1);
    assert Row(m, r, types, s, 0, 1) == s by {
      assert Row(m, r, types, s, 0, 0) == s;
    }
    assert Rows(m, r, types, s, 1) == a by {
      assert Rows(m, r, types, s, 0) == s;
    }
    var b := Visit(m, r, types, a, 1, 0);
    assert Row(m, r, types, a, 1, 1) == b by {
      assert Row(m, r, types, a, 1, 0) == a;
    }
    assert Row(m, r, types, a, 1, 2) == b;
    assert PassSums(m, r, types) == b;
  }

  // ---------------------------------------------------------------------------
  // The auxiliary-variable state machine

  /** aux_flag_ (requested for the next compute) and aux_valid_ (set by the last compute). */
  datatype AuxState = AuxState(flag: bool, valid: bool)

  function Enable(s: AuxState): (t: AuxState)
    ensures t.flag && t.valid == s.valid
  {
    s.(flag := true)
  }

  /**
   * compute(): the last pass's validity is the request; a completed aux pass
   * consumes the request, a diverged one throws before doing so.
   */
  function AfterCompute(s: AuxState, diverged: bool): (t: AuxState)
    ensures t.valid == s.flag
    ensures t.flag <==> s.flag && diverged
  {
    if !s.flag then AuxState(false, false)
    else if diverged then AuxState(true, true)
    else AuxState(false, true)
  }

  /** aux_enable() is one-shot: a second compute() after it leaves the variables invalid. */
  lemma AuxIsOneShot(s: AuxState)
    ensures AfterCompute(Enable(s), false).valid
    ensures !AfterCompute(AfterCompute(Enable(s), false), false).valid
    ensures !AfterCompute(AfterCompute(Enable(s), false), true).valid
  {
  }

  /** Without aux_enable() no compute() makes the auxiliary variables valid. */
  lemma NoEnableNoAux(s: AuxState, diverged: bool)
    requires !s.flag
    ensures AfterCompute(s, diverged) == AuxState(false, false)
  {
  }

  const AUX_NOT_ENABLED := "Auxiliary variables were not enabled in force module."
  const DIVERGED := "Potential energy diverged"

  /** The mean of a sum over n particles. */
  function PerParticle(x: real, n: nat): real
    requires n > 0
  {
    x / (n as real)
  }

  function PerParticleTensor(s: seq<real>, n: nat): (t: seq<real>)
    requires n > 0
    ensures |t| == |s| && forall k :: 0 <= k < |s| ==> t[k] == PerParticle(s[k], n)
  {
    seq(|s|, k requires 0 <= k < |s| => PerParticle(s[k], n))
  }

  /**
   * The nested i/j loop of compute_impl_: forces always, the auxiliary sums
   * only in an aux pass.  Forces start at zero.
   */
  method PairLoop(m: Interaction, r: seq<Vector>, types: seq<nat>, doAux: bool) returns (acc: Acc)
    requires WellFormed(m) && AllDim(r, m.dim) && |types| == |r|
    ensures acc.f == PassSums(m, r, types).f
    ensures doAux ==> acc == PassSums(m, r, types)
  {
    var n := |r|;
    acc := Start(m, n);
    ghost var spec := Start(m, n);
    var i := 0;
    while i < n
      invariant 0 <= i <= n && spec == Rows(m, r, types, Start(m, n), i)
      invariant acc.f == spec.f && (doAux ==> acc == spec) && Shaped(m, acc, n)
    {
      acc := PairRow(m, r, types, acc, i, doAux, spec);
      spec := Row(m, r, types, spec, i, n);
      i := i + 1;
    }
  }

  /** The inner loop: the pairs (i, 0), ..., (i, n − 1). */
  method PairRow(m: Interaction, r: seq<Vector>, types: seq<nat>, acc: Acc, i: nat, doAux: bool,
                 ghost spec: Acc)
    returns (next: Acc)
    requires WellFormed(m) && AllDim(r, m.dim) && |types| == |r| && i < |r|
    requires Shaped(m, acc, |r|) && Shaped(m, spec, |r|) && acc.f == spec.f && (doAux ==> acc == spec)
    ensures next.f == Row(m, r, types, spec, i, |r|).f && Shaped(m, next, |r|)
    ensures doAux ==> next == Row(m, r, types, spec, i, |r|)
  {
    next := acc;
    var j := 0;
    ghost var cur := spec;
    while j < |r|
      invariant 0 <= j <= |r| && cur == Row(m, r, types, spec, i, j)
      invariant next.f == cur.f && (doAux ==> next == cur) && Shaped(m, next, |r|)
    {
      next := VisitPair(m, r, types, next, i, j, doAux, cur);
      cur := Visit(m, r, types, cur, i, j);
      j := j + 1;
    }
  }

  /** The body of the inner loop for one pair (i, j). */
  method VisitPair(m: Interaction, r: seq<Vector>, types: seq<nat>, acc: Acc, i: nat, j: nat, doAux: bool,
                   ghost spec: Acc)
    returns (next: Acc)
    requires WellFormed(m) && AllDim(r, m.dim) && |types| == |r| && i < |r| && j < |r|
    requires Shaped(m, acc, |r|) && Shaped(m, spec, |r|) && acc.f == spec.f && (doAux ==> acc == spec)
    ensures next.f == Visit(m, r, types, spec, i, j).f && Shaped(m, next, |r|)
    ensures doAux ==> next == Visit(m, r, types, spec, i, j)
  {
    next := acc;
    if i == j {
      return;
    }
    var d := m.reduce(Sub(r[i], r[j]));
    var a, b := types[i], types[j];
    var rr := Dot(d, d);
    var pv := m.potential(rr, a, b);
    var df := Scale(d, pv.fval);
    var f := next.f;
    f := f[i := Add(f[i], df)];
    f := f[j := Sub(f[j], df)];
    next := next.(f := f);
    if doAux {
      next := next.(en := next.en + pv.en);
      next := next.(stress := Add(next.stress, Scale(m.stress(rr, d), pv.fval)));
      next := next.(hvir := next.hvir + pv.hvir / ((m.dim * m.dim) as real));
    }
  }

  /** The force module over a host particle instance. */
  class ForcePairFull {
    const particle: Particle
    const interaction: Interaction
    var auxFlag: bool
    var auxValid: bool
    var enPot: real                 // mean potential energy per particle
    var stressPot: seq<real>        // potential part of the stress tensor
    var hypervirial: real

    /** Auxiliary variables are neither requested nor valid; the sums are not initialised. */
    constructor (interaction: Interaction, particle: Particle)
      ensures this.interaction == interaction && this.particle == particle
      ensures !auxFlag && !auxValid
    {
      this.interaction := interaction;
      this.particle := particle;
      auxFlag := false;
      auxValid := false;
    }

    function Aux(): AuxState
      reads this
    {
      AuxState(auxFlag, auxValid)
    }

    /** Requests the auxiliary variables for the next compute() only. */
    method AuxEnable()
      modifies this`auxFlag
      ensures Aux() == Enable(old(Aux()))
    {
      auxFlag := true;
    }

    /** The mean potential energy, readable only after an aux pass. */
    function PotentialEnergy(): (r: Result<real>)
      reads this
      ensures r.Ok? <==> auxValid
      ensures r.Ok? ==> r.value == enPot
      ensures r.Err? ==> r.error == LogicError(AUX_NOT_ENABLED)
    {
      if !auxValid then Err(LogicError(AUX_NOT_ENABLED)) else Ok(enPot)
    }

    /** The potential part of the stress tensor, readable only after an aux pass. */
    function StressTensorPot(): (r: Result<seq<real>>)
      reads this
      ensures r.Ok? <==> auxValid
      ensures r.Ok? ==> r.value == stressPot
      ensures r.Err? ==> r.error == LogicError(AUX_NOT_ENABLED)
    {
      if !auxValid then Err(LogicError(AUX_NOT_ENABLED)) else Ok(stressPot)
    }

    /** The hypervirial, readable only after an aux pass. */
    function Hypervirial(): (r: Result<real>)
      reads this
      ensures r.Ok? <==> auxValid
      ensures r.Ok? ==> r.value == hypervirial
      ensures r.Err? ==> r.error == LogicError(AUX_NOT_ENABLED)
    {
      if !auxValid then Err(LogicError(AUX_NOT_ENABLED)) else Ok(hypervirial)
    }

    /**
     * compute(): a pass over every ordered pair, replacing all forces.  An aux
     * pass replaces the three auxiliary values by their per-particle means and
     * fails with a divergence error when the mean energy is infinite.
     */
    method Compute(isInf: real -> bool) returns (o: Outcome)
      requires particle.Valid() && WellFormed(interaction) && interaction.dim == particle.dim
      requires auxFlag ==> particle.nbox > 0
      modifies this`auxFlag, this`auxValid, this`enPot, this`stressPot, this`hypervirial, particle`f
      ensures particle.Valid()
      ensures particle.f == PassSums(interaction, particle.r, particle.types).f
      ensures Aux() == AfterCompute(old(Aux()), o.Fail?)
      ensures !old(auxFlag) ==> o == Pass && enPot == old(enPot) && stressPot == old(stressPot)
                                && hypervirial == old(hypervirial)
      ensures old(auxFlag) ==> (
                var s := PassSums(interaction, particle.r, particle.types);
                enPot == PerParticle(s.en, particle.nbox)
                && stressPot == PerParticleTensor(s.stress, particle.nbox)
                && hypervirial == PerParticle(s.hvir, particle.nbox))
      ensures o.Fail? <==> old(auxFlag) && isInf(enPot)
      ensures o.Fail? ==> o.error == RuntimeError(DIVERGED)
    {
      auxValid := auxFlag;
      var doAux := auxFlag;
      var acc := PairLoop(interaction, particle.r, particle.types, doAux);
      particle.f := acc.f;
      o := Pass;
      if doAux {
        enPot := PerParticle(acc.en, particle.nbox);
        stressPot := PerParticleTensor(acc.stress, particle.nbox);
        hypervirial := PerParticle(acc.hvir, particle.nbox);
        if isInf(enPot) {
          return Fail(RuntimeError(DIVERGED));
        }
        auxFlag := false;
      }
    }
  }
}
