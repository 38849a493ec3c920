// Parameter set-up of the pair potentials: species matrices of the
// interaction parameters, the cutoff matrices derived from them
// elementwise, the energy at the cutoff of every species pair, the
// exponent validation of the modified Lennard-Jones potential, and the
// flat per-pair records the GPU potential hands to its kernel.

module SpeciesMatrix {
  /** An ntype1 x ntype2 matrix, stored as rows. */
  predicate Shaped<T>(m: seq<seq<T>>, n1: nat, n2: nat)
  {
    |m| == n1 && forall i :: 0 <= i < n1 ==> |m[i]| == n2
  }

  /** The elementwise product a ∘ b (element_prod). */
  function ElementProd(a: seq<seq<real>>, b: seq<seq<real>>, n1: nat, n2: nat): (c: seq<seq<real>>)
    requires Shaped(a, n1, n2) && Shaped(b, n1, n2)
    ensures Shaped(c, n1, n2)
    ensures forall i, j :: 0 <= i < n1 && 0 <= j < n2 ==> c[i][j] == a[i][j] * b[i][j]
  {
    seq(n1, i requires 0 <= i < n1 => seq(n2, j requires 0 <= j < n2 => a[i][j] * b[i][j]))
  }

  /** Every entry halved with unsigned division. */
  function Halved(m: seq<seq<nat>>, n1: nat, n2: nat): (h: seq<seq<nat>>)
    requires Shaped(m, n1, n2)
    ensures Shaped(h, n1, n2)
  {
    seq(n1, i requires 0 <= i < n1 => seq(n2, j requires 0 <= j < n2 => m[i][j] / 2))
  }

  /** The row-major storage of an n1 x n2 matrix, its rows one after another (data()). */
  function Storage<T>(m: seq<seq<T>>, n1: nat, n2: nat): (s: seq<T>)
    requires Shaped(m, n1, n2)
    ensures |s| == n1 * n2
  {
    if n1 == 0 then [] else Storage(m[..n1 - 1], n1 - 1, n2) + m[n1 - 1]
  }

  lemma MulMonoNat(a: nat, b: nat, c: nat)
    requires a <= b
    ensures a * c <= b * c
  {
  }

  /** Entry (i, j) sits at index i * n2 + j of the storage. */
  lemma {:induction false} StorageAt<T>(m: seq<seq<T>>, n1: nat, n2: nat, i: nat, j: nat)
    requires Shaped(m, n1, n2) && i < n1 && j < n2
    ensures i * n2 + j < n1 * n2
    ensures Storage(m, n1, n2)[i * n2 + j] == m[i][j]
  {
    if i < n1 - 1 {
      StorageAt(m[..n1 - 1], n1 - 1, n2, i, j);
    } else {
      assert i * n2 + j == (n1 - 1) * n2 + j;
    }
    MulMonoNat(i + 1, n1, n2);
  }

  /** x to the power n, by repeated multiplication (std::pow with an integer exponent). */
  function Pow(x: real, n: nat): real
  {
    if n == 0 then 1.0 else x * Pow(x, n - 1)
  }

  /**
   * Evaluates `energy` at every cutoff (the en_cut_ double loop): entry
   * (i, j) of the result is the energy of species pair (i, j) at its
   * squared cutoff rrCut(i, j).
   */
  method CutoffEnergies(rrCut: seq<seq<real>>, n1: nat, n2: nat, energy: (real, nat, nat) --> real)
    returns (en: seq<seq<real>>)
    requires Shaped(rrCut, n1, n2)
    requires forall i, j :: 0 <= i < n1 && 0 <= j < n2 ==> energy.requires(rrCut[i][j], i, j)
    ensures Shaped(en, n1, n2)
    ensures forall i, j :: 0 <= i < n1 && 0 <= j < n2 ==> en[i][j] == energy(rrCut[i][j], i, j)
  {
    en := [];
    var i := 0;
    while i < n1
      invariant 0 <= i <= n1 && Shaped(en, i, n2)
      invariant forall i', j :: 0 <= i' < i && 0 <= j < n2 ==> en[i'][j] == energy(rrCut[i'][j], i', j)
    {
      var row := [];
      var j := 0;
      while j < n2
        invariant 0 <= j <= n2 && |row| == j
        invariant forall j' :: 0 <= j' < j ==> row[j'] == energy(rrCut[i][j'], i, j')
      {
        row := row + [energy(rrCut[i][j], i, j)];
        j := j + 1;
      }
      en := en + [row];
      i := i + 1;
    }
  }
}

module ModifiedLennardJones {
  import opened Errors
  import opened SpeciesMatrix

  const EvenMessage := "power law indices of potential must be even"
  const StrongerMessage := "repulsive part of potential must be stronger than attraction"

  /**
   * The modified Lennard-Jones energy 4ε((σ²/rr)^(m/2) − (σ²/rr)^(n/2)) at
   * squared distance rr, written with the halved exponents m2, n2.
   */
  function Energy(epsilon: real, sigma2: real, m2: nat, n2: nat, rr: real): real
    requires rr != 0.0
  {
    var q := sigma2 / rr;
    4.0 * epsilon * (Pow(q, m2) - Pow(q, n2))
  }

  /** The force over distance, 4ε(m (σ²/rr)^(m/2) − n (σ²/rr)^(n/2)) / rr. */
  function ForceOverDistance(epsilon: real, sigma2: real, m: nat, n: nat, rr: real): real
    requires rr != 0.0
  {
    var q := sigma2 / rr;
    4.0 * epsilon * ((m as real) * Pow(q, m / 2) - (n as real) * Pow(q, n / 2)) / rr
  }

  /** The check of one entry of the exponent matrices: both even, repulsion stronger. */
  function EntryCheck(m: nat, n: nat): (o: Outcome)
    ensures o == Pass <==> m % 2 == 0 && n % 2 == 0 && m > n
    ensures o == Pass || o == Fail(LogicError(EvenMessage)) || o == Fail(LogicError(StrongerMessage))
  {
    if m % 2 == 1 || n % 2 == 1 then Fail(LogicError(EvenMessage))
    else if m <= n then Fail(LogicError(StrongerMessage))
    else Pass
  }

  /** Entry (i', j') comes before entry (i, j) in the row-by-row scan. */
  predicate Before(i': nat, j': nat, i: nat, j: nat)
  {
    i' < i || (i' == i && j' < j)
  }

  /**
   * The validation loop: the outcome is the check of the first failing
   * entry in row-by-row order, or Pass when every entry passes.
   */
  method CheckIndices(indexM: seq<seq<nat>>, indexN: seq<seq<nat>>, n1: nat, n2: nat) returns (o: Outcome)
    requires Shaped(indexM, n1, n2) && Shaped(indexN, n1, n2)
    ensures o == Pass <==> forall i, j :: 0 <= i < n1 && 0 <= j < n2 ==> EntryCheck(indexM[i][j], indexN[i][j]) == Pass
    ensures o != Pass ==> exists i, j :: (0 <= i < n1 && 0 <= j < n2 && o == EntryCheck(indexM[i][j], indexN[i][j])
              && forall i', j' :: 0 <= i' < n1 && 0 <= j' < n2 && Before(i', j', i, j) ==> EntryCheck(indexM[i'][j'], indexN[i'][j']) == Pass)
  {
    var i := 0;
    while i < n1
      invariant 0 <= i <= n1
      invariant forall i', j' :: 0 <= i' < i && 0 <= j' < n2 ==> EntryCheck(indexM[i'][j'], indexN[i'][j']) == Pass
    {
      var j := 0;
      while j < n2
        invariant 0 <= j <= n2
        invariant forall i', j' :: 0 <= i' < n1 && 0 <= j' < n2 && Before(i', j', i, j) ==> EntryCheck(indexM[i'][j'], indexN[i'][j']) == Pass
      {
        if indexM[i][j] % 2 == 1 || indexN[i][j] % 2 == 1 {
          return Fail(LogicError(EvenMessage));
        }
        if indexM[i][j] <= indexN[i][j] {
          return Fail(LogicError(StrongerMessage));
        }
        j := j + 1;
      }
      i := i + 1;
    }
    return Pass;
  }

  /** A product of nonzero reals is nonzero. */
  lemma ProductNonzero(a: real, b: real, c: real)
    requires a != 0.0 && b != 0.0 && c == a * b
    ensures c != 0.0
  {
  }

  /** Nonzero σ and r_c/σ give nonzero squared cutoffs. */
  lemma CutoffNonzero(sigma: seq<seq<real>>, rCutSigma: seq<seq<real>>, n1: nat, n2: nat)
    requires Shaped(sigma, n1, n2) && Shaped(rCutSigma, n1, n2)
    requires forall i, j :: 0 <= i < n1 && 0 <= j < n2 ==> sigma[i][j] != 0.0 && rCutSigma[i][j] != 0.0
    ensures var rCut := ElementProd(sigma, rCutSigma, n1, n2);
            forall i, j :: 0 <= i < n1 && 0 <= j < n2 ==> ElementProd(rCut, rCut, n1, n2)[i][j] != 0.0
  {
    var rCut := ElementProd(sigma, rCutSigma, n1, n2);
    forall i, j | 0 <= i < n1 && 0 <= j < n2
      ensures ElementProd(rCut, rCut, n1, n2)[i][j] != 0.0
    {
      var rr := ElementProd(rCut, rCut, n1, n2);
      ProductNonzero(sigma[i][j], rCutSigma[i][j], rCut[i][j]);
      ProductNonzero(rCut[i][j], rCut[i][j], rr[i][j]);
    }
  }

  /** The parameters of a modified Lennard-Jones pair potential and what is derived from them. */
  class ModifiedLennardJones {
    const ntype1: nat
    const ntype2: nat
    const epsilon: seq<seq<real>>
    const sigma: seq<seq<real>>
    const indexM: seq<seq<nat>>
    const indexM2: seq<seq<nat>>
    const indexN: seq<seq<nat>>
    const indexN2: seq<seq<nat>>
    const rCutSigma: seq<seq<real>>
    const rCut: seq<seq<real>>
    const rrCut: seq<seq<real>>
    const sigma2: seq<seq<real>>
    const enCut: seq<seq<real>>

    /** The unshifted energy of species pair (i, j) at squared distance rr. */
    function PairEnergy(rr: real, i: nat, j: nat): real
      requires i < ntype1 && j < ntype2 && rr != 0.0
      requires Shaped(epsilon, ntype1, ntype2) && Shaped(sigma2, ntype1, ntype2)
      requires Shaped(indexM2, ntype1, ntype2) && Shaped(indexN2, ntype1, ntype2)
    {
      Energy(epsilon[i][j], sigma2[i][j], indexM2[i][j], indexN2[i][j], rr)
    }

    ghost predicate Valid()
    {
      Shaped(epsilon, ntype1, ntype2) && Shaped(sigma, ntype1, ntype2)
      && Shaped(indexM, ntype1, ntype2) && Shaped(indexN, ntype1, ntype2)
      && Shaped(rCutSigma, ntype1, ntype2)
      && indexM2 == Halved(indexM, ntype1, ntype2) && indexN2 == Halved(indexN, ntype1, ntype2)
      && rCut == ElementProd(sigma, rCutSigma, ntype1, ntype2)
      && rrCut == ElementProd(rCut, rCut, ntype1, ntype2)
      && sigma2 == ElementProd(sigma, sigma, ntype1, ntype2)
      && Shaped(enCut, ntype1, ntype2)
      && (forall i, j :: 0 <= i < ntype1 && 0 <= j < ntype2 ==> rrCut[i][j] != 0.0)
      && (forall i, j :: 0 <= i < ntype1 && 0 <= j < ntype2 ==> enCut[i][j] == PairEnergy(rrCut[i][j], i, j))
    }

    /**
     * The initialisers and the energy-shift loop; the exponent validation
     * that follows is NewModifiedLennardJones.
     */
    constructor (ntype1: nat, ntype2: nat, cutoff: seq<seq<real>>, epsilon: seq<seq<real>>,
                 sigma: seq<seq<real>>, indexM: seq<seq<nat>>, indexN: seq<seq<nat>>)
      requires Shaped(cutoff, ntype1, ntype2) && Shaped(epsilon, ntype1, ntype2) && Shaped(sigma, ntype1, ntype2)
      requires Shaped(indexM, ntype1, ntype2) && Shaped(indexN, ntype1, ntype2)
      requires forall i, j :: 0 <= i < ntype1 && 0 <= j < ntype2 ==> sigma[i][j] != 0.0 && cutoff[i][j] != 0.0
      ensures Valid()
      ensures this.ntype1 == ntype1 && this.ntype2 == ntype2
      ensures this.epsilon == epsilon && this.sigma == sigma && this.rCutSigma == cutoff
      ensures this.indexM == indexM && this.indexN == indexN
    {
      var m2 := Halved(indexM, ntype1, ntype2);
      var n2 := Halved(indexN, ntype1, ntype2);
      var rc := ElementProd(sigma, cutoff, ntype1, ntype2);
      var rrc := ElementProd(rc, rc, ntype1, ntype2);
      var s2 := ElementProd(sigma, sigma, ntype1, ntype2);
      CutoffNonzero(sigma, cutoff, ntype1, ntype2);
      var en := CutoffEnergies(rrc, ntype1, ntype2,
        (rr: real, i: nat, j: nat) requires i < ntype1 && j < ntype2 && rr != 0.0
                   requires Shaped(epsilon, ntype1, ntype2) && Shaped(s2, ntype1, ntype2)
                   requires Shaped(m2, ntype1, ntype2) && Shaped(n2, ntype1, ntype2)
                   => Energy(epsilon[i][j], s2[i][j], m2[i][j], n2[i][j], rr));
      this.ntype1 := ntype1;
      this.ntype2 := ntype2;
      this.epsilon := epsilon;
      this.sigma := sigma;
      this.indexM := indexM;
      this.indexM2 := m2;
      this.indexN := indexN;
      this.indexN2 := n2;
      this.rCutSigma := cutoff;
      this.rCut := rc;
      this.rrCut := rrc;
      this.sigma2 := s2;
      this.enCut := en;
    }

    /** The energy shifted by its value at the cutoff, as the shifted truncation evaluates it. */
    function ShiftedEnergy(rr: real, i: nat, j: nat): real
      requires Valid() && i < ntype1 && j < ntype2 && rr != 0.0
    {
      PairEnergy(rr, i, j) - enCut[i][j]
    }

    /** The shifted energy vanishes at every cutoff. */
    lemma ShiftedEnergyVanishesAtCutoff(i: nat, j: nat)
      requires Valid() && i < ntype1 && j < ntype2
      ensures ShiftedEnergy(rrCut[i][j], i, j) == 0.0
    {
    }
  }

  /**
   * The constructor with its validation: an object is produced only if
   * every exponent is even and m exceeds n for every species pair;
   * otherwise the logic error of the first failing entry is thrown.
   */
  method NewModifiedLennardJones(ntype1: nat, ntype2: nat, cutoff: seq<seq<real>>, epsilon: seq<seq<real>>,
                                 sigma: seq<seq<real>>, indexM: seq<seq<nat>>, indexN: seq<seq<nat>>)
    returns (res: Result<ModifiedLennardJones>)
    requires Shaped(cutoff, ntype1, ntype2) && Shaped(epsilon, ntype1, ntype2) && Shaped(sigma, ntype1, ntype2)
    requires Shaped(indexM, ntype1, ntype2) && Shaped(indexN, ntype1, ntype2)
    requires forall i, j :: 0 <= i < ntype1 && 0 <= j < ntype2 ==> sigma[i][j] != 0.0 && cutoff[i][j] != 0.0
    ensures res.Ok? <==> forall i, j :: 0 <= i < ntype1 && 0 <= j < ntype2 ==>
              (indexM[i][j] % 2 == 0 && indexN[i][j] % 2 == 0 && indexM[i][j] > indexN[i][j])
    ensures res.Err? ==> res.error == LogicError(EvenMessage) || res.error == LogicError(StrongerMessage)
    ensures res.Ok? ==> (res.value.Valid() && res.value.epsilon == epsilon && res.value.sigma == sigma
              && res.value.indexM == indexM && res.value.indexN == indexN && res.value.rCutSigma == cutoff)
  {
    var p := new ModifiedLennardJones(ntype1, ntype2, cutoff, epsilon, sigma, indexM, indexN);
    var o := CheckIndices(indexM, indexN, ntype1, ntype2);
    if o == Pass {
      return Ok(p);
    }
    var i, j :| 0 <= i < ntype1 && 0 <= j < ntype2 && o == EntryCheck(indexM[i][j], indexN[i][j]);
    return Err(o.error);
  }

  /**
   * The reference values for ε = 1, σ = 1, m = 12, n = 4 and r_c = 5σ:
   * at r = 1 the force over distance is 32 and the shifted energy
   * 0.006399983616; at r = 2 they are −0.2470703125 and −0.242623453884.
   */
  lemma ReferenceValues()
    ensures ForceOverDistance(1.0, 1.0, 12, 4, 1.0) == 32.0
    ensures Energy(1.0, 1.0, 6, 2, 1.0) - Energy(1.0, 1.0, 6, 2, 25.0) == 0.006399983616
    ensures ForceOverDistance(1.0, 1.0, 12, 4, 4.0) == -0.2470703125
    ensures Energy(1.0, 1.0, 6, 2, 4.0) - Energy(1.0, 1.0, 6, 2, 25.0) == -0.242623453884
  {
    assert Pow(1.0 / 25.0, 6) == 1.0 / 244140625.0;
    assert Pow(1.0 / 25.0, 2) == 1.0 / 625.0;
    assert Pow(1.0 / 4.0, 6) == 1.0 / 4096.0;
    assert Pow(1.0 / 4.0, 2) == 1.0 / 16.0;
  }
}

module PowerLawWithCore {
  import opened SpeciesMatrix

  /**
   * The host power law with core: the derived matrices and the energy at
   * every cutoff.  The potential's energy function is a parameter.
   */
  class HostPowerLawWithCore {
    const ntype1: nat
    const ntype2: nat
    const epsilon: seq<seq<real>>
    const sigma: seq<seq<real>>
    const index: seq<seq<nat>>
    const sigma2: seq<seq<real>>
    const rCutSigma: seq<seq<real>>
    const rCut: seq<seq<real>>
    const rrCut: seq<seq<real>>
    const rCoreSigma: seq<seq<real>>
    const enCut: seq<seq<real>>

    /** There is no validation: every shaped input gives an object. */
    constructor (ntype1: nat, ntype2: nat, cutoff: seq<seq<real>>, core: seq<seq<real>>,
                 epsilon: seq<seq<real>>, sigma: seq<seq<real>>, index: seq<seq<nat>>,
                 energy: (real, nat, nat) -> real)
      requires Shaped(cutoff, ntype1, ntype2) && Shaped(core, ntype1, ntype2)
      requires Shaped(epsilon, ntype1, ntype2) && Shaped(sigma, ntype1, ntype2) && Shaped(index, ntype1, ntype2)
      ensures this.ntype1 == ntype1 && this.ntype2 == ntype2
      ensures this.epsilon == epsilon && this.sigma == sigma && this.index == index
      ensures this.rCutSigma == cutoff && this.rCoreSigma == core
      ensures sigma2 == ElementProd(sigma, sigma, ntype1, ntype2)
      ensures rCut == ElementProd(sigma, cutoff, ntype1, ntype2)
      ensures rrCut == ElementProd(rCut, rCut, ntype1, ntype2)
      ensures Shaped(enCut, ntype1, ntype2)
      ensures forall i, j :: 0 <= i < ntype1 && 0 <= j < ntype2 ==> enCut[i][j] == energy(rrCut[i][j], i, j)
    {
      var rc := ElementProd(sigma, cutoff, ntype1, ntype2);
      var rrc := ElementProd(rc, rc, ntype1, ntype2);
      var en := CutoffEnergies(rrc, ntype1, ntype2, energy);
      this.ntype1 := ntype1;
      this.ntype2 := ntype2;
      this.epsilon := epsilon;
      this.sigma := sigma;
      this.index := index;
      this.sigma2 := ElementProd(sigma, sigma, ntype1, ntype2);
      this.rCutSigma := cutoff;
      this.rCut := rc;
      this.rrCut := rrc;
      this.rCoreSigma := core;
      this.enCut := en;
    }
  }

  /** The energy at the cutoff of the GPU power law with core, ε (1 / (r_c/σ))^n. */
  function GpuCutoffEnergy(epsilon: real, rCutSigma: real, index: nat): real
    requires rCutSigma != 0.0
  {
    epsilon * Pow(1.0 / rCutSigma, index)
  }

  /** The per-pair record of the kernel's parameter array, one slot per name. */
  datatype PairParam = PairParam(epsilon: real, sigma2: real, coreSigma: real, index: real)

  /** The per-pair cutoff record: squared cutoff and energy at the cutoff. */
  datatype CutoffRecord = CutoffRecord(rrCut: real, enCut: real)

  /** The GPU power law with core: derived matrices, cutoff energies and the two packed arrays. */
  class GpuPowerLawWithCore {
    const ntype1: nat
    const ntype2: nat
    const epsilon: seq<seq<real>>
    const sigma: seq<seq<real>>
    const index: seq<seq<nat>>
    const rCutSigma: seq<seq<real>>
    const rCut: seq<seq<real>>
    const rrCut: seq<seq<real>>
    const rCoreSigma: seq<seq<real>>
    const sigma2: seq<seq<real>>
    const enCut: seq<seq<real>>
    const param: seq<PairParam>
    const rrEnCut: seq<CutoffRecord>

    constructor (ntype1: nat, ntype2: nat, cutoff: seq<seq<real>>, core: seq<seq<real>>,
                 epsilon: seq<seq<real>>, sigma: seq<seq<real>>, index: seq<seq<nat>>)
      requires Shaped(cutoff, ntype1, ntype2) && Shaped(core, ntype1, ntype2)
      requires Shaped(epsilon, ntype1, ntype2) && Shaped(sigma, ntype1, ntype2) && Shaped(index, ntype1, ntype2)
      requires forall i, j :: 0 <= i < ntype1 && 0 <= j < ntype2 ==> cutoff[i][j] != 0.0
      ensures this.ntype1 == ntype1 && this.ntype2 == ntype2
      ensures this.epsilon == epsilon && this.sigma == sigma && this.index == index
      ensures this.rCutSigma == cutoff && this.rCoreSigma == core
      ensures rCut == ElementProd(sigma, cutoff, ntype1, ntype2)
      ensures rrCut == ElementProd(rCut, rCut, ntype1, ntype2)
      ensures sigma2 == ElementProd(sigma, sigma, ntype1, ntype2)
      ensures Shaped(enCut, ntype1, ntype2)
      ensures forall i, j :: 0 <= i < ntype1 && 0 <= j < ntype2 ==>
                enCut[i][j] == GpuCutoffEnergy(epsilon[i][j], cutoff[i][j], index[i][j])
      ensures |param| == ntype1 * ntype2 && |rrEnCut| == ntype1 * ntype2
      ensures forall k :: 0 <= k < ntype1 * ntype2 ==>
                param[k] == PairParam(Storage(epsilon, ntype1, ntype2)[k], Storage(sigma2, ntype1, ntype2)[k],
                                      Storage(core, ntype1, ntype2)[k], Storage(index, ntype1, ntype2)[k] as real)
      ensures forall k :: 0 <= k < ntype1 * ntype2 ==>
                rrEnCut[k] == CutoffRecord(Storage(rrCut, ntype1, ntype2)[k], Storage(enCut, ntype1, ntype2)[k])
    {
      var rc := ElementProd(sigma, cutoff, ntype1, ntype2);
      var rrc := ElementProd(rc, rc, ntype1, ntype2);
      var s2 := ElementProd(sigma, sigma, ntype1, ntype2);
      var en := GpuCutoffEnergies(cutoff, epsilon, index, ntype1, ntype2);
      var ps := PackParams(epsilon, s2, core, index, ntype1, ntype2);
      var cs := PackCutoffs(rrc, en, ntype1, ntype2);
      this.ntype1 := ntype1;
      this.ntype2 := ntype2;
      this.epsilon := epsilon;
      this.sigma := sigma;
      this.index := index;
      this.rCutSigma := cutoff;
      this.rCut := rc;
      this.rrCut := rrc;
      this.rCoreSigma := core;
      this.sigma2 := s2;
      this.enCut := en;
      this.param := ps;
      this.rrEnCut := cs;
    }
  }

  /** The en_cut_ double loop of the GPU potential. */
  method GpuCutoffEnergies(cutoff: seq<seq<real>>, epsilon: seq<seq<real>>, index: seq<seq<nat>>, n1: nat, n2: nat)
    returns (en: seq<seq<real>>)
    requires Shaped(cutoff, n1, n2) && Shaped(epsilon, n1, n2) && Shaped(index, n1, n2)
    requires forall i, j :: 0 <= i < n1 && 0 <= j < n2 ==> cutoff[i][j] != 0.0
    ensures Shaped(en, n1, n2)
    ensures forall i, j :: 0 <= i < n1 && 0 <= j < n2 ==> en[i][j] == GpuCutoffEnergy(epsilon[i][j], cutoff[i][j], index[i][j])
  {
    en := [];
    var i := 0;
    while i < n1
      invariant 0 <= i <= n1 && Shaped(en, i, n2)
      invariant forall i', j :: 0 <= i' < i && 0 <= j < n2 ==> en[i'][j] == GpuCutoffEnergy(epsilon[i'][j], cutoff[i'][j], index[i'][j])
    {
      var row := [];
      var j := 0;
      while j < n2
        invariant 0 <= j <= n2 && |row| == j
        invariant forall j' :: 0 <= j' < j ==> row[j'] == GpuCutoffEnergy(epsilon[i][j'], cutoff[i][j'], index[i][j'])
      {
        var riCut := 1.0 / cutoff[i][j];
        row := row + [epsilon[i][j] * Pow(riCut, index[i][j])];
        j := j + 1;
      }
      en := en + [row];
      i := i + 1;
    }
  }

  /** The loop packing the parameter records, one per flat index. */
  method PackParams(epsilon: seq<seq<real>>, sigma2: seq<seq<real>>, core: seq<seq<real>>, index: seq<seq<nat>>, n1: nat, n2: nat)
    returns (ps: seq<PairParam>)
    requires Shaped(epsilon, n1, n2) && Shaped(sigma2, n1, n2) && Shaped(core, n1, n2) && Shaped(index, n1, n2)
    ensures |ps| == n1 * n2
    ensures forall k :: 0 <= k < n1 * n2 ==>
              ps[k] == PairParam(Storage(epsilon, n1, n2)[k], Storage(sigma2, n1, n2)[k], Storage(core, n1, n2)[k], Storage(index, n1, n2)[k] as real)
  {
    ps := [];
    var k := 0;
    while k < n1 * n2
      invariant 0 <= k <= n1 * n2 && |ps| == k
      invariant forall k' :: 0 <= k' < k ==>
                  ps[k'] == PairParam(Storage(epsilon, n1, n2)[k'], Storage(sigma2, n1, n2)[k'], Storage(core, n1, n2)[k'], Storage(index, n1, n2)[k'] as real)
    {
      var p := PairParam(0.0, 0.0, 0.0, 0.0);
      p := p.(epsilon := Storage(epsilon, n1, n2)[k]);
      p := p.(sigma2 := Storage(sigma2, n1, n2)[k]);
      p := p.(coreSigma := Storage(core, n1, n2)[k]);
      p := p.(index := Storage(index, n1, n2)[k] as real);
      ps := ps + [p];
      k := k + 1;
    }
  }

  /** The loop packing the cutoff records, one per flat index. */
  method PackCutoffs(rrCut: seq<seq<real>>, enCut: seq<seq<real>>, n1: nat, n2: nat)
    returns (cs: seq<CutoffRecord>)
    requires Shaped(rrCut, n1, n2) && Shaped(enCut, n1, n2)
    ensures |cs| == n1 * n2
    ensures forall k :: 0 <= k < n1 * n2 ==> cs[k] == CutoffRecord(Storage(rrCut, n1, n2)[k], Storage(enCut, n1, n2)[k])
  {
    cs := [];
    var k := 0;
    while k < n1 * n2
      invariant 0 <= k <= n1 * n2 && |cs| == k
      invariant forall k' :: 0 <= k' < k ==> cs[k'] == CutoffRecord(Storage(rrCut, n1, n2)[k'], Storage(enCut, n1, n2)[k'])
    {
      cs := cs + [CutoffRecord(Storage(rrCut, n1, n2)[k], Storage(enCut, n1, n2)[k])];
      k := k + 1;
    }
  }

  /** The record of species pair (i, j) sits at flat index i·ntype2 + j. */
  lemma PackedRecordOfPair(p: GpuPowerLawWithCore, i: nat, j: nat)
    requires Shaped(p.epsilon, p.ntype1, p.ntype2) && Shaped(p.sigma2, p.ntype1, p.ntype2)
    requires Shaped(p.rCoreSigma, p.ntype1, p.ntype2) && Shaped(p.index, p.ntype1, p.ntype2)
    requires Shaped(p.rrCut, p.ntype1, p.ntype2) && Shaped(p.enCut, p.ntype1, p.ntype2)
    requires |p.param| == p.ntype1 * p.ntype2 && |p.rrEnCut| == p.ntype1 * p.ntype2
    requires forall k :: 0 <= k < p.ntype1 * p.ntype2 ==>
               p.param[k] == PairParam(Storage(p.epsilon, p.ntype1, p.ntype2)[k], Storage(p.sigma2, p.ntype1, p.ntype2)[k],
                                       Storage(p.rCoreSigma, p.ntype1, p.ntype2)[k], Storage(p.index, p.ntype1, p.ntype2)[k] as real)
    requires forall k :: 0 <= k < p.ntype1 * p.ntype2 ==>
               p.rrEnCut[k] == CutoffRecord(Storage(p.rrCut, p.ntype1, p.ntype2)[k], Storage(p.enCut, p.ntype1, p.ntype2)[k])
    requires i < p.ntype1 && j < p.ntype2
    ensures i * p.ntype2 + j < |p.param|
    ensures p.param[i * p.ntype2 + j] == PairParam(p.epsilon[i][j], p.sigma2[i][j], p.rCoreSigma[i][j], p.index[i][j] as real)
    ensures p.rrEnCut[i * p.ntype2 + j] == CutoffRecord(p.rrCut[i][j], p.enCut[i][j])
  {
    var n1, n2 := p.ntype1, p.ntype2;
    var k := i * n2 + j;
    StorageAt(p.epsilon, n1, n2, i, j);
    StorageAt(p.sigma2, n1, n2, i, j);
    StorageAt(p.rCoreSigma, n1, n2, i, j);
    StorageAt(p.index, n1, n2, i, j);
    StorageAt(p.rrCut, n1, n2, i, j);
    StorageAt(p.enCut, n1, n2, i, j);
    assert p.param[k] == PairParam(Storage(p.epsilon, n1, n2)[k], Storage(p.sigma2, n1, n2)[k],
                                   Storage(p.rCoreSigma, n1, n2)[k], Storage(p.index, n1, n2)[k] as real);
    assert p.rrEnCut[k] == CutoffRecord(Storage(p.rrCut, n1, n2)[k], Storage(p.enCut, n1, n2)[k]);
  }
}

module LennardJonesSimple {
  import opened Vectors

  /** The parameters of the single-species GPU Lennard-Jones force. */
  datatype Params = Params(rCut: seq<seq<real>>, rrCut: real, enCut: real)

  /** The reduced-unit 12-6 energy 4 r6i (r6i − 1) at squared distance rr, with r6i = (1/rr)³. */
  function CutoffEnergy(rr: real): real
    requires rr != 0.0
  {
    var rri := 1.0 / rr;
    var r6i := rri * rri * rri;
    4.0 * r6i * (r6i - 1.0)
  }

  /** The constructor: a 1 x 1 cutoff matrix, its square and the energy there. */
  function Make(cutoff: real): (p: Params)
    requires cutoff != 0.0
    ensures p.rCut == [[cutoff]] && p.rrCut == Square(cutoff) && p.rrCut > 0.0
    ensures p.enCut == CutoffEnergy(p.rrCut)
  {
    PositiveSquare(cutoff);
    Params([[cutoff]], Square(cutoff), CutoffEnergy(Square(cutoff)))
  }

  lemma PositiveSquare(x: real)
    requires x != 0.0
    ensures Square(x) > 0.0
  {
    if x > 0.0 {
      PositiveProduct(x, x, Square(x));
    } else {
      PositiveProduct(-x, -x, Square(x));
    }
  }

  lemma PositiveProduct(a: real, b: real, c: real)
    requires a > 0.0 && b > 0.0 && c == a * b
    ensures c > 0.0
  {
  }

  /** At cutoff 1 the shift is 0. */
  lemma NoShiftAtUnitCutoff()
    ensures Make(1.0).enCut == 0.0
  {
    assert Square(1.0) == 1.0;
    assert CutoffEnergy(1.0) == 0.0;
  }

  /** Beyond cutoff 1 the shift is negative: the cutoff lies in the attractive tail. */
  lemma NegativeShiftBeyondUnit(cutoff: real)
    requires cutoff > 1.0
    ensures Make(cutoff).enCut < 0.0
  {
    ProductAboveOne(cutoff, cutoff, Square(cutoff));
    CutoffEnergyNegative(Square(cutoff));
  }

  lemma ProductAboveOne(a: real, b: real, c: real)
    requires a > 1.0 && b > 1.0 && c == a * b
    ensures c > 1.0
  {
    assert a * b > 1.0 * b;
  }

  /** The 12-6 energy is negative beyond unit distance. */
  lemma CutoffEnergyNegative(rr: real)
    requires rr > 1.0
    ensures CutoffEnergy(rr) < 0.0
  {
    var rri := 1.0 / rr;
    assert 0.0 < rri < 1.0;
    CubeBelowOne(rri);
    NegativeProduct(rri * rri * rri);
  }

  lemma CubeBelowOne(a: real)
    requires 0.0 < a < 1.0
    ensures 0.0 < a * a * a < 1.0
  {
    assert 0.0 < a * a < a by { assert a * a < 1.0 * a; }
    assert a * a * a < a * a by { assert (a * a) * a < (a * a) * 1.0; }
  }

  lemma NegativeProduct(b: real)
    requires 0.0 < b < 1.0
    ensures 4.0 * b * (b - 1.0) < 0.0
  {
  }
}
