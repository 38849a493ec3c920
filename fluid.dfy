// The host Lennard-Jones fluid object (src/halmd/mdsim/ljfluid_host.hpp):
// the particle array held as one sequence per particle field, the cell
// and neighbour lists, the accumulated potential energy, virial and
// Helfand moment, the skin bookkeeping and the thermostat counter. Each
// method updates the fields the source updates and is proved against the
// functions of FluidCells, FluidForces and FluidMotion.

module LjFluid {
  import opened Vectors
  import opened Errors
  import opened Periodic
  import opened FluidCells
  import opened FluidForces
  import opened FluidMotion

  /** Number of species: A and B for a binary mixture, A alone otherwise. */
  function NumSpecies(binary: bool): nat
  {
    if binary then 2 else 1
  }

  /** Sum of the first i block sizes: the first tag of species i. */
  function BlockStart(mpart: seq<nat>, i: nat): nat
    requires i <= |mpart|
  {
    if i == 0 then 0 else BlockStart(mpart, i - 1) + mpart[i - 1]
  }

  /** With every block nonempty, the first tags of later blocks are larger. */
  lemma {:induction false} BlockStartIncreasing(mpart: seq<nat>, i: nat, j: nat)
    requires i <= j <= |mpart| && forall s :: 0 <= s < |mpart| ==> mpart[s] > 0
    ensures i < j ==> BlockStart(mpart, i) < BlockStart(mpart, j)
    ensures BlockStart(mpart, i) <= BlockStart(mpart, j)
    decreases j - i
  {
    if i < j {
      BlockStartIncreasing(mpart, i, j - 1);
    }
  }

  /** Every component of a tensor divided by the same count. */
  function DivideTensor(w: seq<real>, m: nat): (u: seq<real>)
    requires m > 0
    ensures |u| == |w|
    ensures forall i :: 0 <= i < |w| ==> u[i] == w[i] / (m as real)
  {
    seq(|w|, i requires 0 <= i < |w| => w[i] / (m as real))
  }

  /** Each species' tensor divided by the number of particles of that species. */
  function PerParticle(vs: seq<seq<real>>, mpart: seq<nat>): (us: seq<seq<real>>)
    requires |vs| == |mpart| && forall s :: 0 <= s < |mpart| ==> mpart[s] > 0
    ensures |us| == |vs|
    ensures forall s :: 0 <= s < |vs| ==> us[s] == DivideTensor(vs[s], mpart[s])
  {
    seq(|vs|, s requires 0 <= s < |vs| => DivideTensor(vs[s], mpart[s]))
  }

  lemma LookupInRange(cells: map<CellIndex, seq<nat>>, c: CellIndex, q: nat, n: nat)
    requires CellsInRange(cells, n) && q in Lookup(cells, c)
    ensures q < n
  {
    var j :| 0 <= j < |Lookup(cells, c)| && Lookup(cells, c)[j] == q;
  }

  lemma LookupIndicesIn(cells: map<CellIndex, seq<nat>>, c: CellIndex, n: nat)
    requires CellsInRange(cells, n)
    ensures IndicesIn(Lookup(cells, c), n)
  {
  }

  /**
   * The pair test of compute_cell_neighbours: in the same cell only a
   * partner with a higher tag, and only within the cutoff plus skin of
   * the pair type, by the minimum-image distance.
   */
  method PairAccepted(g: Geometry, p1: Site, p2: Site, sameCell: bool) returns (accept: bool)
    requires ValidGeometry(g) && ValidSite(g, p1) && ValidSite(g, p2)
    ensures accept == Accepts(g, p1, p2, sameCell)
  {
    if sameCell && p2.tag <= p1.tag {
      return false;
    }
    var d := MinImage(Sub(p1.r, p2.r), g.box);
    var rr := Dot(d, d);
    accept := rr < g.rrCutSkin[PairType(g.binary, p1.ptype, p2.ptype)];
  }

  /**
   * compute_cell_neighbours: appends to the neighbour list nbl of p1, in
   * list order, every particle of cell c that passes the pair test.
   */
  method ComputeCellNeighbours(g: Geometry, ps: seq<Site>, cells: map<CellIndex, seq<nat>>,
                               p1: nat, c: CellIndex, sameCell: bool, nbl: seq<nat>) returns (nbl': seq<nat>)
    requires ValidGeometry(g) && ValidSites(g, ps) && p1 < |ps| && CellsInRange(cells, |ps|)
    ensures nbl' == nbl + Candidates(g, ps, p1, Lookup(cells, c), sameCell)
  {
    var list := Lookup(cells, c);
    LookupIndicesIn(cells, c, |ps|);
    nbl' := nbl;
    var j := 0;
    while j < |list|
      invariant 0 <= j <= |list|
      invariant nbl' == nbl + Candidates(g, ps, p1, list[..j], sameCell)
    {
      var p2 := list[j];
      var accept := PairAccepted(g, ps[p1], ps[p2], sameCell);
      if accept {
        nbl' := nbl' + [p2];
      }
      assert list[..j + 1][..j] == list[..j];
      j := j + 1;
    }
    assert list[..|list|] == list;
  }

  /**
   * The body of update_cell_neighbours for one particle p1 of cell i: an
   * empty list filled from the half-shell neighbour cells, the offsets
   * visited up to the all-zero one, and then from cell i itself.
   */
  method CellNeighbourList(g: Geometry, ps: seq<Site>, cells: map<CellIndex, seq<nat>>, p1: nat, i: CellIndex)
    returns (nbl: seq<nat>)
    requires ValidGeometry(g) && ValidSites(g, ps) && p1 < |ps| && CellsInRange(cells, |ps|)
    requires ValidCell(i, g.dim, g.ncell)
    ensures nbl == NeighbourListAt(g, ps, cells, p1, i)
  {
    nbl := [];
    var k := 0;
    while k < NumOffsets(g.dim) && !IsZeroOffset(OffsetAt(g.dim, k))
      invariant 0 <= k <= MidOffset(g.dim)
      invariant nbl == HalfShell(g, ps, cells, p1, i, k)
    {
      OffsetHalves(g.dim, k);
      nbl := ComputeCellNeighbours(g, ps, cells, p1, NeighbourCell(i, OffsetAt(g.dim, k), g.ncell), false, nbl);
      k := k + 1;
    }
    OffsetHalves(g.dim, MidOffset(g.dim));
    if k < MidOffset(g.dim) {
      OffsetHalves(g.dim, k);
      assert false;
    }
    nbl := ComputeCellNeighbours(g, ps, cells, p1, i, true, nbl);
  }

  /**
   * The cutoff-plus-skin radii nbl_skin sets: the cutoff plus the skin for
   * each pair type that has a cutoff, the previous radius for the others.
   */
  function CutSkin(rCut: seq<real>, value: real, prev: seq<real>): (c: seq<real>)
    requires |rCut| <= 3 && |prev| == 3
    ensures |c| == 3
  {
    seq(3, t requires 0 <= t < 3 => if t < |rCut| then rCut[t] + value else prev[t])
  }

  /** Their squares, for the first n pair types; the previous squares for the others. */
  function SquaredCutSkin(cut: seq<real>, n: nat, prev: seq<real>): (c: seq<real>)
    requires n <= 3 && |cut| == 3 && |prev| == 3
    ensures |c| == 3
  {
    seq(3, t requires 0 <= t < 3 => if t < n then Square(cut[t]) else prev[t])
  }

  /** The first loop of nbl_skin, over the pair types. */
  method SkinRadii(rCut: seq<real>, value: real, cut0: seq<real>, cut20: seq<real>)
    returns (cut: seq<real>, cut2: seq<real>)
    requires |rCut| <= 3 && |cut0| == 3 && |cut20| == 3
    ensures cut == CutSkin(rCut, value, cut0) && cut2 == SquaredCutSkin(cut, |rCut|, cut20)
  {
    cut, cut2 := cut0, cut20;
    var i := 0;
    while i < |rCut|
      invariant 0 <= i <= |rCut| && |cut| == 3 && |cut2| == 3
      invariant forall t :: 0 <= t < 3 ==> cut[t] == (if t < i then rCut[t] + value else cut0[t])
      invariant forall t :: 0 <= t < 3 ==> cut2[t] == (if t < i then Square(cut[t]) else cut20[t])
    {
      var rc := rCut[i] + value;
      cut := cut[i := rc];
      cut2 := cut2[i := Square(rc)];
      i := i + 1;
    }
    assert forall t :: 0 <= t < 3 ==> cut[t] == CutSkin(rCut, value, cut0)[t];
    assert forall t :: 0 <= t < 3 ==> cut2[t] == SquaredCutSkin(cut, |rCut|, cut20)[t];
  }

  /** cell_length_: the box divided by the number of cells per dimension. */
  function CellSide(box: real, n: int): real
    requires n >= 1
  {
    box / (n as real)
  }

  /**
   * The cell grid of nbl_skin: the number of cells per dimension from the
   * largest cutoff-plus-skin radius m, and when there is at least one cell
   * the cell length, which is then at least m.
   */
  method CellGrid(box: real, m: real) returns (n: int, len: real)
    requires box > 0.0 && m > 0.0
    ensures n == CellCount(box, m)
    ensures n >= 1 ==> len == CellSide(box, n) && len >= m
  {
    n := TruncToInt(box / m);
    if n >= 1 {
      len := box / (n as real);
      CellLengthCoversCutoff(box, m);
    } else {
      len := 0.0;
    }
  }

  /** Appending particle k to the list of its cell extends the cell lists from k to k + 1 particles. */
  lemma AppendToCell(g: Geometry, ps: seq<Site>, cells: map<CellIndex, seq<nat>>, cells': map<CellIndex, seq<nat>>, k: nat)
    requires ValidGeometry(g) && ValidSites(g, ps) && k < |ps|
    requires forall c :: Lookup(cells, c) == CellMembers(g, ps, c, k)
    requires cells' == cells[CellOfSite(g, ps[k]) := Lookup(cells, CellOfSite(g, ps[k])) + [k]]
    ensures forall c' :: Lookup(cells', c') == CellMembers(g, ps, c', k + 1)
  {
    forall c' | true
      ensures Lookup(cells', c') == CellMembers(g, ps, c', k + 1)
    {
      assert Lookup(cells, c') == CellMembers(g, ps, c', k);
    }
  }

  lemma CellsComplete(g: Geometry, ps: seq<Site>, cells: map<CellIndex, seq<nat>>)
    requires ValidGeometry(g) && ValidSites(g, ps)
    requires forall c :: Lookup(cells, c) == CellMembers(g, ps, c, |ps|)
    ensures CellsConsistent(g, ps, cells) && CellsInRange(cells, |ps|)
  {
    ConsistentInRange(g, ps, cells);
  }

  /** The cell c comes before row (i0, i1) in the order of the nested cell loops. */
  predicate RowsBefore(c: CellIndex, i0: int, i1: int)
    requires |c| >= 2
  {
    c[0] < i0 || (c[0] == i0 && c[1] < i1)
  }

  /** The 3-D cell c comes before cell (i0, i1, i2) in the order of the nested cell loops. */
  predicate CellsBefore(c: CellIndex, i0: int, i1: int, i2: int)
    requires |c| == 3
  {
    RowsBefore(c, i0, i1) || (c[0] == i0 && c[1] == i1 && c[2] < i2)
  }

  /** One step of update_cells: particle k appended to the list of the cell its position falls into. */
  method AddSite(g: Geometry, ps: seq<Site>, lists: map<CellIndex, seq<nat>>, k: nat) returns (lists': map<CellIndex, seq<nat>>)
    requires ValidGeometry(g) && ValidSites(g, ps) && k < |ps|
    requires forall c :: Lookup(lists, c) == CellMembers(g, ps, c, k)
    ensures forall c :: Lookup(lists', c) == CellMembers(g, ps, c, k + 1)
  {
    var c := CellOf(ps[k].r, g.cellLength, g.ncell);
    lists' := lists[c := Lookup(lists, c) + [k]];
    AppendToCell(g, ps, lists, lists', k);
  }

  /**
   * After update_cell_neighbours for the 3-D cell (i0, i1, i2), every
   * particle of a cell up to and including it holds its neighbour list.
   */
  lemma CellDone3(g: Geometry, ps: seq<Site>, cells: map<CellIndex, seq<nat>>,
                  nb: seq<seq<nat>>, nb': seq<seq<nat>>, i0: int, i1: int, i2: int)
    requires CellsConsistent(g, ps, cells) && CellsInRange(cells, |ps|) && g.dim == 3
    requires |nb| == |ps| && |nb'| == |ps| && ValidCell([i0, i1, i2], 3, g.ncell)
    requires forall p :: 0 <= p < |ps| && CellsBefore(CellOfSite(g, ps[p]), i0, i1, i2) ==>
               nb[p] == NeighbourList(g, ps, cells, p)
    requires forall p :: 0 <= p < |ps| && p in Lookup(cells, [i0, i1, i2]) ==>
               nb'[p] == NeighbourListAt(g, ps, cells, p, [i0, i1, i2])
    requires forall p :: 0 <= p < |ps| && p !in Lookup(cells, [i0, i1, i2]) ==> nb'[p] == nb[p]
    ensures forall p :: 0 <= p < |ps| && CellsBefore(CellOfSite(g, ps[p]), i0, i1, i2 + 1) ==>
              nb'[p] == NeighbourList(g, ps, cells, p)
  {
    forall p | 0 <= p < |ps| && CellsBefore(CellOfSite(g, ps[p]), i0, i1, i2 + 1)
      ensures nb'[p] == NeighbourList(g, ps, cells, p)
    {
      var cp := CellOfSite(g, ps[p]);
      CellsConsistentLookup(g, ps, cells, [i0, i1, i2], p);
      if cp[0] == i0 && cp[1] == i1 && cp[2] == i2 {
        assert cp == [i0, i1, i2];
      }
    }
  }

  /** The same for the 2-D cell (i0, i1). */
  lemma CellDone2(g: Geometry, ps: seq<Site>, cells: map<CellIndex, seq<nat>>,
                  nb: seq<seq<nat>>, nb': seq<seq<nat>>, i0: int, i1: int)
    requires CellsConsistent(g, ps, cells) && CellsInRange(cells, |ps|) && g.dim == 2
    requires |nb| == |ps| && |nb'| == |ps| && ValidCell([i0, i1], 2, g.ncell)
    requires forall p :: 0 <= p < |ps| && RowsBefore(CellOfSite(g, ps[p]), i0, i1) ==>
               nb[p] == NeighbourList(g, ps, cells, p)
    requires forall p :: 0 <= p < |ps| && p in Lookup(cells, [i0, i1]) ==>
               nb'[p] == NeighbourListAt(g, ps, cells, p, [i0, i1])
    requires forall p :: 0 <= p < |ps| && p !in Lookup(cells, [i0, i1]) ==> nb'[p] == nb[p]
    ensures forall p :: 0 <= p < |ps| && RowsBefore(CellOfSite(g, ps[p]), i0, i1 + 1) ==>
              nb'[p] == NeighbourList(g, ps, cells, p)
  {
    forall p | 0 <= p < |ps| && RowsBefore(CellOfSite(g, ps[p]), i0, i1 + 1)
      ensures nb'[p] == NeighbourList(g, ps, cells, p)
    {
      var cp := CellOfSite(g, ps[p]);
      CellsConsistentLookup(g, ps, cells, [i0, i1], p);
      if cp[0] == i0 && cp[1] == i1 {
        assert cp == [i0, i1];
      }
    }
  }

  /**
   * The inner loop of compute_forces: the visits of p1 with each entry of
   * its neighbour list, in list order.
   */
  method ListForces(fs: ForceSetup, ps: seq<Site>, nbl: seq<seq<nat>>, p1: nat,
                    st0: ForceState, st: ForceState) returns (st': ForceState)
    requires ValidSystem(fs, ps) && ValidState(fs.g, |ps|, fs.nspecies, st0)
    requires |nbl| == |ps| && ListsIn(nbl, |ps|) && p1 < |nbl|
    requires st == FoldForces(fs, ps, st0, NeighbourPairs(nbl, p1))
    ensures st' == FoldForces(fs, ps, st0, NeighbourPairs(nbl, p1 + 1))
  {
    st' := st;
    ghost var pre := NeighbourPairs(nbl, p1);
    assert pre + PairsOf(nbl, p1, 0) == pre;
    var j := 0;
    while j < |nbl[p1]|
      invariant 0 <= j <= |nbl[p1]|
      invariant PairsIn(pre + PairsOf(nbl, p1, j), |ps|)
      invariant st' == FoldForces(fs, ps, st0, pre + PairsOf(nbl, p1, j))
    {
      var pair := (p1, nbl[p1][j]);
      PairsOfSnoc(nbl, p1, j);
      FoldForcesSnoc(fs, ps, st0, pre + PairsOf(nbl, p1, j), pair);
      st' := ForceStep(fs, ps, st', pair);
      j := j + 1;
    }
  }

  /** The double loop of compute_forces over every particle and its neighbour list. */
  method AccumulateForces(fs: ForceSetup, ps: seq<Site>, nbl: seq<seq<nat>>, st0: ForceState) returns (st: ForceState)
    requires ValidSystem(fs, ps) && ValidState(fs.g, |ps|, fs.nspecies, st0)
    requires |nbl| == |ps| && ListsIn(nbl, |ps|)
    ensures st == FoldForces(fs, ps, st0, NeighbourPairs(nbl, |nbl|))
  {
    st := st0;
    var p1 := 0;
    while p1 < |nbl|
      invariant 0 <= p1 <= |nbl|
      invariant st == FoldForces(fs, ps, st0, NeighbourPairs(nbl, p1))
    {
      st := ListForces(fs, ps, nbl, p1, st0, st);
      p1 := p1 + 1;
    }
  }

  /** The last loop of compute_forces: each species' virial divided by its number of particles. */
  method DivideBySpecies(vs: seq<seq<real>>, mpart: seq<nat>) returns (us: seq<seq<real>>)
    requires |vs| == |mpart| && forall s :: 0 <= s < |mpart| ==> mpart[s] > 0
    ensures us == PerParticle(vs, mpart)
  {
    us := vs;
    var i := 0;
    while i < |us|
      invariant 0 <= i <= |us| && |us| == |vs|
      invariant forall s :: 0 <= s < |vs| ==> us[s] == if s < i then DivideTensor(vs[s], mpart[s]) else vs[s]
    {
      us := us[i := DivideTensor(us[i], mpart[i])];
      i := i + 1;
    }
  }

  /**
   * The periodic boundary step of leapfrog_half for one particle, after
   * r += v*dt: each coordinate beyond the box wrapped back once, with the
   * box-image counter moved by one.
   */
  method WrapParticle(rk: Vector, Rk: Vector, vk: Vector, dt: real, box: real) returns (rk': Vector, Rk': Vector)
    requires |rk| == |vk| == |Rk|
    ensures rk' == Drift(rk, vk, dt, box) && Rk' == DriftImage(Rk, rk, vk, dt, box)
  {
    rk' := Add(rk, Scale(vk, dt));
    Rk' := Rk;
    var i := 0;
    while i < |rk|
      invariant 0 <= i <= |rk| && |rk'| == |rk| && |Rk'| == |rk|
      invariant forall j :: 0 <= j < |rk| ==> rk'[j] == if j < i then WrapComp(rk[j] + vk[j] * dt, box) else rk[j] + vk[j] * dt
      invariant forall j :: 0 <= j < |rk| ==> Rk'[j] == if j < i then Rk[j] + ImageShift(rk[j] + vk[j] * dt, box) else Rk[j]
    {
      if rk'[i] > box {
        rk' := rk'[i := rk'[i] - box];
        Rk' := Rk'[i := Rk'[i] + 1.0];
      } else if rk'[i] < 0.0 {
        rk' := rk'[i := rk'[i] + box];
        Rk' := Rk'[i := Rk'[i] - 1.0];
      }
      i := i + 1;
    }
  }

  /** Every coordinate of every position lies in [0, box]. */
  predicate InBox(rs: seq<Vector>, box: real)
  {
    forall k, i :: 0 <= k < |rs| && 0 <= i < |rs[k]| ==> 0.0 <= rs[k][i] <= box
  }

  /**
   * Every particle moves by less than one box length over the half step
   * with the half-kicked velocity, so the single wrap of leapfrog_half
   * brings it back into the box.
   */
  predicate HalfStepWraps(rs: seq<Vector>, vs: seq<Vector>, fs: seq<Vector>, dt: real, box: real)
  {
    |vs| == |rs| && |fs| == |rs|
    && forall k :: 0 <= k < |rs| ==>
         |vs[k]| == |rs[k]| && |fs[k]| == |rs[k]| && SingleWrap(rs[k], Kick(vs[k], fs[k], dt), dt, box)
  }

  /** The particle loop of leapfrog_half over positions rs, images Rs, velocities vs and forces fs. */
  method HalfStep(rs: seq<Vector>, Rs: seq<Vector>, vs: seq<Vector>, fs: seq<Vector>, dt: real, box: real)
    returns (rs': seq<Vector>, Rs': seq<Vector>, vs': seq<Vector>, vvMax: real)
    requires |Rs| == |rs| && |vs| == |rs| && |fs| == |rs|
    requires forall k :: 0 <= k < |rs| ==> |Rs[k]| == |rs[k]| && |vs[k]| == |rs[k]| && |fs[k]| == |rs[k]|
    ensures vs' == KickAll(vs, fs, dt)
    ensures rs' == DriftAll(rs, vs', dt, box) && Rs' == DriftImageAll(Rs, rs, vs', dt, box)
    ensures vvMax == MaxSquare(vs', |vs'|)
  {
    ghost var ws := KickAll(vs, fs, dt);
    rs', Rs', vs' := rs, Rs, vs;
    vvMax := 0.0;
    var k := 0;
    while k < |rs|
      invariant 0 <= k <= |rs| && |rs'| == |rs| && |Rs'| == |rs| && |vs'| == |rs|
      invariant forall j :: 0 <= j < k ==> vs'[j] == ws[j]
      invariant forall j :: 0 <= j < k ==> rs'[j] == Drift(rs[j], ws[j], dt, box)
      invariant forall j :: 0 <= j < k ==> Rs'[j] == DriftImage(Rs[j], rs[j], ws[j], dt, box)
      invariant vvMax == MaxSquare(ws, k)
    {
      // the entries from k on are still those of the input
      var vk := Kick(vs[k], fs[k], dt);
      var rk, Rk := WrapParticle(rs[k], Rs[k], vk, dt, box);
      vs', rs', Rs' := vs'[k := vk], rs'[k := rk], Rs'[k := Rk];
      var vv := Dot(vk, vk);
      vvMax := if vvMax >= vv then vvMax else vv;
      k := k + 1;
    }
    assert vs' == ws;
  }

  /** After the half step every position is in the box and every unwrapped position has moved by v*dt. */
  lemma HalfStepEffect(rs: seq<Vector>, Rs: seq<Vector>, vs: seq<Vector>, dt: real, box: real)
    requires |Rs| == |rs| && |vs| == |rs|
    requires forall k :: 0 <= k < |rs| ==> |Rs[k]| == |rs[k]| && |vs[k]| == |rs[k]|
    requires forall k :: 0 <= k < |rs| ==> SingleWrap(rs[k], vs[k], dt, box)
    ensures InBox(DriftAll(rs, vs, dt, box), box)
    ensures forall k :: 0 <= k < |rs| ==>
              Unwrapped(DriftAll(rs, vs, dt, box)[k], DriftImageAll(Rs, rs, vs, dt, box)[k], box)
              == Add(Unwrapped(rs[k], Rs[k], box), Scale(vs[k], dt))
  {
    forall k | 0 <= k < |rs|
      ensures forall i :: 0 <= i < |rs[k]| ==> 0.0 <= DriftAll(rs, vs, dt, box)[k][i] <= box
      ensures Unwrapped(DriftAll(rs, vs, dt, box)[k], DriftImageAll(Rs, rs, vs, dt, box)[k], box)
              == Add(Unwrapped(rs[k], Rs[k], box), Scale(vs[k], dt))
    {
      DriftAdvancesUnwrapped(rs[k], Rs[k], vs[k], dt, box);
      DriftStaysInBox(rs[k], vs[k], dt, box);
    }
  }

  /** The cell grid fixed by nbl_skin and the cell lists holding indices of the n particles. */
  ghost predicate CellGridReady(ncell: int, cellLength: real, cells: map<CellIndex, seq<nat>>, n: nat)
  {
    ncell >= 3 && cellLength > 0.0 && CellsInRange(cells, n)
  }

  /** The cell lists and every neighbour list are those of the sites ps. */
  ghost predicate ListsRebuilt(g: Geometry, ps: seq<Site>, cells: map<CellIndex, seq<nat>>, nbl: seq<seq<nat>>)
  {
    CellsConsistent(g, ps, cells) && CellsInRange(cells, |ps|) && |nbl| == |ps|
    && forall p :: 0 <= p < |ps| ==> nbl[p] == NeighbourList(g, ps, cells, p)
  }

  /** The trigger of the rebuild in mdstep: the bound on the displacement since the last rebuild exceeds half the skin. */
  predicate NeedsRebuild(vMaxSum: real, timestep: real, rSkin: real)
  {
    vMaxSum * timestep > rSkin / 2.0
  }

  /** Each species' Helfand moment after one step: the virial times the time step added. */
  function Integrate(h: seq<seq<real>>, w: seq<seq<real>>, dt: real): (h': seq<seq<real>>)
    requires |w| == |h| && forall s :: 0 <= s < |h| ==> |w[s]| == |h[s]|
    ensures |h'| == |h| && forall s :: 0 <= s < |h| ==> |h'[s]| == |h[s]|
  {
    seq(|h|, s requires 0 <= s < |h| => Add(h[s], Scale(w[s], dt)))
  }

  /** The particle array: one entry per particle in every field, positions in the box. */
  predicate ParticleArrays(dim: nat, box: real, nspecies: nat, npart: nat,
                           r: seq<Vector>, R: seq<Vector>, v: seq<Vector>, f: seq<Vector>,
                           tag: seq<nat>, ptype: seq<nat>, neighbour: seq<seq<nat>>)
  {
    |r| == npart && |r| > 0 && |R| == |r| && |v| == |r| && |f| == |r|
    && |tag| == |r| && |ptype| == |r| && |neighbour| == |r|
    && AllDim(r, dim) && AllDim(R, dim) && AllDim(v, dim) && AllDim(f, dim)
    && (forall k :: 0 <= k < |r| ==> ptype[k] < nspecies)
    && InBox(r, box)
  }

  /** An energy sample: virial and Helfand moment per species, mean v.v, mean velocity, mean potential energy. */
  datatype EnergySampleData = EnergySampleData(
    virial: seq<seq<real>>, helfand: seq<seq<real>>, vv: real, vcm: Vector, enPot: real)

  class Fluid {
    // fixed parameters of the system
    const dim: nat
    const box: real
    const binary: bool                  // mixture_ == BINARY
    const pot: Potential
    const sqrt: real -> real
    const timestep: real
    const mpart: seq<nat>               // particles per species
    const thermostatSteps: nat
    const thermostatTemp: real

    // the particle array, one sequence per field of the particle struct
    var r: seq<Vector>                  // position, folded into the box
    var R: seq<Vector>                  // box images crossed
    var v: seq<Vector>
    var f: seq<Vector>
    var tag: seq<nat>
    var ptype: seq<nat>
    var neighbour: seq<seq<nat>>        // indices into the particle array

    // cell lists and neighbour-list skin
    var cells: map<CellIndex, seq<nat>>
    var rSkin: real
    var rCutSkin: seq<real>
    var rrCutSkin: seq<real>
    var ncell: int
    var cellLength: real

    // accumulated observables and integration bookkeeping
    var enPot: real
    var virial: seq<seq<real>>
    var helfand: seq<seq<real>>
    var vMaxSum: real
    var thermostatCount: nat

    /** What the cell and neighbour lists see of the particles. */
    function Sites(): (ps: seq<Site>)
      reads this`r, this`tag, this`ptype
      requires |tag| == |r| && |ptype| == |r|
      ensures |ps| == |r|
      ensures forall k :: 0 <= k < |r| ==> ps[k] == Site(r[k], tag[k], ptype[k])
    {
      var rs, ts, ys := r, tag, ptype;
      seq(|rs|, k requires 0 <= k < |rs| => Site(rs[k], ts[k], ys[k]))
    }

    function Geometry(): Geometry
      reads this`ncell, this`cellLength, this`rrCutSkin
    {
      FluidCells.Geometry(dim, box, ncell, cellLength, binary, rrCutSkin)
    }

    function Setup(): ForceSetup
      reads this`ncell, this`cellLength, this`rrCutSkin
    {
      ForceSetup(Geometry(), pot, sqrt, NumSpecies(binary))
    }

    ghost predicate TensorsShaped(ts: seq<seq<real>>)
    {
      |ts| == NumSpecies(binary) && forall s :: 0 <= s < |ts| ==> |ts[s]| == TensorSize(dim)
    }

    /** The number of particles, fixed by the species sizes. */
    function NPart(): nat
    {
      BlockStart(mpart, |mpart|)
    }

    /** The fixed parameters: dimension, box, potential, species counts. */
    ghost predicate Params()
    {
      (dim == 2 || dim == 3) && box > 0.0
      && ValidPotential(binary, pot)
      && |mpart| == NumSpecies(binary) && (forall s :: 0 <= s < |mpart| ==> mpart[s] > 0)
    }

    /** The invariant of the particle array, the accumulators and the skin radii. */
    ghost predicate Valid()
      reads this`r, this`R, this`v, this`f, this`tag, this`ptype, this`neighbour
      reads this`virial, this`helfand, this`rCutSkin, this`rrCutSkin
    {
      Params() && ParticleArrays(dim, box, NumSpecies(binary), NPart(), r, R, v, f, tag, ptype, neighbour)
      && TensorsShaped(virial) && TensorsShaped(helfand) && |rCutSkin| == 3 && |rrCutSkin| == 3
    }

    /** A successful nbl_skin has fixed the cell grid; the cell lists hold particle indices. */
    ghost predicate Ready()
      reads this`r, this`R, this`v, this`f, this`tag, this`ptype, this`neighbour
      reads this`virial, this`helfand, this`rCutSkin, this`rrCutSkin
      reads this`ncell, this`cellLength, this`cells
    {
      Valid() && CellGridReady(ncell, cellLength, cells, NPart())
    }

    lemma ReadySystem()
      requires Ready()
      ensures ValidGeometry(Geometry()) && ValidSites(Geometry(), Sites())
      ensures SqrtPositive(sqrt) ==> ValidSystem(Setup(), Sites())
      ensures ValidState(Geometry(), |r|, NumSpecies(binary), ForceState(f, enPot, virial, false))
    {
    }

    /**
     * A system whose parameters and particles are given; the skin is
     * not set yet, so there is no cell grid, and every neighbour list,
     * force, box image and accumulator is empty or zero.
     */
    constructor(dim: nat, box: real, binary: bool, pot: Potential, sqrt: real -> real,
                timestep: real, mpart: seq<nat>, thermostatSteps: nat, thermostatTemp: real,
                r0: seq<Vector>, v0: seq<Vector>, tag0: seq<nat>, ptype0: seq<nat>)
      requires (dim == 2 || dim == 3) && box > 0.0
      requires ValidPotential(binary, pot)
      requires |mpart| == NumSpecies(binary) && (forall s :: 0 <= s < |mpart| ==> mpart[s] > 0)
      requires BlockStart(mpart, |mpart|) == |r0|
      requires |r0| > 0 && |v0| == |r0| && |tag0| == |r0| && |ptype0| == |r0|
      requires AllDim(r0, dim) && AllDim(v0, dim)
      requires forall k :: 0 <= k < |r0| ==> ptype0[k] < NumSpecies(binary)
      requires InBox(r0, box)
      ensures Valid() && ncell == 0
      ensures this.dim == dim && this.box == box && this.binary == binary && this.pot == pot
      ensures this.sqrt == sqrt && this.timestep == timestep && this.mpart == mpart
      ensures this.thermostatSteps == thermostatSteps && this.thermostatTemp == thermostatTemp
      ensures r == r0 && v == v0 && tag == tag0 && ptype == ptype0
      ensures R == Zeros(|r0|, dim) && f == Zeros(|r0|, dim) && neighbour == seq(|r0|, k => [])
      ensures cells == map[] && rCutSkin == [0.0, 0.0, 0.0] && rrCutSkin == [0.0, 0.0, 0.0]
      ensures virial == ZeroTensors(NumSpecies(binary), dim) && helfand == ZeroTensors(NumSpecies(binary), dim)
      ensures enPot == 0.0 && vMaxSum == 0.0 && thermostatCount == 0
    {
      this.dim, this.box, this.binary, this.pot, this.sqrt := dim, box, binary, pot, sqrt;
      this.timestep, this.mpart := timestep, mpart;
      this.thermostatSteps, this.thermostatTemp := thermostatSteps, thermostatTemp;
      r, v, tag, ptype := r0, v0, tag0, ptype0;
      R, f := Zeros(|r0|, dim), Zeros(|r0|, dim);
      neighbour := seq(|r0|, k => []);
      cells := map[];
      rSkin, rCutSkin, rrCutSkin := 0.0, [0.0, 0.0, 0.0], [0.0, 0.0, 0.0];
      ncell, cellLength := 0, 0.0;
      enPot := 0.0;
      virial := ZeroTensors(NumSpecies(binary), dim);
      helfand := ZeroTensors(NumSpecies(binary), dim);
      vMaxSum, thermostatCount := 0.0, 0;
    }

    // -------------------------------------------------------------
    // Cell grid and cell lists
    // -------------------------------------------------------------

    /** Changing neither the particle array nor the accumulators keeps the invariant. */
    twostate lemma ValidFramed()
      requires old(Valid()) && |rCutSkin| == 3 && |rrCutSkin| == 3
      requires unchanged(this`r, this`R, this`v, this`f, this`tag, this`ptype, this`neighbour)
      requires unchanged(this`virial, this`helfand)
      ensures Valid()
    {
    }

    lemma GridReady()
      requires Valid() && ncell >= 3 && cellLength > 0.0 && cells == map[]
      ensures Ready()
    {
    }

    /** The first loop of nbl_skin: the skin and the cutoff-plus-skin radii of the pair types. */
    method SetSkinRadii(value: real)
      requires Valid() && value >= 0.0
      requires forall t :: 0 <= t < |pot.rCut| ==> pot.rCut[t] > 0.0
      modifies this`rSkin, this`rCutSkin, this`rrCutSkin
      ensures Valid() && rSkin == value && Max3(rCutSkin) > 0.0
      ensures rCutSkin == CutSkin(pot.rCut, value, old(rCutSkin))
      ensures rrCutSkin == SquaredCutSkin(rCutSkin, |pot.rCut|, old(rrCutSkin))
    {
      var cut, cut2 := SkinRadii(pot.rCut, value, rCutSkin, rrCutSkin);
      assert cut[0] == pot.rCut[0] + value;
      rSkin, rCutSkin, rrCutSkin := value, cut, cut2;
      ValidFramed();
    }

    /**
     * nbl_skin: the radii cutoff plus skin of the pair types and their
     * squares, the number of cells per dimension from the largest radius,
     * an error when that is below 3, and otherwise empty cell lists and the
     * cell length box/ncell, which is at least the largest radius.
     */
    method NblSkin(value: real) returns (res: Outcome)
      requires Valid() && value >= 0.0
      requires forall t :: 0 <= t < |pot.rCut| ==> pot.rCut[t] > 0.0
      requires forall t :: 0 <= t < 3 ==> rCutSkin[t] >= 0.0
      modifies this`rSkin, this`rCutSkin, this`rrCutSkin, this`ncell, this`cells, this`cellLength
      ensures rSkin == value
      ensures rCutSkin == CutSkin(pot.rCut, value, old(rCutSkin))
      ensures rrCutSkin == SquaredCutSkin(rCutSkin, |pot.rCut|, old(rrCutSkin))
      ensures Max3(rCutSkin) > 0.0 && ncell == CellCount(box, Max3(rCutSkin))
      ensures res.Fail? <==> ncell < 3
      ensures res.Fail? ==> Valid() && res.error == Exception("less than least 3 cells per dimension")
      ensures res.Fail? ==> cells == old(cells) && cellLength == old(cellLength)
      ensures res.Pass? ==> cells == map[] && cellLength == CellSide(box, ncell)
      ensures res.Pass? ==> cellLength >= Max3(rCutSkin) && Ready()
    {
      SetSkinRadii(value);
      var n, len := CellGrid(box, Max3(rCutSkin));
      ncell := n;
      if n < 3 {
        res := Fail(Exception("less than least 3 cells per dimension"));
      } else {
        cells, cellLength := map[], len;
        GridReady();
        res := Pass;
      }
    }

    /** update_cells: every particle index appended to the list of the cell its position falls into. */
    method UpdateCells()
      requires Ready()
      modifies this`cells
      ensures Ready() && CellsConsistent(Geometry(), Sites(), cells)
    {
      ReadySystem();
      var g, ps := Geometry(), Sites();
      var lists: map<CellIndex, seq<nat>> := map[];
      var k := 0;
      while k < |r|
        modifies {}
        invariant 0 <= k <= |r|
        invariant forall c :: Lookup(lists, c) == CellMembers(g, ps, c, k)
      {
        lists := AddSite(g, ps, lists, k);
        k := k + 1;
      }
      CellsComplete(g, ps, lists);
      cells := lists;
    }

    // -------------------------------------------------------------
    // Neighbour lists
    // -------------------------------------------------------------

    /** update_cell_neighbours: every particle of cell i receives the neighbour list of cell i. */
    method UpdateCellNeighbours(i: CellIndex)
      requires Updatable() && ValidCell(i, dim, ncell)
      modifies this`neighbour
      ensures Updatable()
      ensures forall p :: 0 <= p < |r| && p in Lookup(cells, i) ==>
                neighbour[p] == NeighbourListAt(Geometry(), Sites(), cells, p, i)
      ensures forall p :: 0 <= p < |r| && p !in Lookup(cells, i) ==> neighbour[p] == old(neighbour[p])
    {
      var g, ps := Geometry(), Sites();
      var members := Lookup(cells, i);
      LookupIndicesIn(cells, i, |r|);
      var m := 0;
      while m < |members|
        modifies this`neighbour
        invariant 0 <= m <= |members| && |neighbour| == |r|
        invariant forall p :: 0 <= p < |r| && p in members[..m] ==> neighbour[p] == NeighbourListAt(g, ps, cells, p, i)
        invariant forall p :: 0 <= p < |r| && p !in members[..m] ==> neighbour[p] == old(neighbour[p])
      {
        var p := members[m];
        var nbl := CellNeighbourList(g, ps, cells, p, i);
        neighbour := neighbour[p := nbl];
        assert members[..m + 1] == members[..m] + [members[m]];
        m := m + 1;
      }
      assert members[..|members|] == members;
    }

    /** What the update of the neighbour lists needs of a ready system. */
    ghost predicate Updatable()
      reads this`r, this`tag, this`ptype, this`neighbour, this`ncell, this`cellLength, this`rrCutSkin, this`cells
    {
      |tag| == |r| && |ptype| == |r| && |neighbour| == |r|
      && ValidGeometry(Geometry()) && ValidSites(Geometry(), Sites()) && CellsInRange(cells, |r|)
    }

    lemma ReadyUpdatable()
      requires Ready()
      ensures Updatable()
    {
      ReadySystem();
    }

    /** Replacing the neighbour lists by as many lists keeps a ready system ready. */
    twostate lemma NeighboursFramed()
      requires old(Ready()) && |neighbour| == old(|neighbour|)
      requires unchanged(this`r, this`R, this`v, this`f, this`tag, this`ptype, this`virial, this`helfand)
      requires unchanged(this`rCutSkin, this`rrCutSkin, this`ncell, this`cellLength, this`cells)
      ensures Ready()
    {
    }

    /** Neighbour list entries are particle indices. */
    lemma NeighbourListsIn()
      requires Ready() && CellsConsistent(Geometry(), Sites(), cells)
      requires forall p :: 0 <= p < |r| ==> neighbour[p] == NeighbourList(Geometry(), Sites(), cells, p)
      ensures ListsIn(neighbour, NPart())
    {
      forall p, j | 0 <= p < |r| && 0 <= j < |neighbour[p]|
        ensures neighbour[p][j] < |r|
      {
        var g, ps, q := Geometry(), Sites(), neighbour[p][j];
        var c := CellOfSite(g, ps[p]);
        HalfShellSpec(g, ps, cells, p, c, MidOffset(dim), q);
        CandidatesSpec(g, ps, p, Lookup(cells, c), true, q);
        if q in HalfShell(g, ps, cells, p, c, MidOffset(dim)) {
          var kk :| 0 <= kk < MidOffset(dim) && q in Lookup(cells, NeighbourCell(c, OffsetAt(dim, kk), ncell));
          LookupInRange(cells, NeighbourCell(c, OffsetAt(dim, kk), ncell), q, |r|);
        } else {
          LookupInRange(cells, c, q, |r|);
        }
      }
    }

    /** The innermost loop of update_neighbours in 3-D: the cells (i0, i1, i2) of one row. */
    method UpdateRowNeighbours(i0: int, i1: int)
      requires Updatable() && CellsConsistent(Geometry(), Sites(), cells)
      requires dim == 3 && 0 <= i0 < ncell && 0 <= i1 < ncell
      requires forall p :: 0 <= p < |r| && RowsBefore(CellOfSite(Geometry(), Sites()[p]), i0, i1) ==>
                 neighbour[p] == NeighbourList(Geometry(), Sites(), cells, p)
      modifies this`neighbour
      ensures Updatable()
      ensures forall p :: 0 <= p < |r| && RowsBefore(CellOfSite(Geometry(), Sites()[p]), i0, i1 + 1) ==>
                neighbour[p] == NeighbourList(Geometry(), Sites(), cells, p)
    {
      ghost var g, ps := Geometry(), Sites();
      var i2 := 0;
      while i2 < ncell
        invariant 0 <= i2 <= ncell && Updatable()
        invariant forall p :: 0 <= p < |r| && CellsBefore(CellOfSite(g, ps[p]), i0, i1, i2) ==>
                    neighbour[p] == NeighbourList(g, ps, cells, p)
      {
        ghost var before := neighbour;
        UpdateCellNeighbours([i0, i1, i2]);
        CellDone3(g, ps, cells, before, neighbour, i0, i1, i2);
        i2 := i2 + 1;
      }
    }

    /**
     * update_neighbours: update_cell_neighbours for every cell, after which
     * every particle holds the neighbour list of its own cell.
     */
    method UpdateNeighbours()
      requires Ready() && CellsConsistent(Geometry(), Sites(), cells)
      modifies this`neighbour
      ensures Ready() && ListsIn(neighbour, NPart())
      ensures forall p :: 0 <= p < |r| ==> neighbour[p] == NeighbourList(Geometry(), Sites(), cells, p)
    {
      ReadyUpdatable();
      UpdateEveryCell();
      NeighboursFramed();
      NeighbourListsIn();
    }

    /** The loops of update_neighbours: the cell index runs over i[0], i[1] (and i[2] in 3-D). */
    method UpdateEveryCell()
      requires Updatable() && CellsConsistent(Geometry(), Sites(), cells)
      modifies this`neighbour
      ensures Updatable()
      ensures forall p :: 0 <= p < |r| ==> neighbour[p] == NeighbourList(Geometry(), Sites(), cells, p)
    {
      ghost var g, ps := Geometry(), Sites();
      var i0 := 0;
      while i0 < ncell
        invariant 0 <= i0 <= ncell && Updatable()
        invariant forall p :: 0 <= p < |r| && CellOfSite(g, ps[p])[0] < i0 ==>
                    neighbour[p] == NeighbourList(g, ps, cells, p)
      {
        UpdateSliceNeighbours(i0);
        i0 := i0 + 1;
      }
    }

    /** The loop of update_neighbours over i[1], for one value i0 of i[0]. */
    method UpdateSliceNeighbours(i0: int)
      requires Updatable() && CellsConsistent(Geometry(), Sites(), cells) && 0 <= i0 < ncell
      requires forall p :: 0 <= p < |r| && CellOfSite(Geometry(), Sites()[p])[0] < i0 ==>
                 neighbour[p] == NeighbourList(Geometry(), Sites(), cells, p)
      modifies this`neighbour
      ensures Updatable()
      ensures forall p :: 0 <= p < |r| && CellOfSite(Geometry(), Sites()[p])[0] < i0 + 1 ==>
                neighbour[p] == NeighbourList(Geometry(), Sites(), cells, p)
    {
      ghost var g, ps := Geometry(), Sites();
      var i1 := 0;
      while i1 < ncell
        invariant 0 <= i1 <= ncell && Updatable()
        invariant forall p :: 0 <= p < |r| && RowsBefore(CellOfSite(g, ps[p]), i0, i1) ==>
                    neighbour[p] == NeighbourList(g, ps, cells, p)
      {
        if dim == 3 {
          UpdateRowNeighbours(i0, i1);
        } else {
          ghost var before := neighbour;
          UpdateCellNeighbours([i0, i1]);
          CellDone2(g, ps, cells, before, neighbour, i0, i1);
        }
        i1 := i1 + 1;
      }
    }

    // -------------------------------------------------------------
    // Forces, potential energy and virial
    // -------------------------------------------------------------

    /** Keeping the cell grid, the cell lists and the number of particles keeps a ready system ready. */
    twostate lemma ReadyFramed()
      requires old(Ready()) && Valid() && |r| == old(|r|)
      requires unchanged(this`ncell, this`cellLength, this`cells)
      ensures Ready()
    {
    }

    /** Replacing the forces and the virial by those of a force state of the right shape keeps the system ready. */
    twostate lemma ForcesFramed(st: ForceState)
      requires old(Ready())
      requires unchanged(this`r, this`R, this`v, this`tag, this`ptype, this`neighbour, this`helfand)
      requires unchanged(this`rCutSkin, this`rrCutSkin, this`ncell, this`cellLength, this`cells)
      requires ValidState(Geometry(), |r|, NumSpecies(binary), st)
      requires f == st.f && virial == PerParticle(st.virial, mpart)
      ensures Ready()
    {
    }

    /** The first loop of compute_forces: every force set to zero. */
    method ZeroForces()
      requires |f| == |r|
      modifies this`f
      ensures f == Zeros(|r|, dim)
    {
      var k := 0;
      while k < |f|
        invariant 0 <= k <= |f| && |f| == |r|
        invariant forall j :: 0 <= j < k ==> f[j] == Zero(dim)
      {
        f := f[k := Zero(dim)];
        k := k + 1;
      }
    }

    /**
     * compute_forces: all forces zeroed, then for each particle p1 and each
     * p2 in its neighbour list the pair visit; the energy divided by the
     * number of particles, each species' virial by its particle count, and
     * an error if the energy diverged (a pair inside its cutoff at zero
     * distance). The total force is then zero, and the energy is the mean
     * of the pair energies.
     */
    method ComputeForces() returns (res: Outcome, ghost st: ForceState)
      requires Ready() && SqrtPositive(sqrt) && ListsIn(neighbour, NPart())
      modifies this`f, this`enPot, this`virial
      ensures Ready() && ValidSystem(Setup(), Sites())
      ensures st == StepForces(Setup(), Sites(), neighbour, old(virial))
      ensures f == st.f && enPot == st.enPot / (|r| as real) && virial == PerParticle(st.virial, mpart)
      ensures res.Fail? <==> st.diverged
      ensures res.Fail? ==> res.error == PotentialEnergyDivergence
    {
      ReadySystem();
      var fs, ps, nbl, vir0 := Setup(), Sites(), neighbour, virial;
      ZeroForces();
      var acc := AccumulateForces(fs, ps, nbl, ForceState(f, 0.0, vir0, false));
      var vir := DivideBySpecies(acc.virial, mpart);
      f, enPot, virial := acc.f, acc.enPot / (|r| as real), vir;
      ForcesFramed(acc);
      res, st := if acc.diverged then Fail(PotentialEnergyDivergence) else Pass, acc;
    }

    // -------------------------------------------------------------
    // Integration of the equations of motion
    // -------------------------------------------------------------

    /**
     * leapfrog_half: for each particle the half-step velocity v + f*dt/2,
     * the full-step position r + v*dt wrapped once into the box with the
     * image counter, and the largest v.v; v_max_sum then grows by its
     * square root. Under the single-wrap assumption the positions stay in
     * the box and the unwrapped position r + R*box advances by exactly v*dt.
     */
    method LeapfrogHalf()
      requires Valid()
      requires HalfStepWraps(r, v, f, timestep, box)
      modifies this`r, this`R, this`v, this`vMaxSum
      ensures Valid()
      ensures v == KickAll(old(v), f, timestep)
      ensures r == DriftAll(old(r), v, timestep, box)
      ensures R == DriftImageAll(old(R), old(r), v, timestep, box)
      ensures vMaxSum == old(vMaxSum) + MaxSpeed(sqrt, v, NPart())
    {
      var rs, Rs, vs, vvMax := HalfStep(r, R, v, f, timestep, box);
      HalfStepEffect(r, R, vs, timestep, box);
      SetMotion(rs, Rs, vs);
      vMaxSum := vMaxSum + sqrt(vvMax);
    }

    /** Positions, images and velocities replaced by sequences of the same shape, the positions in the box. */
    method SetMotion(rs: seq<Vector>, Rs: seq<Vector>, vs: seq<Vector>)
      requires Valid()
      requires |rs| == |r| && |Rs| == |rs| && |vs| == |rs|
      requires AllDim(rs, dim) && AllDim(Rs, dim) && AllDim(vs, dim) && InBox(rs, box)
      modifies this`r, this`R, this`v
      ensures Valid() && r == rs && R == Rs && v == vs
    {
      r, R, v := rs, Rs, vs;
    }

    /** leapfrog_full: only the velocities change, each by f*dt/2. */
    method LeapfrogFull()
      requires Valid()
      modifies this`v
      ensures Valid() && v == KickAll(old(v), f, timestep)
    {
      var k := 0;
      while k < |v|
        invariant 0 <= k <= |v| && |v| == old(|v|)
        invariant forall j :: 0 <= j < |v| ==> v[j] == if j < k then Kick(old(v[j]), f[j], timestep) else old(v[j])
      {
        v := v[k := Kick(v[k], f[k], timestep)];
        k := k + 1;
      }
    }

    /** rescale_velocities: every velocity multiplied by coeff. */
    method RescaleVelocities(coeff: real)
      requires Valid()
      modifies this`v
      ensures Valid() && v == ScaleAll(old(v), coeff)
    {
      var k := 0;
      while k < |v|
        invariant 0 <= k <= |v| && |v| == old(|v|)
        invariant forall j :: 0 <= j < |v| ==> v[j] == if j < k then Scale(old(v[j]), coeff) else old(v[j])
      {
        v := v[k := Scale(v[k], coeff)];
        k := k + 1;
      }
    }

    /**
     * boltzmann, with the Gaussian draws given as drawn: the velocities
     * set to the draws while summing them, the mean velocity subtracted
     * while summing v.v, and every velocity scaled by
     * sqrt(temp*dimension/vv), vv the mean square of the centred velocities.
     */
    method Boltzmann(temp: real, drawn: seq<Vector>)
      requires Valid() && |drawn| == NPart() && AllDim(drawn, dim)
      requires MeanSquare(Shift(drawn, MeanVelocity(drawn, dim))) != 0.0
      modifies this`v
      ensures Valid()
      ensures v == BathVelocities(drawn, dim, temp, sqrt)
    {
      var n := |v|;
      var vcm := DrawVelocities(drawn);
      vcm := Scale(vcm, 1.0 / (n as real));
      var vv := CentreVelocities(vcm);
      vv := vv / (n as real);
      RescaleVelocities(sqrt(temp * (dim as real) / vv));
    }

    /** The first loop of boltzmann: each velocity set to its draw, and the sum of the draws. */
    method DrawVelocities(drawn: seq<Vector>) returns (vcm: Vector)
      requires Valid() && |drawn| == NPart() && AllDim(drawn, dim)
      modifies this`v
      ensures Valid() && v == drawn && vcm == Sum(drawn, dim)
    {
      vcm := Zero(dim);
      var k := 0;
      while k < |drawn|
        invariant 0 <= k <= |drawn| && |v| == |drawn| && |vcm| == dim
        invariant forall j :: 0 <= j < |drawn| ==> v[j] == if j < k then drawn[j] else old(v[j])
        invariant vcm == Sum(drawn[..k], dim)
      {
        v := v[k := drawn[k]];
        SumSnoc(drawn, k, dim);
        vcm := Add(vcm, drawn[k]);
        k := k + 1;
      }
      assert drawn[..|drawn|] == drawn;
    }

    /** The second loop of boltzmann: vcm subtracted from every velocity, and the sum of the new v.v. */
    method CentreVelocities(vcm: Vector) returns (vv: real)
      requires Valid() && |vcm| == dim
      modifies this`v
      ensures Valid() && v == Shift(old(v), vcm) && vv == SquaresSum(v, |v|)
    {
      ghost var centred := Shift(v, vcm);
      vv := 0.0;
      var k := 0;
      while k < |v|
        invariant 0 <= k <= |v| && |v| == |centred|
        invariant forall j :: 0 <= j < |v| ==> v[j] == if j < k then centred[j] else old(v[j])
        invariant vv == SquaresSum(centred, k)
      {
        v := v[k := Sub(v[k], vcm)];
        vv := vv + Dot(v[k], v[k]);
        k := k + 1;
      }
      assert v == centred;
    }

    /** compute_virial_kinetic: the virial reset to zero, then v.v and the off-diagonal products added per species. */
    method ComputeVirialKinetic()
      requires Valid()
      modifies this`virial
      ensures Valid() && virial == KineticVirial(dim, NumSpecies(binary), ptype, v, NPart())
    {
      var types, vs := ptype, v;
      virial := ZeroTensors(NumSpecies(binary), dim);
      var k := 0;
      while k < |vs|
        invariant 0 <= k <= |vs|
        invariant virial == KineticVirial(dim, NumSpecies(binary), types, vs, k)
      {
        virial := AddAt(virial, types[k], KineticTerms(dim, vs[k]));
        k := k + 1;
      }
    }

    // -------------------------------------------------------------
    // Samples
    // -------------------------------------------------------------

    /**
     * sample(energy_sample_type): the virial and Helfand moment per
     * species, the mean potential energy, and the mean v.v and mean
     * velocity over all particles.
     */
    method EnergySample() returns (es: EnergySampleData)
      requires Valid()
      ensures es.virial == virial && es.helfand == helfand && es.enPot == enPot
      ensures es.vv == MeanSquare(v) && es.vcm == MeanVelocity(v, dim)
    {
      var vv := 0.0;
      var vcm := Zero(dim);
      var k := 0;
      while k < |v|
        invariant 0 <= k <= |v| && |vcm| == dim
        invariant vv == SquaresSum(v, k)
        invariant vcm == Sum(v[..k], dim)
      {
        SumSnoc(v, k, dim);
        vv := vv + Dot(v[k], v[k]);
        vcm := Add(vcm, v[k]);
        k := k + 1;
      }
      assert v[..|v|] == v;
      es := EnergySampleData(virial, helfand, vv / (|v| as real), Scale(vcm, 1.0 / (|v| as real)), enPot);
    }

    /** The assertion of sample: every tag lies in the block of its species. */
    ghost predicate TagsInBlocks()
      reads this`r, this`R, this`v, this`f, this`tag, this`ptype, this`neighbour
      reads this`virial, this`helfand, this`rCutSkin, this`rrCutSkin
      requires Valid()
    {
      forall k :: 0 <= k < |r| ==>
        BlockStart(mpart, ptype[k]) <= tag[k] < BlockStart(mpart, ptype[k]) + mpart[ptype[k]]
    }

    /** No two particles share a tag. */
    ghost predicate DistinctTags()
      reads this`r, this`tag
      requires |tag| == |r|
    {
      forall j, k :: 0 <= j < k < |r| ==> tag[j] != tag[k]
    }

    /**
     * The block of species i as sample(host_sample_type) fills it: the
     * unwrapped position r + R*box and the velocity of every particle of
     * species i at index tag - m, m the first tag of the species.
     */
    ghost predicate BlockSampled(i: nat, rsi: seq<Vector>, vsi: seq<Vector>)
      reads this`r, this`R, this`v, this`f, this`tag, this`ptype, this`neighbour
      reads this`virial, this`helfand, this`rCutSkin, this`rrCutSkin
      requires Valid() && TagsInBlocks() && i < |mpart|
    {
      |rsi| == mpart[i] && |vsi| == mpart[i]
      && forall k :: 0 <= k < |r| && ptype[k] == i ==>
           rsi[tag[k] - BlockStart(mpart, i)] == Unwrapped(r[k], R[k], box)
           && vsi[tag[k] - BlockStart(mpart, i)] == v[k]
    }

    /** One species block of sample(host_sample_type). */
    method SampleSpecies(i: nat, m: nat) returns (rsi: seq<Vector>, vsi: seq<Vector>)
      requires Valid() && TagsInBlocks() && DistinctTags() && i < |mpart| && m == BlockStart(mpart, i)
      ensures BlockSampled(i, rsi, vsi)
    {
      rsi, vsi := Zeros(mpart[i], dim), Zeros(mpart[i], dim);
      var p := 0;
      while p < |r|
        invariant 0 <= p <= |r| && |rsi| == mpart[i] && |vsi| == mpart[i]
        invariant forall k :: 0 <= k < p && ptype[k] == i ==>
                    rsi[tag[k] - m] == Unwrapped(r[k], R[k], box) && vsi[tag[k] - m] == v[k]
      {
        if ptype[p] == i {
          rsi := rsi[tag[p] - m := Unwrapped(r[p], R[p], box)];
          vsi := vsi[tag[p] - m := v[p]];
        }
        p := p + 1;
      }
    }

    /**
     * sample(host_sample_type): one block per species, the blocks taken
     * while the first tag m of the block is below the number of particles;
     * every particle appears in the block of its species at index tag - m.
     */
    method Sample() returns (rs: seq<seq<Vector>>, vs: seq<seq<Vector>>)
      requires Valid() && TagsInBlocks() && DistinctTags()
      ensures |rs| == |mpart| && |vs| == |mpart|
      ensures forall i :: 0 <= i < |mpart| ==> BlockSampled(i, rs[i], vs[i])
    {
      rs, vs := [], [];
      var i, m := 0, 0;
      while m < |r|
        invariant 0 <= i <= |mpart| && m == BlockStart(mpart, i)
        invariant |rs| == i && |vs| == i
        invariant forall s :: 0 <= s < i ==> BlockSampled(s, rs[s], vs[s])
        decreases |r| - m
      {
        if i == |mpart| {
          assert false;
        }
        BlockStartIncreasing(mpart, i + 1, |mpart|);
        var rsi, vsi := SampleSpecies(i, m);
        rs, vs := rs + [rsi], vs + [vsi];
        m, i := m + mpart[i], i + 1;
      }
      if i < |mpart| {
        BlockStartIncreasing(mpart, i, |mpart|);
        assert false;
      }
    }

    /** Every particle of the sample sits in the block of its species at index tag - m. */
    lemma SampleHolds(rs: seq<seq<Vector>>, vs: seq<seq<Vector>>, k: nat)
      requires Valid() && TagsInBlocks() && k < |r|
      requires |rs| == |mpart| && |vs| == |mpart|
      requires forall i :: 0 <= i < |mpart| ==> BlockSampled(i, rs[i], vs[i])
      ensures BlockSampled(ptype[k], rs[ptype[k]], vs[ptype[k]])
      ensures rs[ptype[k]][tag[k] - BlockStart(mpart, ptype[k])] == Unwrapped(r[k], R[k], box)
      ensures vs[ptype[k]][tag[k] - BlockStart(mpart, ptype[k])] == v[k]
    {
    }

    // -------------------------------------------------------------
    // The integration step
    // -------------------------------------------------------------

    /** The loop of mdstep over the species: helfand[i] += virial[i]*timestep. */
    method IntegrateHelfand()
      requires Valid()
      modifies this`helfand
      ensures Valid() && helfand == Integrate(old(helfand), virial, timestep)
    {
      ghost var target := Integrate(helfand, virial, timestep);
      var i := 0;
      while i < |helfand|
        invariant 0 <= i <= |helfand| && |helfand| == |target|
        invariant forall s :: 0 <= s < |helfand| ==> helfand[s] == if s < i then target[s] else old(helfand[s])
      {
        helfand := helfand[i := Add(helfand[i], Scale(virial[i], timestep))];
        i := i + 1;
      }
    }

    /**
     * The rebuild of mdstep: when v_max_sum*timestep exceeds half the skin,
     * the cell lists and then the neighbour lists rebuilt and v_max_sum
     * reset to zero; otherwise nothing changes.
     */
    method UpdateLists() returns (rebuilt: bool)
      requires Ready() && ListsIn(neighbour, NPart())
      modifies this`neighbour, this`cells, this`vMaxSum
      ensures Ready() && ListsIn(neighbour, NPart())
      ensures rebuilt == NeedsRebuild(old(vMaxSum), timestep, rSkin)
      ensures rebuilt ==> vMaxSum == 0.0 && ListsRebuilt(Geometry(), Sites(), cells, neighbour)
      ensures !rebuilt ==> vMaxSum == old(vMaxSum) && cells == old(cells) && neighbour == old(neighbour)
    {
      rebuilt := NeedsRebuild(vMaxSum, timestep, rSkin);
      if rebuilt {
        UpdateCells();
        UpdateNeighbours();
        vMaxSum := 0.0;
      }
    }

    /**
     * The velocity update of mdstep: the step counter advanced when a
     * coupling period is set; on reaching it, the velocities drawn anew by
     * boltzmann at the heat-bath temperature and the counter reset,
     * otherwise the second half kick; then the Helfand moment integrated.
     */
    method UpdateVelocities(drawn: seq<Vector>) returns (coupled: bool)
      requires Valid()
      requires ThermostatStep(thermostatSteps, thermostatCount).0 ==>
                 |drawn| == NPart() && AllDim(drawn, dim) && MeanSquare(Shift(drawn, MeanVelocity(drawn, dim))) != 0.0
      modifies this`v, this`helfand, this`thermostatCount
      ensures Valid()
      ensures (coupled, thermostatCount) == ThermostatStep(thermostatSteps, old(thermostatCount))
      ensures helfand == Integrate(old(helfand), virial, timestep)
      ensures coupled ==>
                v == BathVelocities(drawn, dim, thermostatTemp, sqrt)
      ensures !coupled ==> v == KickAll(old(v), f, timestep)
    {
      var count := thermostatCount;
      if thermostatSteps != 0 {
        count := count + 1;
      }
      coupled := thermostatSteps != 0 && count >= thermostatSteps;
      Velocities(coupled, drawn);
      IntegrateHelfand();
      if coupled {
        count := 0;
      }
      thermostatCount := count;
    }

    /** The branch of mdstep that sets the velocities: boltzmann when coupled, leapfrog_full otherwise. */
    method Velocities(coupled: bool, drawn: seq<Vector>)
      requires Valid()
      requires coupled ==> |drawn| == NPart() && AllDim(drawn, dim) && MeanSquare(Shift(drawn, MeanVelocity(drawn, dim))) != 0.0
      modifies this`v
      ensures Valid()
      ensures coupled ==> v == BathVelocities(drawn, dim, thermostatTemp, sqrt)
      ensures !coupled ==> v == KickAll(old(v), f, timestep)
    {
      if coupled {
        Boltzmann(thermostatTemp, drawn);
      } else {
        LeapfrogFull();
      }
    }

    /**
     * The part of mdstep before the forces: the kinetic virial from the
     * velocities at the start, the half step, and the lists rebuilt (and
     * v_max_sum reset) when v_max_sum*timestep exceeds half the skin.
     */
    method Advance() returns (rebuilt: bool, ghost vMaxHalf: real)
      requires Ready() && ListsIn(neighbour, NPart())
      requires HalfStepWraps(r, v, f, timestep, box)
      modifies this`r, this`R, this`v, this`neighbour, this`cells, this`virial, this`vMaxSum
      ensures Ready() && ListsIn(neighbour, NPart())
      ensures virial == KineticVirial(dim, NumSpecies(binary), ptype, old(v), NPart())
      ensures v == KickAll(old(v), f, timestep)
      ensures r == DriftAll(old(r), v, timestep, box) && R == DriftImageAll(old(R), old(r), v, timestep, box)
      ensures vMaxHalf == old(vMaxSum) + MaxSpeed(sqrt, v, NPart())
      ensures rebuilt == NeedsRebuild(vMaxHalf, timestep, rSkin)
      ensures rebuilt ==> vMaxSum == 0.0 && ListsRebuilt(Geometry(), Sites(), cells, neighbour)
      ensures !rebuilt ==> vMaxSum == vMaxHalf && cells == old(cells) && neighbour == old(neighbour)
    {
      KineticHalfStep();
      vMaxHalf := vMaxSum;
      rebuilt := UpdateLists();
    }

    /** The kinetic virial from the velocities at the start, then the half step. */
    method KineticHalfStep()
      requires Valid() && HalfStepWraps(r, v, f, timestep, box)
      modifies this`r, this`R, this`v, this`virial, this`vMaxSum
      ensures Valid()
      ensures virial == KineticVirial(dim, NumSpecies(binary), ptype, old(v), NPart())
      ensures v == KickAll(old(v), f, timestep)
      ensures r == DriftAll(old(r), v, timestep, box) && R == DriftImageAll(old(R), old(r), v, timestep, box)
      ensures vMaxSum == old(vMaxSum) + MaxSpeed(sqrt, v, NPart())
    {
      ComputeVirialKinetic();
      LeapfrogHalf();
    }

    /**
     * The part of mdstep from the forces on: compute_forces (the virial
     * added to the kinetic part found in virial), then, unless the energy
     * diverged, the velocity update and the Helfand moment.
     */
    method Finish(drawn: seq<Vector>) returns (res: Outcome, coupled: bool, ghost st: ForceState)
      requires Ready() && SqrtPositive(sqrt) && ListsIn(neighbour, NPart())
      requires ThermostatStep(thermostatSteps, thermostatCount).0 ==>
                 |drawn| == NPart() && AllDim(drawn, dim) && MeanSquare(Shift(drawn, MeanVelocity(drawn, dim))) != 0.0
      modifies this`f, this`enPot, this`virial, this`v, this`helfand, this`thermostatCount
      ensures Ready() && ValidSystem(Setup(), Sites())
      ensures st == StepForces(Setup(), Sites(), neighbour, old(virial))
      ensures f == st.f && enPot == st.enPot / (NPart() as real) && virial == PerParticle(st.virial, mpart)
      ensures res.Fail? <==> st.diverged
      ensures res.Fail? ==> res.error == PotentialEnergyDivergence && v == old(v)
      ensures res.Fail? ==> helfand == old(helfand) && thermostatCount == old(thermostatCount)
      ensures res.Pass? ==> (coupled, thermostatCount) == ThermostatStep(thermostatSteps, old(thermostatCount))
      ensures res.Pass? ==> helfand == Integrate(old(helfand), virial, timestep)
      ensures res.Pass? && coupled ==> v == BathVelocities(drawn, dim, thermostatTemp, sqrt)
      ensures res.Pass? && !coupled ==> v == KickAll(old(v), f, timestep)
    {
      res, st := ComputeForces();
      label forces:
      coupled := UpdateVelocitiesUnless(res.Fail?, drawn);
      VelocitiesFramed@forces();
    }

    /** Updating velocities, the Helfand moment and the thermostat counter keeps a ready system ready. */
    twostate lemma VelocitiesFramed()
      requires old(Ready()) && old(ValidSystem(Setup(), Sites())) && Valid()
      requires unchanged(this`r, this`R, this`f, this`tag, this`ptype, this`neighbour, this`virial)
      requires unchanged(this`rCutSkin, this`rrCutSkin, this`ncell, this`cellLength, this`cells)
      ensures Ready() && ValidSystem(Setup(), Sites())
    {
    }

    /** The velocity update and the Helfand moment of mdstep, skipped when the energy diverged. */
    method UpdateVelocitiesUnless(diverged: bool, drawn: seq<Vector>) returns (coupled: bool)
      requires Valid()
      requires !diverged && ThermostatStep(thermostatSteps, thermostatCount).0 ==>
                 |drawn| == NPart() && AllDim(drawn, dim) && MeanSquare(Shift(drawn, MeanVelocity(drawn, dim))) != 0.0
      modifies this`v, this`helfand, this`thermostatCount
      ensures Valid()
      ensures diverged ==> v == old(v) && helfand == old(helfand) && thermostatCount == old(thermostatCount)
      ensures !diverged ==> (coupled, thermostatCount) == ThermostatStep(thermostatSteps, old(thermostatCount))
      ensures !diverged ==> helfand == Integrate(old(helfand), virial, timestep)
      ensures !diverged && coupled ==> v == BathVelocities(drawn, dim, thermostatTemp, sqrt)
      ensures !diverged && !coupled ==> v == KickAll(old(v), f, timestep)
    {
      coupled := false;
      if !diverged {
        coupled := UpdateVelocities(drawn);
      }
    }

    /**
     * mdstep, with the Gaussian draws of a coupling given as drawn: Advance
     * (the kinetic virial, the half step and, stated on Advance only, the
     * rebuild), then Finish (the forces and, unless the energy diverged, the
     * velocity update and the Helfand moment). A diverging energy ends the
     * step with an error.
     */
    method MdStep(drawn: seq<Vector>) returns (res: Outcome, coupled: bool, ghost st: ForceState)
      requires Ready() && SqrtPositive(sqrt) && ListsIn(neighbour, NPart())
      requires HalfStepWraps(r, v, f, timestep, box)
      requires ThermostatStep(thermostatSteps, thermostatCount).0 ==>
                 |drawn| == NPart() && AllDim(drawn, dim) && MeanSquare(Shift(drawn, MeanVelocity(drawn, dim))) != 0.0
      modifies this`r, this`R, this`v, this`f, this`neighbour, this`cells, this`enPot, this`virial
      modifies this`helfand, this`vMaxSum, this`thermostatCount
      ensures Ready() && ListsIn(neighbour, NPart()) && ValidSystem(Setup(), Sites())
      // the forces over the neighbour pairs, on top of the kinetic virial of the old velocities
      ensures st == StepForces(Setup(), Sites(), neighbour, KineticVirial(dim, NumSpecies(binary), ptype, old(v), NPart()))
      ensures f == st.f && enPot == st.enPot / (NPart() as real) && virial == PerParticle(st.virial, mpart)
      ensures res.Fail? <==> st.diverged
      ensures res.Fail? ==> res.error == PotentialEnergyDivergence
      // the velocities: the half-step kick only on divergence, else the second kick or the bath
      ensures res.Fail? ==> v == KickAll(old(v), old(f), timestep)
      ensures res.Fail? ==> helfand == old(helfand) && thermostatCount == old(thermostatCount)
      ensures res.Pass? ==> (coupled, thermostatCount) == ThermostatStep(thermostatSteps, old(thermostatCount))
      ensures res.Pass? ==> helfand == Integrate(old(helfand), virial, timestep)
      ensures res.Pass? && coupled ==> v == BathVelocities(drawn, dim, thermostatTemp, sqrt)
      ensures res.Pass? && !coupled ==> v == KickAll(KickAll(old(v), old(f), timestep), f, timestep)
      // the positions and image counters: the drift with the half-kicked velocities
      ensures r == DriftAll(old(r), KickAll(old(v), old(f), timestep), timestep, box)
      ensures R == DriftImageAll(old(R), old(r), KickAll(old(v), old(f), timestep), timestep, box)
    {
      var rebuilt;
      ghost var vMaxHalf;
      rebuilt, vMaxHalf := Advance();
      res, coupled, st := Finish(drawn);
    }
  }
}
