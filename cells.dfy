// Cell lists and neighbour lists of the host Lennard-Jones fluid
// (src/halmd/mdsim/ljfluid_host.hpp): the number and length of cells
// derived from the cutoff plus skin, the cell a position falls into,
// the periodic wrap of neighbour-cell indices, the half-shell of
// neighbour offsets visited before the all-zero offset, and the
// neighbour list a particle receives.

module FluidCells {
  import opened Vectors
  import opened Periodic

  type CellIndex = seq<int>

  /**
   * What the cell and neighbour lists see of a particle: its position,
   * folded into the box, its number and its species (A = 0 or B = 1).
   */
  datatype Site = Site(r: Vector, tag: nat, ptype: nat)

  /** The parameters the neighbour-list construction depends on. */
  datatype Geometry = Geometry(
    dim: nat,
    box: real,
    ncell: int,
    cellLength: real,
    binary: bool,
    rrCutSkin: seq<real>)

  predicate ValidGeometry(g: Geometry)
  {
    (g.dim == 2 || g.dim == 3) && g.box > 0.0 && g.ncell >= 3 && g.cellLength > 0.0
    && |g.rrCutSkin| == 3
  }

  predicate ValidSite(g: Geometry, p: Site)
  {
    |p.r| == g.dim && (forall i :: 0 <= i < g.dim ==> p.r[i] >= 0.0) && p.ptype <= 1
  }

  predicate ValidSites(g: Geometry, ps: seq<Site>)
  {
    forall k :: 0 <= k < |ps| ==> ValidSite(g, ps[k])
  }

  // ---------------------------------------------------------------
  // Number of cells (nbl_skin)
  // ---------------------------------------------------------------

  /** static_cast<int> of a real: truncation toward zero. */
  function TruncToInt(x: real): (n: int)
    ensures x >= 0.0 ==> n as real <= x < n as real + 1.0
    ensures x < 0.0 ==> n as real - 1.0 < x <= n as real
  {
    if x >= 0.0 then x.Floor else -((-x).Floor)
  }

  /** The largest of the three cutoff-plus-skin radii. */
  function Max3(a: seq<real>): (m: real)
    requires |a| == 3
    ensures forall i :: 0 <= i < 3 ==> a[i] <= m
    ensures m == a[0] || m == a[1] || m == a[2]
  {
    if a[0] >= a[1] && a[0] >= a[2] then a[0] else if a[1] >= a[2] then a[1] else a[2]
  }

  /** Number of cells per dimension for a box and the largest cutoff-plus-skin radius. */
  function CellCount(box: real, maxCutSkin: real): int
    requires maxCutSkin > 0.0
  {
    TruncToInt(box / maxCutSkin)
  }

  /**
   * The cell count is the largest one whose cells are at least as long
   * as the largest cutoff-plus-skin radius.
   */
  lemma CellLengthCoversCutoff(box: real, m: real)
    requires box > 0.0 && m > 0.0
    requires CellCount(box, m) >= 1
    ensures box / (CellCount(box, m) as real) >= m
    ensures box / (CellCount(box, m) as real + 1.0) < m
  {
    var n := CellCount(box, m) as real;
    var q := box / m;
    assert n <= q < n + 1.0;
    QuotientTimesAbove(box, m, n);
    QuotientTimesBelow(box, m, n + 1.0);
    if box / n < m {
      QuotientTimesBelow(box, n, m);
    }
    if box / (n + 1.0) >= m {
      QuotientTimesAbove(box, n + 1.0, m);
    }
  }

  // ---------------------------------------------------------------
  // Cell of a position (compute_cell)
  // ---------------------------------------------------------------

  /** Cell index of a position: (unsigned)(r[i]/cell_length) % ncell per dimension. */
  function CellOf(r: Vector, cellLength: real, ncell: int): (c: CellIndex)
    requires cellLength > 0.0 && ncell > 0
    requires forall i :: 0 <= i < |r| ==> r[i] >= 0.0
    ensures |c| == |r|
    ensures forall i :: 0 <= i < |r| ==> 0 <= c[i] < ncell
  {
    seq(|r|, i requires 0 <= i < |r| => (r[i] / cellLength).Floor % ncell)
  }

  /** A coordinate inside the box lies within the extent of its cell. */
  lemma CellOfLocates(r: Vector, cellLength: real, ncell: int, i: nat)
    requires cellLength > 0.0 && ncell > 0
    requires forall j :: 0 <= j < |r| ==> r[j] >= 0.0
    requires i < |r| && r[i] < (ncell as real) * cellLength
    ensures (CellOf(r, cellLength, ncell)[i] as real) * cellLength <= r[i]
    ensures r[i] < (CellOf(r, cellLength, ncell)[i] as real + 1.0) * cellLength
  {
    var fl := (r[i] / cellLength).Floor;
    CoordLocates(r[i], cellLength, ncell);
    SmallRemainder(fl, ncell);
    assert CellOf(r, cellLength, ncell)[i] == fl;
  }

  /** The cell coordinate of one component, before the wrap. */
  lemma CoordLocates(x: real, cellLength: real, ncell: int)
    requires cellLength > 0.0 && ncell > 0
    requires 0.0 <= x < (ncell as real) * cellLength
    ensures 0 <= (x / cellLength).Floor < ncell
    ensures ((x / cellLength).Floor as real) * cellLength <= x
    ensures x < ((x / cellLength).Floor as real + 1.0) * cellLength
  {
    var q := x / cellLength;
    var fl := q.Floor;
    if q >= ncell as real {
      QuotientTimesAbove(x, cellLength, ncell as real);
      assert false;
    }
    if q < 0.0 {
      QuotientTimesBelow(x, cellLength, 0.0);
      assert false;
    }
    QuotientTimesAbove(x, cellLength, fl as real);
    QuotientTimesBelow(x, cellLength, fl as real + 1.0);
  }

  /** x / l >= a means x >= a * l. */
  lemma QuotientTimesAbove(x: real, l: real, a: real)
    requires l > 0.0 && a <= x / l
    ensures a * l <= x
  {
    QuotTimes(x, l);
    MulWeak(a, x / l, l);
  }

  /** x / l < a means x < a * l. */
  lemma QuotientTimesBelow(x: real, l: real, a: real)
    requires l > 0.0 && x / l < a
    ensures x < a * l
  {
    QuotTimes(x, l);
    MulStrict(x / l, a, l);
  }

  lemma SmallRemainder(a: int, m: int)
    requires 0 <= a < m
    ensures a % m == a
  {
  }

  // ---------------------------------------------------------------
  // Neighbour offsets and the periodic wrap of cell indices
  // ---------------------------------------------------------------

  function NumOffsets(d: nat): nat
  {
    if d == 3 then 27 else 9
  }

  /** Position of the all-zero offset in the enumeration. */
  function MidOffset(d: nat): nat
  {
    if d == 3 then 13 else 4
  }

  /**
   * The k-th offset of {-1,0,1}^d in the order of the nested loops over
   * j[0], j[1] (and j[2]), the first component varying slowest.
   */
  function OffsetAt(d: nat, k: nat): (o: seq<int>)
    requires d == 2 || d == 3
    requires k < NumOffsets(d)
    ensures |o| == d
    ensures forall n :: 0 <= n < d ==> -1 <= o[n] <= 1
  {
    if d == 3 then [k / 9 - 1, (k / 3) % 3 - 1, k % 3 - 1] else [k / 3 - 1, k % 3 - 1]
  }

  /** Position of an offset in the enumeration (the inverse of OffsetAt). */
  function OffsetIndex(o: seq<int>): nat
    requires |o| == 2 || |o| == 3
    requires forall n :: 0 <= n < |o| ==> -1 <= o[n] <= 1
  {
    if |o| == 3 then (o[0] + 1) * 9 + (o[1] + 1) * 3 + (o[2] + 1)
    else (o[0] + 1) * 3 + (o[1] + 1)
  }

  predicate IsOffset(d: nat, o: seq<int>)
  {
    |o| == d && forall n :: 0 <= n < d ==> -1 <= o[n] <= 1
  }

  predicate IsZeroOffset(o: seq<int>)
  {
    forall n :: 0 <= n < |o| ==> o[n] == 0
  }

  function Negate(o: seq<int>): (m: seq<int>)
    ensures |m| == |o|
    ensures forall n :: 0 <= n < |o| ==> m[n] == -o[n]
  {
    seq(|o|, n requires 0 <= n < |o| => -o[n])
  }

  /** Lexicographically negative: the first nonzero component is negative. */
  predicate LexNegative(o: seq<int>)
  {
    |o| > 0 && (o[0] < 0 || (o[0] == 0 && LexNegative(o[1..])))
  }

  lemma Digits3(k: int, a: int, b: int, c: int)
    requires 0 <= a < 3 && 0 <= b < 3 && 0 <= c < 3 && k == 9 * a + 3 * b + c
    ensures k / 9 == a && (k / 3) % 3 == b && k % 3 == c
  {
  }

  lemma Digits2(k: int, a: int, b: int)
    requires 0 <= a < 3 && 0 <= b < 3 && k == 3 * a + b
    ensures k / 3 == a && k % 3 == b
  {
  }

  /** OffsetIndex and OffsetAt are inverse bijections between offsets and [0, 3^d). */
  lemma OffsetIndexRoundTrip(o: seq<int>)
    requires |o| == 2 || |o| == 3
    requires IsOffset(|o|, o)
    ensures OffsetIndex(o) < NumOffsets(|o|)
    ensures OffsetAt(|o|, OffsetIndex(o)) == o
  {
    if |o| == 3 {
      Digits3(OffsetIndex(o), o[0] + 1, o[1] + 1, o[2] + 1);
    } else {
      Digits2(OffsetIndex(o), o[0] + 1, o[1] + 1);
    }
  }

  lemma OffsetAtIndex(d: nat, k: nat)
    requires d == 2 || d == 3
    requires k < NumOffsets(d)
    ensures OffsetIndex(OffsetAt(d, k)) == k
  {
  }

  /**
   * The enumeration of offsets meets the all-zero offset exactly at the
   * middle position; the offsets before it are exactly the
   * lexicographically negative ones; and the offset mirrored through the
   * middle is the negated offset.
   */
  lemma OffsetHalves(d: nat, k: nat)
    requires d == 2 || d == 3
    requires k < NumOffsets(d)
    ensures IsZeroOffset(OffsetAt(d, k)) <==> k == MidOffset(d)
    ensures LexNegative(OffsetAt(d, k)) <==> k < MidOffset(d)
    ensures Negate(OffsetAt(d, k)) == OffsetAt(d, NumOffsets(d) - 1 - k)
  {
    if d == 3 {
      OffsetOrder3(k);
      OffsetNegate3(k);
    } else {
      OffsetOrder2(k);
      OffsetNegate2(k);
    }
  }

  lemma OffsetOrder3(k: nat)
    requires k < 27
    ensures IsZeroOffset(OffsetAt(3, k)) <==> k == 13
    ensures LexNegative(OffsetAt(3, k)) <==> k < 13
  {
    var o := OffsetAt(3, k);
    var a, b, c := k / 9, (k / 3) % 3, k % 3;
    assert k == 9 * a + 3 * b + c;
    assert o == [a - 1, b - 1, c - 1];
    assert o[1..] == [b - 1, c - 1];
    assert o[1..][1..] == [c - 1];
    assert o[1..][1..][1..] == [];
    assert LexNegative(o[1..][1..]) <==> c == 0;
    assert LexNegative(o[1..]) <==> b == 0 || (b == 1 && c == 0);
    assert IsZeroOffset(o) <==> (a == 1 && b == 1 && c == 1);
  }

  lemma OffsetNegate3(k: nat)
    requires k < 27
    ensures Negate(OffsetAt(3, k)) == OffsetAt(3, 26 - k)
  {
    var a, b, c := k / 9, (k / 3) % 3, k % 3;
    assert k == 9 * a + 3 * b + c;
    Digits3(26 - k, 2 - a, 2 - b, 2 - c);
    assert OffsetAt(3, 26 - k) == [1 - a, 1 - b, 1 - c];
  }

  lemma OffsetOrder2(k: nat)
    requires k < 9
    ensures IsZeroOffset(OffsetAt(2, k)) <==> k == 4
    ensures LexNegative(OffsetAt(2, k)) <==> k < 4
  {
    var o := OffsetAt(2, k);
    var a, b := k / 3, k % 3;
    assert k == 3 * a + b;
    assert o == [a - 1, b - 1];
    assert o[1..] == [b - 1];
    assert o[1..][1..] == [];
    assert LexNegative(o[1..]) <==> b == 0;
    assert IsZeroOffset(o) <==> (a == 1 && b == 1);
  }

  lemma OffsetNegate2(k: nat)
    requires k < 9
    ensures Negate(OffsetAt(2, k)) == OffsetAt(2, 8 - k)
  {
    var a, b := k / 3, k % 3;
    assert k == 3 * a + b;
    Digits2(8 - k, 2 - a, 2 - b);
    assert OffsetAt(2, 8 - k) == [1 - a, 1 - b];
  }

  /** Neighbour cell index (i[n] + ncell + j[n]) % ncell per dimension. */
  function NeighbourCell(i: CellIndex, j: seq<int>, ncell: int): (k: CellIndex)
    requires ncell > 0 && |j| == |i|
    ensures |k| == |i|
    ensures forall n :: 0 <= n < |i| ==> 0 <= k[n] < ncell
  {
    seq(|i|, n requires 0 <= n < |i| => (i[n] + ncell + j[n]) % ncell)
  }

  predicate ValidCell(i: CellIndex, d: nat, ncell: int)
  {
    |i| == d && forall n :: 0 <= n < d ==> 0 <= i[n] < ncell
  }

  /** One wrapped component in closed form. */
  lemma ShiftComp(x: int, a: int, n: int)
    requires n >= 3 && 0 <= x < n && -1 <= a <= 1
    ensures (x + n + a) % n == (if x + a < 0 then x + a + n else if x + a >= n then x + a - n else x + a)
  {
    var y := x + n + a;
    assert 0 <= y <= 2 * n;
    if y < n {
      assert y % n == y;
    } else if y < 2 * n {
      assert (y - n) % n == y % n;
      assert (y - n) % n == y - n;
    } else {
      assert y % n == 0;
    }
  }

  /** Shifting twice returns to the start iff the two offsets cancel. */
  lemma ShiftTwice(x: int, a: int, b: int, n: int)
    requires n >= 3 && 0 <= x < n && -1 <= a <= 1 && -1 <= b <= 1
    ensures 0 <= (x + n + a) % n < n
    ensures (((x + n + a) % n) + n + b) % n == x <==> a + b == 0
  {
    ShiftComp(x, a, n);
    var z := (x + n + a) % n;
    ShiftComp(z, b, n);
  }

  /** With at least three cells per dimension, distinct offsets lead to distinct cells. */
  lemma NeighbourCellInjective(i: CellIndex, j1: seq<int>, j2: seq<int>, ncell: int)
    requires ncell >= 3
    requires ValidCell(i, |i|, ncell) && IsOffset(|i|, j1) && IsOffset(|i|, j2)
    requires NeighbourCell(i, j1, ncell) == NeighbourCell(i, j2, ncell)
    ensures j1 == j2
  {
    forall n | 0 <= n < |i|
      ensures j1[n] == j2[n]
    {
      ShiftComp(i[n], j1[n], ncell);
      ShiftComp(i[n], j2[n], ncell);
      assert NeighbourCell(i, j1, ncell)[n] == NeighbourCell(i, j2, ncell)[n];
    }
  }

  /** The all-zero offset leads back to the cell itself. */
  lemma NeighbourCellZero(i: CellIndex, j: seq<int>, ncell: int)
    requires ncell >= 3
    requires ValidCell(i, |i|, ncell) && IsOffset(|i|, j) && IsZeroOffset(j)
    ensures NeighbourCell(i, j, ncell) == i
  {
    forall n | 0 <= n < |i|
      ensures NeighbourCell(i, j, ncell)[n] == i[n]
    {
      ShiftComp(i[n], j[n], ncell);
    }
  }

  /**
   * Going to a neighbour cell and from there back to the start is
   * possible only with the negated offset, and the negated offset does it.
   */
  lemma NeighbourCellReturn(i: CellIndex, j1: seq<int>, j2: seq<int>, ncell: int)
    requires ncell >= 3
    requires ValidCell(i, |i|, ncell) && IsOffset(|i|, j1) && IsOffset(|i|, j2)
    ensures NeighbourCell(NeighbourCell(i, j1, ncell), j2, ncell) == i <==> j2 == Negate(j1)
  {
    var k := NeighbourCell(i, j1, ncell);
    var l := NeighbourCell(k, j2, ncell);
    forall n | 0 <= n < |i|
      ensures l[n] == i[n] <==> j1[n] + j2[n] == 0
    {
      ShiftTwice(i[n], j1[n], j2[n], ncell);
    }
    if j2 == Negate(j1) {
      assert forall n :: 0 <= n < |i| ==> l[n] == i[n];
    }
    if l == i {
      assert forall n :: 0 <= n < |i| ==> j2[n] == Negate(j1)[n];
    }
  }

  // ---------------------------------------------------------------
  // Cell lists (update_cells)
  // ---------------------------------------------------------------

  function CellOfSite(g: Geometry, p: Site): (c: CellIndex)
    requires ValidGeometry(g) && ValidSite(g, p)
    ensures ValidCell(c, g.dim, g.ncell)
  {
    CellOf(p.r, g.cellLength, g.ncell)
  }

  /** The list of a cell; a cell without an entry is empty. */
  function Lookup(cells: map<CellIndex, seq<nat>>, c: CellIndex): seq<nat>
  {
    if c in cells then cells[c] else []
  }

  /**
   * The particles among the first n that fall into cell c, in increasing
   * index order: the order in which update_cells appends them.
   */
  function CellMembers(g: Geometry, ps: seq<Site>, c: CellIndex, n: nat): seq<nat>
    requires ValidGeometry(g) && ValidSites(g, ps) && n <= |ps|
  {
    if n == 0 then []
    else CellMembers(g, ps, c, n - 1) + (if CellOfSite(g, ps[n - 1]) == c then [n - 1] else [])
  }

  /** A particle is listed in cell c iff it is one of the first n and its position falls into c. */
  lemma {:induction false} CellMembersSpec(g: Geometry, ps: seq<Site>, c: CellIndex, n: nat, k: nat)
    requires ValidGeometry(g) && ValidSites(g, ps) && n <= |ps| && k < |ps|
    ensures k in CellMembers(g, ps, c, n) <==> k < n && CellOfSite(g, ps[k]) == c
  {
    if n > 0 {
      CellMembersSpec(g, ps, c, n - 1, k);
    }
  }

  /** The cell lists hold exactly the particles of each cell. */
  ghost predicate CellsConsistent(g: Geometry, ps: seq<Site>, cells: map<CellIndex, seq<nat>>)
  {
    ValidGeometry(g) && ValidSites(g, ps)
    && forall c :: Lookup(cells, c) == CellMembers(g, ps, c, |ps|)
  }

  lemma CellsConsistentLookup(g: Geometry, ps: seq<Site>, cells: map<CellIndex, seq<nat>>, c: CellIndex, q: nat)
    requires CellsConsistent(g, ps, cells)
    ensures q in Lookup(cells, c) <==> q < |ps| && CellOfSite(g, ps[q]) == c
  {
    if q < |ps| {
      CellMembersSpec(g, ps, c, |ps|, q);
    } else {
      CellMembersBound(g, ps, c, |ps|);
    }
  }

  lemma {:induction false} CellMembersBound(g: Geometry, ps: seq<Site>, c: CellIndex, n: nat)
    requires ValidGeometry(g) && ValidSites(g, ps) && n <= |ps|
    ensures IndicesIn(CellMembers(g, ps, c, n), n)
  {
    if n > 0 {
      CellMembersBound(g, ps, c, n - 1);
    }
  }

  // ---------------------------------------------------------------
  // Neighbour lists (update_cell_neighbours, compute_cell_neighbours)
  // ---------------------------------------------------------------

  /** Index of the cutoff of a pair: the sum of the species when binary, else 0. */
  function PairType(binary: bool, a: nat, b: nat): nat
  {
    if binary then a + b else 0
  }

  /** Squared minimum-image distance between two particles. */
  function ImageDistSq(g: Geometry, p: Site, q: Site): real
    requires |p.r| == |q.r|
  {
    var d := MinImage(Sub(p.r, q.r), g.box);
    Dot(d, d)
  }

  /**
   * compute_cell_neighbours accepts p2 for p1 unless, in the same cell,
   * p2's tag is not above p1's, and only within the cutoff plus skin.
   */
  predicate Accepts(g: Geometry, p1: Site, p2: Site, sameCell: bool)
    requires ValidGeometry(g) && ValidSite(g, p1) && ValidSite(g, p2)
  {
    !(sameCell && p2.tag <= p1.tag)
    && ImageDistSq(g, p1, p2) < g.rrCutSkin[PairType(g.binary, p1.ptype, p2.ptype)]
  }

  predicate IndicesIn(list: seq<nat>, n: nat)
  {
    forall j :: 0 <= j < |list| ==> list[j] < n
  }

  ghost predicate CellsInRange(cells: map<CellIndex, seq<nat>>, n: nat)
  {
    forall c :: c in cells ==> IndicesIn(cells[c], n)
  }

  /** The partners compute_cell_neighbours appends for p1 from one cell list, in list order. */
  function Candidates(g: Geometry, ps: seq<Site>, p1: nat, list: seq<nat>, sameCell: bool): seq<nat>
    requires ValidGeometry(g) && ValidSites(g, ps) && p1 < |ps| && IndicesIn(list, |ps|)
  {
    if |list| == 0 then []
    else
      var q := list[|list| - 1];
      Candidates(g, ps, p1, list[..|list| - 1], sameCell)
        + (if Accepts(g, ps[p1], ps[q], sameCell) then [q] else [])
  }

  lemma {:induction false} CandidatesSpec(g: Geometry, ps: seq<Site>, p1: nat, list: seq<nat>, sameCell: bool, q: nat)
    requires ValidGeometry(g) && ValidSites(g, ps) && p1 < |ps| && IndicesIn(list, |ps|)
    ensures q in Candidates(g, ps, p1, list, sameCell) <==> q in list && Accepts(g, ps[p1], ps[q], sameCell)
  {
    if |list| > 0 {
      var init := list[..|list| - 1];
      assert list == init + [list[|list| - 1]];
      CandidatesSpec(g, ps, p1, init, sameCell, q);
    }
  }

  /** Partners from the neighbour cells at the first k offsets of the half shell around cell i. */
  function HalfShell(g: Geometry, ps: seq<Site>, cells: map<CellIndex, seq<nat>>, p1: nat, i: CellIndex, k: nat): seq<nat>
    requires ValidGeometry(g) && ValidSites(g, ps) && p1 < |ps| && CellsInRange(cells, |ps|)
    requires ValidCell(i, g.dim, g.ncell) && k <= MidOffset(g.dim)
  {
    if k == 0 then []
    else
      HalfShell(g, ps, cells, p1, i, k - 1)
        + Candidates(g, ps, p1, Lookup(cells, NeighbourCell(i, OffsetAt(g.dim, k - 1), g.ncell)), false)
  }

  /**
   * The neighbour list update_cell_neighbours builds for p1 in cell i: the
   * half shell of neighbour cells, then p1's own cell.
   */
  function NeighbourListAt(g: Geometry, ps: seq<Site>, cells: map<CellIndex, seq<nat>>, p1: nat, i: CellIndex): seq<nat>
    requires ValidGeometry(g) && ValidSites(g, ps) && p1 < |ps| && CellsInRange(cells, |ps|)
    requires ValidCell(i, g.dim, g.ncell)
  {
    HalfShell(g, ps, cells, p1, i, MidOffset(g.dim)) + Candidates(g, ps, p1, Lookup(cells, i), true)
  }

  /** The neighbour list of p1, built from the cell its position falls into. */
  function NeighbourList(g: Geometry, ps: seq<Site>, cells: map<CellIndex, seq<nat>>, p1: nat): seq<nat>
    requires ValidGeometry(g) && ValidSites(g, ps) && p1 < |ps| && CellsInRange(cells, |ps|)
  {
    NeighbourListAt(g, ps, cells, p1, CellOfSite(g, ps[p1]))
  }

  lemma {:induction false} HalfShellSpec(g: Geometry, ps: seq<Site>, cells: map<CellIndex, seq<nat>>, p1: nat, i: CellIndex, k: nat, q: nat)
    requires ValidGeometry(g) && ValidSites(g, ps) && p1 < |ps| && CellsInRange(cells, |ps|)
    requires ValidCell(i, g.dim, g.ncell) && k <= MidOffset(g.dim)
    ensures q in HalfShell(g, ps, cells, p1, i, k) <==>
      exists kk :: 0 <= kk < k && q in Lookup(cells, NeighbourCell(i, OffsetAt(g.dim, kk), g.ncell))
                   && Accepts(g, ps[p1], ps[q], false)
  {
    if k > 0 {
      HalfShellSpec(g, ps, cells, p1, i, k - 1, q);
      CandidatesSpec(g, ps, p1, Lookup(cells, NeighbourCell(i, OffsetAt(g.dim, k - 1), g.ncell)), false, q);
    }
  }

  lemma ConsistentInRange(g: Geometry, ps: seq<Site>, cells: map<CellIndex, seq<nat>>)
    requires CellsConsistent(g, ps, cells)
    ensures CellsInRange(cells, |ps|)
  {
    forall c | c in cells
      ensures IndicesIn(cells[c], |ps|)
    {
      assert Lookup(cells, c) == cells[c];
      CellMembersBound(g, ps, c, |ps|);
    }
  }

  /**
   * With consistent cell lists, q is in p's neighbour list iff q's cell is
   * one of the half-shell neighbour cells of p's cell and q is within the
   * cutoff plus skin, or q shares p's cell, has a larger tag and is within
   * the cutoff plus skin.
   */
  lemma NeighbourListSpec(g: Geometry, ps: seq<Site>, cells: map<CellIndex, seq<nat>>, p: nat, q: nat)
    requires CellsConsistent(g, ps, cells) && p < |ps| && q < |ps|
    ensures CellsInRange(cells, |ps|)
    ensures q in NeighbourList(g, ps, cells, p) <==>
      (exists kk :: 0 <= kk < MidOffset(g.dim)
          && CellOfSite(g, ps[q]) == NeighbourCell(CellOfSite(g, ps[p]), OffsetAt(g.dim, kk), g.ncell)
          && Accepts(g, ps[p], ps[q], false))
      || (CellOfSite(g, ps[q]) == CellOfSite(g, ps[p]) && Accepts(g, ps[p], ps[q], true))
  {
    ConsistentInRange(g, ps, cells);
    var i := CellOfSite(g, ps[p]);
    HalfShellSpec(g, ps, cells, p, i, MidOffset(g.dim), q);
    CandidatesSpec(g, ps, p, Lookup(cells, i), true, q);
    CellsConsistentLookup(g, ps, cells, i, q);
    forall kk | 0 <= kk < MidOffset(g.dim)
      ensures q in Lookup(cells, NeighbourCell(i, OffsetAt(g.dim, kk), g.ncell))
          <==> CellOfSite(g, ps[q]) == NeighbourCell(i, OffsetAt(g.dim, kk), g.ncell)
    {
      CellsConsistentLookup(g, ps, cells, NeighbourCell(i, OffsetAt(g.dim, kk), g.ncell), q);
    }
  }

  /** A half-shell offset never leads back to the particle's own cell. */
  lemma HalfShellNotOwnCell(g: Geometry, i: CellIndex, kk: nat)
    requires ValidGeometry(g) && ValidCell(i, g.dim, g.ncell) && kk < MidOffset(g.dim)
    ensures NeighbourCell(i, OffsetAt(g.dim, kk), g.ncell) != i
  {
    var z := OffsetAt(g.dim, MidOffset(g.dim));
    OffsetHalves(g.dim, MidOffset(g.dim));
    OffsetHalves(g.dim, kk);
    NeighbourCellZero(i, z, g.ncell);
    if NeighbourCell(i, OffsetAt(g.dim, kk), g.ncell) == i {
      NeighbourCellInjective(i, OffsetAt(g.dim, kk), z, g.ncell);
      assert false;
    }
  }

  /** No particle is its own neighbour. */
  lemma NeighbourListNoSelf(g: Geometry, ps: seq<Site>, cells: map<CellIndex, seq<nat>>, p: nat)
    requires CellsConsistent(g, ps, cells) && p < |ps|
    ensures CellsInRange(cells, |ps|)
    ensures p !in NeighbourList(g, ps, cells, p)
  {
    NeighbourListSpec(g, ps, cells, p, p);
    var i := CellOfSite(g, ps[p]);
    forall kk | 0 <= kk < MidOffset(g.dim)
      ensures NeighbourCell(i, OffsetAt(g.dim, kk), g.ncell) != i
    {
      HalfShellNotOwnCell(g, i, kk);
    }
  }

  /** Every listed neighbour lies within the cutoff plus skin of its pair type. */
  lemma NeighbourListCutoff(g: Geometry, ps: seq<Site>, cells: map<CellIndex, seq<nat>>, p: nat, q: nat)
    requires CellsConsistent(g, ps, cells) && p < |ps| && q < |ps|
    ensures CellsInRange(cells, |ps|)
    ensures q in NeighbourList(g, ps, cells, p) ==>
      ImageDistSq(g, ps[p], ps[q]) < g.rrCutSkin[PairType(g.binary, ps[p].ptype, ps[q].ptype)]
  {
    NeighbourListSpec(g, ps, cells, p, q);
  }

  /** The squared image distance and the pair type do not depend on the order of the pair. */
  lemma ImageDistSqSymmetric(g: Geometry, p: Site, q: Site)
    requires ValidGeometry(g) && |p.r| == |q.r|
    ensures ImageDistSq(g, p, q) == ImageDistSq(g, q, p)
  {
    var d := Sub(p.r, q.r);
    assert Sub(q.r, p.r) == Scale(d, -1.0);
    MinImageOdd(d, g.box);
    DotNeg(MinImage(d, g.box));
  }

  lemma AcceptsAcrossCells(g: Geometry, p: Site, q: Site)
    requires ValidGeometry(g) && ValidSite(g, p) && ValidSite(g, q)
    ensures Accepts(g, p, q, false) <==> Accepts(g, q, p, false)
  {
    ImageDistSqSymmetric(g, p, q);
  }

  /** The offset taking a half-shell neighbour cell back is not in the half shell. */
  lemma HalfShellReturn(g: Geometry, i: CellIndex, k1: nat, k2: nat)
    requires ValidGeometry(g) && ValidCell(i, g.dim, g.ncell)
    requires k1 < MidOffset(g.dim) && k2 < MidOffset(g.dim)
    ensures NeighbourCell(NeighbourCell(i, OffsetAt(g.dim, k1), g.ncell), OffsetAt(g.dim, k2), g.ncell) != i
  {
    var o1, o2 := OffsetAt(g.dim, k1), OffsetAt(g.dim, k2);
    NeighbourCellReturn(i, o1, o2, g.ncell);
    OffsetHalves(g.dim, k1);
    if o2 == Negate(o1) {
      OffsetAtIndex(g.dim, k2);
      OffsetAtIndex(g.dim, NumOffsets(g.dim) - 1 - k1);
      assert false;
    }
  }

  /** No pair appears in both partners' neighbour lists. */
  lemma NeighbourListNoPairTwice(g: Geometry, ps: seq<Site>, cells: map<CellIndex, seq<nat>>, p: nat, q: nat)
    requires CellsConsistent(g, ps, cells) && p < |ps| && q < |ps|
    ensures CellsInRange(cells, |ps|)
    ensures !(q in NeighbourList(g, ps, cells, p) && p in NeighbourList(g, ps, cells, q))
  {
    NeighbourListSpec(g, ps, cells, p, q);
    NeighbourListSpec(g, ps, cells, q, p);
    var cp, cq := CellOfSite(g, ps[p]), CellOfSite(g, ps[q]);
    if q in NeighbourList(g, ps, cells, p) && p in NeighbourList(g, ps, cells, q) {
      if cq == cp {
        forall kk | 0 <= kk < MidOffset(g.dim)
          ensures NeighbourCell(cp, OffsetAt(g.dim, kk), g.ncell) != cp
        {
          HalfShellNotOwnCell(g, cp, kk);
        }
        assert false;
      } else {
        var k1 :| 0 <= k1 < MidOffset(g.dim) && cq == NeighbourCell(cp, OffsetAt(g.dim, k1), g.ncell);
        var k2 :| 0 <= k2 < MidOffset(g.dim) && cp == NeighbourCell(cq, OffsetAt(g.dim, k2), g.ncell);
        HalfShellReturn(g, cp, k1, k2);
        assert false;
      }
    }
  }

  /** A partner in a half-shell cell within the cutoff plus skin is listed. */
  lemma NeighbourListShellIntro(g: Geometry, ps: seq<Site>, cells: map<CellIndex, seq<nat>>, p: nat, q: nat, kk: nat)
    requires CellsConsistent(g, ps, cells) && p < |ps| && q < |ps| && kk < MidOffset(g.dim)
    requires CellOfSite(g, ps[q]) == NeighbourCell(CellOfSite(g, ps[p]), OffsetAt(g.dim, kk), g.ncell)
    requires Accepts(g, ps[p], ps[q], false)
    ensures CellsInRange(cells, |ps|)
    ensures q in NeighbourList(g, ps, cells, p)
  {
    ConsistentInRange(g, ps, cells);
    var i := CellOfSite(g, ps[p]);
    CellsConsistentLookup(g, ps, cells, NeighbourCell(i, OffsetAt(g.dim, kk), g.ncell), q);
    HalfShellSpec(g, ps, cells, p, i, MidOffset(g.dim), q);
  }

  /** A partner in the own cell with a larger tag within the cutoff plus skin is listed. */
  lemma NeighbourListOwnIntro(g: Geometry, ps: seq<Site>, cells: map<CellIndex, seq<nat>>, p: nat, q: nat)
    requires CellsConsistent(g, ps, cells) && p < |ps| && q < |ps|
    requires CellOfSite(g, ps[q]) == CellOfSite(g, ps[p])
    requires Accepts(g, ps[p], ps[q], true)
    ensures CellsInRange(cells, |ps|)
    ensures q in NeighbourList(g, ps, cells, p)
  {
    ConsistentInRange(g, ps, cells);
    var i := CellOfSite(g, ps[p]);
    CellsConsistentLookup(g, ps, cells, i, q);
    CandidatesSpec(g, ps, p, Lookup(cells, i), true, q);
  }

  /**
   * Every pair of distinct particles in the same or adjacent cells and
   * within the cutoff plus skin appears in at least one of the two
   * neighbour lists, provided tags are distinct.
   */
  lemma NeighbourListComplete(g: Geometry, ps: seq<Site>, cells: map<CellIndex, seq<nat>>, p: nat, q: nat, d: seq<int>)
    requires CellsConsistent(g, ps, cells) && p < |ps| && q < |ps|
    requires ps[p].tag != ps[q].tag
    requires IsOffset(g.dim, d)
    requires CellOfSite(g, ps[q]) == NeighbourCell(CellOfSite(g, ps[p]), d, g.ncell)
    requires ImageDistSq(g, ps[p], ps[q]) < g.rrCutSkin[PairType(g.binary, ps[p].ptype, ps[q].ptype)]
    ensures CellsInRange(cells, |ps|)
    ensures q in NeighbourList(g, ps, cells, p) || p in NeighbourList(g, ps, cells, q)
  {
    ConsistentInRange(g, ps, cells);
    var cp, cq := CellOfSite(g, ps[p]), CellOfSite(g, ps[q]);
    var k := OffsetIndex(d);
    OffsetIndexRoundTrip(d);
    OffsetHalves(g.dim, k);
    ImageDistSqSymmetric(g, ps[p], ps[q]);
    assert PairType(g.binary, ps[q].ptype, ps[p].ptype) == PairType(g.binary, ps[p].ptype, ps[q].ptype);
    if k == MidOffset(g.dim) {
      NeighbourCellZero(cp, d, g.ncell);
      if ps[p].tag < ps[q].tag {
        NeighbourListOwnIntro(g, ps, cells, p, q);
      } else {
        NeighbourListOwnIntro(g, ps, cells, q, p);
      }
    } else if k < MidOffset(g.dim) {
      NeighbourListShellIntro(g, ps, cells, p, q, k);
    } else {
      var k2 := NumOffsets(g.dim) - 1 - k;
      NeighbourCellReturn(cp, d, Negate(d), g.ncell);
      NeighbourListShellIntro(g, ps, cells, q, p, k2);
    }
  }
}
