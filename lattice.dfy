// The initial placement of the host Lennard-Jones fluid on a lattice: a
// square lattice with two sites per unit cell in two dimensions, a
// face-centred cubic lattice with four in three.  The number of unit cells
// per dimension is the truncated root of npart / m, raised by one when the
// lattice would be too small; site i sits in unit cell i / m at sub-site
// i mod m.
//
// The truncated floating-point root std::pow(npart / m, 1 / d) is a
// parameter of the as-written sizing; the shuffle of species and the
// sorting by species are not part of this model.

module FccLattice {
  import opened Vectors
  import LjFluid
  import Periodic

  /** Sites per unit cell, 2 (dimension − 1). */
  function UnitCellSites(dim: nat): (m: nat)
    requires dim == 2 || dim == 3
    ensures m == 2 || m == 4
  {
    2 * (dim - 1)
  }

  function IPow(n: nat, d: nat): nat
  {
    if d == 0 then 1 else n * IPow(n, d - 1)
  }

  /** The number of lattice sites m n^d with n unit cells per dimension. */
  function SiteCount(dim: nat, n: nat): nat
    requires dim == 2 || dim == 3
  {
    UnitCellSites(dim) * IPow(n, dim)
  }

  /** n is the exact truncated d-th root of q. */
  ghost predicate IsFloorRoot(n: nat, q: nat, d: nat)
  {
    IPow(n, d) <= q < IPow(n + 1, d)
  }

  // ---------------------------------------------------------------------------
  // Sizing

  /**
   * The sizing as written: the lower boundary `root` for the unit cells per
   * dimension, raised by one if it leaves fewer sites than particles.
   */
  function UnitCellsAsWritten(npart: nat, dim: nat, root: nat): (n: nat)
    requires dim == 2 || dim == 3
    ensures n == root || (n == root + 1 && SiteCount(dim, root) < npart)
    ensures npart > 0 ==> n > 0
  {
    if SiteCount(dim, root) < npart then root + 1 else root
  }

  /** The exact truncated root, searched upwards from n. */
  function FloorRootFrom(q: nat, d: nat, n: nat): (k: nat)
    requires d >= 1 && IPow(n, d) <= q
    ensures IsFloorRoot(k, q, d)
    decreases q - n
  {
    PowAtLeastBase(n + 1, d);
    if IPow(n + 1, d) > q then n else FloorRootFrom(q, d, n + 1)
  }

  function FloorRoot(q: nat, d: nat): (k: nat)
    requires d >= 1
    ensures IsFloorRoot(k, q, d)
  {
    PowOfZero(d);
    FloorRootFrom(q, d, 0)
  }

  /**
   * The sizing with the exact truncated root of npart / m, as the lower
   * boundary is meant to be.
   */
  function UnitCells(npart: nat, dim: nat): (n: nat)
    requires dim == 2 || dim == 3
  {
    UnitCellsAsWritten(npart, dim, FloorRoot(npart / UnitCellSites(dim), dim))
  }

  /** With the exact root, the lattice has room for every particle and is the smallest that does. */
  lemma UnitCellsSuffice(npart: nat, dim: nat)
    requires dim == 2 || dim == 3
    ensures SiteCount(dim, UnitCells(npart, dim)) >= npart
    ensures UnitCells(npart, dim) > 0 ==> SiteCount(dim, UnitCells(npart, dim) - 1) < npart
  {
    var m := UnitCellSites(dim);
    var root := FloorRoot(npart / m, dim);
    var n := UnitCells(npart, dim);
    if SiteCount(dim, root) < npart {
      SitesAbove(npart, m, IPow(n, dim));
    } else if n > 0 {
      PowStrictMono(n - 1, n, dim);
      SitesBelow(npart, m, IPow(n - 1, dim));
    }
  }

  /** p unit cells' worth of sites beyond npart / m hold every particle. */
  lemma SitesAbove(npart: nat, m: nat, p: nat)
    requires (m == 2 || m == 4) && p > npart / m
    ensures m * p >= npart
  {
    MulMono(m, npart / m + 1, p);
  }

  /** Fewer than npart / m cells' worth of sites cannot hold every particle. */
  lemma SitesBelow(npart: nat, m: nat, p: nat)
    requires (m == 2 || m == 4) && p < npart / m
    ensures m * p < npart
  {
    MulMono(m, p + 1, npart / m);
  }

  /**
   * 257 particles in three dimensions: npart / m is 64, whose cube root
   * std::pow rounds to 3.9999999999999996, truncated to 3.  One correction
   * step gives 4 cells per dimension and 256 sites for 257 particles.
   */
  lemma AsWrittenTooFewSites()
    ensures IsFloorRoot(4, 257 / UnitCellSites(3), 3)
    ensures UnitCellsAsWritten(257, 3, 3) == 4 && SiteCount(3, 4) == 256
  {
    assert IPow(4, 3) == 64 && IPow(5, 3) == 125 by {
      assert IPow(4, 1) == 4 && IPow(4, 2) == 16;
      assert IPow(5, 1) == 5 && IPow(5, 2) == 25;
    }
    assert SiteCount(3, 3) == 108 by {
      assert IPow(3, 1) == 3 && IPow(3, 2) == 9 && IPow(3, 3) == 27;
    }
  }

  /**
   * With 4 unit cells per dimension the 257th particle (index 256) lands at
   * (0, 0, 4) lattice units, the periodic image of particle 0 at the origin.
   */
  lemma ExtraParticleOnImageOfFirst()
    ensures LatticePoint(256, 4, 3) == [0.0, 0.0, 4.0]
    ensures LatticePoint(0, 4, 3) == [0.0, 0.0, 0.0]
  {
    assert Quot(64, 4) == 16 && Rem(64, 4) == 0;
    assert Quot(16, 4) == 4 && Rem(16, 4) == 0;
  }

  /** The exact sizing of the same system has 500 sites. */
  lemma ExactSizingOf257()
    ensures UnitCells(257, 3) == 5 && SiteCount(3, 5) == 500
  {
    AsWrittenTooFewSites();
    FloorRootUnique(FloorRoot(64, 3), 4, 64, 3);
    assert IPow(5, 3) == 125 by {
      assert IPow(5, 1) == 5 && IPow(5, 2) == 25;
    }
  }

  lemma FloorRootUnique(a: nat, b: nat, q: nat, d: nat)
    requires d >= 1 && IsFloorRoot(a, q, d) && IsFloorRoot(b, q, d)
    ensures a == b
  {
    if a < b {
      PowMono(a + 1, b, d);
    } else if b < a {
      PowMono(b + 1, a, d);
    }
  }

  // ---------------------------------------------------------------------------
  // Powers and products

  lemma {:induction false} MulMono(m: nat, x: nat, y: nat)
    requires x <= y
    ensures m * x <= m * y
  {
    if m > 0 {
      MulMono(m - 1, x, y);
      assert m * x == (m - 1) * x + x && m * y == (m - 1) * y + y;
    }
  }

  lemma {:induction false} PowOfZero(d: nat)
    requires d >= 1
    ensures IPow(0, d) == 0
  {
  }

  lemma {:induction false} PowAtLeastBase(n: nat, d: nat)
    requires d >= 1
    ensures IPow(n, d) >= n
  {
    if d > 1 {
      PowAtLeastBase(n, d - 1);
      if n > 0 {
        MulMono(n, 1, IPow(n, d - 1));
      }
    }
  }

  lemma {:induction false} PowMono(a: nat, b: nat, d: nat)
    requires a <= b
    ensures IPow(a, d) <= IPow(b, d)
  {
    if d > 0 {
      PowMono(a, b, d - 1);
      MulMono(a, IPow(a, d - 1), IPow(b, d - 1));
      MulMono(IPow(b, d - 1), a, b);
      assert a * IPow(b, d - 1) == IPow(b, d - 1) * a && b * IPow(b, d - 1) == IPow(b, d - 1) * b;
    }
  }

  lemma {:induction false} PowStrictMono(a: nat, b: nat, d: nat)
    requires a < b && d >= 1
    ensures IPow(a, d) < IPow(b, d)
  {
    if d == 1 {
      assert IPow(a, 1) == a && IPow(b, 1) == b;
    } else {
      PowStrictMono(a, b, d - 1);
      PowAtLeastBase(b, d - 1);
      MulMono(a, IPow(a, d - 1), IPow(b, d - 1));
      assert b * IPow(b, d - 1) == a * IPow(b, d - 1) + (b - a) * IPow(b, d - 1);
      MulMono(b - a, 1, IPow(b, d - 1));
    }
  }

  // ---------------------------------------------------------------------------
  // Sites

  /**
   * The site of index i in units of the lattice distance.  In three
   * dimensions unit cell c = i >> 2 is the triple (c mod n, (c / n) mod n,
   * c / n / n), and the sub-site adds half a unit along two axes, chosen by
   * the two low bits of i (bit 0 xor bit 1, bit 0, bit 1).  In two
   * dimensions c = i >> 1 is (c mod n, c / n), and the odd sites add half a
   * unit along both axes.
   */
  function LatticePoint(i: nat, n: nat, dim: nat): (p: Vector)
    requires (dim == 2 || dim == 3) && n > 0
    ensures |p| == dim
  {
    if dim == 3 then
      var c := i / 4;
      Point3(Rem(c, n), Rem(Quot(c, n), n), Quot(Quot(c, n), n), i % 2, (i / 2) % 2)
    else
      var c := i / 2;
      Point2(Rem(c, n), Quot(c, n), i % 2)
  }

  /** The fcc site of unit cell (x, y, z) whose index has low bits b0, b1. */
  function Point3(x: nat, y: nat, z: nat, b0: nat, b1: nat): (p: Vector)
    ensures |p| == 3
  {
    [ x as real + ((b0 + b1) % 2) as real / 2.0,
      y as real + b0 as real / 2.0,
      z as real + (2 * b1) as real / 4.0 ]
  }

  /** The site of unit cell (x, y) whose index has low bit b0. */
  function Point2(x: nat, y: nat, b0: nat): (p: Vector)
    ensures |p| == 2
  {
    [ x as real + b0 as real / 2.0, y as real + b0 as real / 2.0 ]
  }

  /** The site in half units of the lattice distance, an integer point. */
  function HalfUnits(i: nat, n: nat, dim: nat): (h: seq<nat>)
    requires (dim == 2 || dim == 3) && n > 0
    ensures |h| == dim
  {
    if dim == 3 then
      var c := i / 4;
      Half3(Rem(c, n), Rem(Quot(c, n), n), Quot(Quot(c, n), n), i % 2, (i / 2) % 2)
    else
      var c := i / 2;
      Half2(Rem(c, n), Quot(c, n), i % 2)
  }

  function Half3(x: nat, y: nat, z: nat, b0: nat, b1: nat): (h: seq<nat>)
    ensures |h| == 3
  {
    [2 * x + (b0 + b1) % 2, 2 * y + b0, 2 * z + b1]
  }

  function Half2(x: nat, y: nat, b0: nat): (h: seq<nat>)
    ensures |h| == 2
  {
    [2 * x + b0, 2 * y + b0]
  }

  lemma HalfUnits3(x: nat, y: nat, z: nat, b0: nat, b1: nat)
    ensures forall k :: 0 <= k < 3 ==> Point3(x, y, z, b0, b1)[k] == Half3(x, y, z, b0, b1)[k] as real / 2.0
  {
  }

  lemma HalfUnits2(x: nat, y: nat, b0: nat)
    ensures forall k :: 0 <= k < 2 ==> Point2(x, y, b0)[k] == Half2(x, y, b0)[k] as real / 2.0
  {
  }

  lemma PointOfHalfUnits(i: nat, n: nat, dim: nat)
    requires (dim == 2 || dim == 3) && n > 0
    ensures forall k :: 0 <= k < dim ==> LatticePoint(i, n, dim)[k] == HalfUnits(i, n, dim)[k] as real / 2.0
  {
    if dim == 3 {
      var c := i / 4;
      HalfUnits3(Rem(c, n), Rem(Quot(c, n), n), Quot(Quot(c, n), n), i % 2, (i / 2) % 2);
    } else {
      var c := i / 2;
      HalfUnits2(Rem(c, n), Quot(c, n), i % 2);
    }
  }

  /** The site index read back from a site's half units. */
  function SiteIndex(h: seq<nat>, n: nat, dim: nat): nat
    requires (dim == 2 || dim == 3) && |h| == dim
  {
    if dim == 3 then
      var b0, b1 := h[1] % 2, h[2] % 2;
      4 * (h[0] / 2 + n * (h[1] / 2 + n * (h[2] / 2))) + 2 * b1 + b0
    else
      2 * (h[0] / 2 + n * (h[1] / 2)) + h[0] % 2
  }

  lemma SiteIndex3(x: nat, y: nat, z: nat, b0: nat, b1: nat, n: nat)
    requires b0 < 2 && b1 < 2
    ensures SiteIndex(Half3(x, y, z, b0, b1), n, 3) == 4 * (x + n * (y + n * z)) + 2 * b1 + b0
  {
    var h := Half3(x, y, z, b0, b1);
    assert h[0] / 2 == x && h[1] / 2 == y && h[2] / 2 == z && h[1] % 2 == b0 && h[2] % 2 == b1;
  }

  lemma SiteIndex2(x: nat, y: nat, b0: nat, n: nat)
    requires b0 < 2
    ensures SiteIndex(Half2(x, y, b0), n, 2) == 2 * (x + n * y) + b0
  {
    var h := Half2(x, y, b0);
    assert h[0] / 2 == x && h[1] / 2 == y && h[0] % 2 == b0;
  }

  /** The unsigned quotient c / n, by repeated subtraction. */
  function Quot(c: nat, n: nat): nat
    requires n > 0
    decreases c
  {
    if c < n then 0 else 1 + Quot(c - n, n)
  }

  /** The unsigned remainder c mod n, by repeated subtraction. */
  function Rem(c: nat, n: nat): (r: nat)
    requires n > 0
    ensures r < n
    decreases c
  {
    if c < n then c else Rem(c - n, n)
  }

  lemma {:induction false} Euclid(c: nat, n: nat)
    requires n > 0
    ensures c == Rem(c, n) + n * Quot(c, n)
    decreases c
  {
    if c >= n {
      Euclid(c - n, n);
      assert n * Quot(c, n) == n + n * Quot(c - n, n);
    }
  }

  lemma MulEq(n: nat, a: nat, b: nat)
    requires a == b
    ensures n * a == n * b
  {
  }

  /** Every site index can be read back from its position. */
  lemma SiteIndexOfSite(i: nat, n: nat, dim: nat)
    requires (dim == 2 || dim == 3) && n > 0
    ensures SiteIndex(HalfUnits(i, n, dim), n, dim) == i
  {
    if dim == 3 {
      SiteIndexOfSite3(i, n);
    } else {
      SiteIndexOfSite2(i, n);
    }
  }

  lemma SiteIndexOfSite3(i: nat, n: nat)
    requires n > 0
    ensures SiteIndex(HalfUnits(i, n, 3), n, 3) == i
  {
    var c := i / 4;
    var q := Quot(c, n);
    var x, y, z := Rem(c, n), Rem(q, n), Quot(q, n);
    var b0, b1 := i % 2, (i / 2) % 2;
    assert HalfUnits(i, n, 3) == Half3(x, y, z, b0, b1);
    SiteIndex3(x, y, z, b0, b1, n);
    Euclid(q, n);
    Euclid(c, n);
    ComposeDigits(c, n, x, y, z, q);
    LowBits(i);
  }

  lemma SiteIndexOfSite2(i: nat, n: nat)
    requires n > 0
    ensures SiteIndex(HalfUnits(i, n, 2), n, 2) == i
  {
    var c := i / 2;
    var x, y := Rem(c, n), Quot(c, n);
    assert HalfUnits(i, n, 2) == Half2(x, y, i % 2);
    SiteIndex2(x, y, i % 2, n);
    Euclid(c, n);
  }

  lemma ComposeDigits(c: nat, n: nat, x: nat, y: nat, z: nat, q: nat)
    requires c == x + n * q && q == y + n * z
    ensures c == x + n * (y + n * z)
  {
    MulEq(n, q, y + n * z);
  }

  lemma LowBits(i: nat)
    ensures i == 4 * (i / 4) + 2 * ((i / 2) % 2) + i % 2
  {
    var q, r := i / 4, i % 4;
    assert i == 4 * q + r;
    assert i / 2 == 2 * q + r / 2;
    assert i % 2 == r % 2;
    assert (i / 2) % 2 == r / 2;
  }

  /** Distinct site indices are distinct sites: no two particles overlap. */
  lemma SitesDistinct(i: nat, j: nat, n: nat, dim: nat)
    requires (dim == 2 || dim == 3) && n > 0 && i != j
    ensures LatticePoint(i, n, dim) != LatticePoint(j, n, dim)
  {
    if LatticePoint(i, n, dim) == LatticePoint(j, n, dim) {
      var hi, hj := HalfUnits(i, n, dim), HalfUnits(j, n, dim);
      PointOfHalfUnits(i, n, dim);
      PointOfHalfUnits(j, n, dim);
      assert hi == hj by {
        forall k | 0 <= k < dim
          ensures hi[k] == hj[k]
        {
          assert LatticePoint(i, n, dim)[k] == LatticePoint(j, n, dim)[k];
        }
      }
      SiteIndexOfSite(i, n, dim);
      SiteIndexOfSite(j, n, dim);
    }
  }

  lemma DivBelow(x: nat, y: nat, k: nat)
    requires y > 0 && x < y * k
    ensures Quot(x, y) < k
  {
    Euclid(x, y);
    if Quot(x, y) >= k {
      MulMono(y, k, Quot(x, y));
    }
  }

  /** The sites of a lattice of n unit cells per dimension lie in [0, n) along every axis. */
  lemma SiteInsideLattice(i: nat, n: nat, dim: nat)
    requires (dim == 2 || dim == 3) && n > 0 && i < SiteCount(dim, n)
    ensures forall k :: 0 <= k < dim ==> 0.0 <= LatticePoint(i, n, dim)[k] < n as real
  {
    if dim == 3 {
      HalfUnitsBelow3(i, n);
    } else {
      HalfUnitsBelow2(i, n);
    }
    PointOfHalfUnits(i, n, dim);
    forall k | 0 <= k < dim
      ensures 0.0 <= LatticePoint(i, n, dim)[k] < n as real
    {
      HalfBelow(HalfUnits(i, n, dim)[k], n);
    }
  }

  lemma HalfUnitsBelow3(i: nat, n: nat)
    requires n > 0 && i < SiteCount(3, n)
    ensures forall k :: 0 <= k < 3 ==> HalfUnits(i, n, 3)[k] < 2 * n
  {
    var c := i / 4;
    assert IPow(n, 3) == n * (n * n) by {
      assert IPow(n, 1) == n;
    }
    assert c < n * (n * n);
    DivBelow(c, n, n * n);
    DivBelow(Quot(c, n), n, n);
  }

  lemma HalfUnitsBelow2(i: nat, n: nat)
    requires n > 0 && i < SiteCount(2, n)
    ensures forall k :: 0 <= k < 2 ==> HalfUnits(i, n, 2)[k] < 2 * n
  {
    var c := i / 2;
    assert IPow(n, 2) == n * n by {
      assert IPow(n, 1) == n;
    }
    DivBelow(c, n, n);
  }

  lemma HalfBelow(h: nat, n: nat)
    requires h < 2 * n
    ensures 0.0 <= h as real / 2.0 < n as real
  {
  }

  // ---------------------------------------------------------------------------
  // Placement

  /** The lattice distance box / n. */
  function LatticeDistance(box: real, n: nat): real
    requires n > 0
  {
    box / n as real
  }

  /** The position of site i in a box of n unit cells per dimension. */
  function SitePosition(i: nat, n: nat, dim: nat, box: real): (r: Vector)
    requires (dim == 2 || dim == 3) && n > 0
    ensures |r| == dim
  {
    Scale(LatticePoint(i, n, dim), LatticeDistance(box, n))
  }

  lemma ScaleCancels(p: Vector, q: Vector, a: real)
    requires |p| == |q| && a != 0.0 && Scale(p, a) == Scale(q, a)
    ensures p == q
  {
    forall k | 0 <= k < |p|
      ensures p[k] == q[k]
    {
      assert p[k] * a == q[k] * a;
    }
  }

  /**
   * Every coordinate in the half-open [0, box): no particle sits on the
   * upper face, where it would be the periodic image of one on the lower.
   */
  predicate InsideBox(rs: seq<Vector>, box: real)
  {
    forall k, c :: 0 <= k < |rs| && 0 <= c < |rs[k]| ==> 0.0 <= rs[k][c] < box
  }

  /** No two positions are periodic images of each other. */
  predicate NoPeriodicImages(rs: seq<Vector>, box: real)
    requires box > 0.0
  {
    forall i, j :: 0 <= i < j < |rs| ==> Periodic.MakePeriodic(rs[i], box) != Periodic.MakePeriodic(rs[j], box)
  }

  /**
   * The loop of lattice: with n unit cells per dimension and lattice
   * distance a = box / n, particle i is placed on site i.  The sites are
   * pairwise distinct and, when there are enough of them, lie in the
   * half-open box, so that none is the periodic image of another.
   */
  method PlaceParticles(npart: nat, dim: nat, box: real, n: nat) returns (r: seq<Vector>)
    requires (dim == 2 || dim == 3) && n > 0 && box > 0.0
    ensures |r| == npart && AllDim(r, dim)
    ensures forall i :: 0 <= i < npart ==> r[i] == SitePosition(i, n, dim, box)
    ensures forall i, j :: 0 <= i < j < npart ==> r[i] != r[j]
    ensures npart <= SiteCount(dim, n) ==> InsideBox(r, box) && LjFluid.InBox(r, box)
    ensures npart <= SiteCount(dim, n) ==> NoPeriodicImages(r, box)
  {
    var a := LatticeDistance(box, n);
    r := [];
    var i := 0;
    while i < npart
      invariant 0 <= i <= npart && |r| == i
      invariant forall k :: 0 <= k < i ==> r[k] == SitePosition(k, n, dim, box)
    {
      r := r + [Scale(LatticePoint(i, n, dim), a)];
      i := i + 1;
    }
    SitePositionsDistinct(r, npart, n, dim, box);
    if npart <= SiteCount(dim, n) {
      SitePositionsInBox(r, npart, n, dim, box);
      DistinctInsideNoImages(r, box);
    }
  }

  /** Distinct positions inside the half-open box are distinct after the periodic fold. */
  lemma DistinctInsideNoImages(rs: seq<Vector>, box: real)
    requires box > 0.0 && InsideBox(rs, box)
    requires forall i, j :: 0 <= i < j < |rs| ==> rs[i] != rs[j]
    ensures NoPeriodicImages(rs, box)
  {
    forall i, j | 0 <= i < j < |rs|
      ensures Periodic.MakePeriodic(rs[i], box) != Periodic.MakePeriodic(rs[j], box)
    {
      Periodic.MakePeriodicInsideUnchanged(rs[i], box);
      Periodic.MakePeriodicInsideUnchanged(rs[j], box);
    }
  }

  lemma SitePositionsDistinct(r: seq<Vector>, npart: nat, n: nat, dim: nat, box: real)
    requires (dim == 2 || dim == 3) && n > 0 && box > 0.0 && |r| == npart
    requires forall i :: 0 <= i < npart ==> r[i] == SitePosition(i, n, dim, box)
    ensures forall i, j :: 0 <= i < j < npart ==> r[i] != r[j]
  {
    forall i, j | 0 <= i < j < npart
      ensures r[i] != r[j]
    {
      SitesDistinct(i, j, n, dim);
      if r[i] == r[j] {
        QuotientPositive(box, n as real);
        ScaleCancels(LatticePoint(i, n, dim), LatticePoint(j, n, dim), LatticeDistance(box, n));
      }
    }
  }

  lemma SitePositionsInBox(r: seq<Vector>, npart: nat, n: nat, dim: nat, box: real)
    requires (dim == 2 || dim == 3) && n > 0 && box > 0.0 && |r| == npart && npart <= SiteCount(dim, n)
    requires forall i :: 0 <= i < npart ==> r[i] == SitePosition(i, n, dim, box)
    ensures InsideBox(r, box) && LjFluid.InBox(r, box)
  {
    forall k | 0 <= k < npart
      ensures forall c :: 0 <= c < dim ==> 0.0 <= r[k][c] < box
    {
      SiteInBox(k, n, dim, box);
    }
  }

  lemma SiteInBox(k: nat, n: nat, dim: nat, box: real)
    requires (dim == 2 || dim == 3) && n > 0 && box > 0.0 && k < SiteCount(dim, n)
    ensures forall c :: 0 <= c < dim ==> 0.0 <= SitePosition(k, n, dim, box)[c] < box
  {
    SiteInsideLattice(k, n, dim);
    ScaledWithinBox(LatticePoint(k, n, dim), n, box);
  }

  lemma ScaledWithinBox(p: Vector, n: nat, box: real)
    requires n > 0 && box > 0.0 && forall c :: 0 <= c < |p| ==> 0.0 <= p[c] < n as real
    ensures forall c :: 0 <= c < |p| ==> 0.0 <= Scale(p, LatticeDistance(box, n))[c] < box
  {
    forall c | 0 <= c < |p|
      ensures 0.0 <= Scale(p, LatticeDistance(box, n))[c] < box
    {
      ScaleWithinBox(p[c], n, box);
    }
  }

  lemma ScaleWithinBox(x: real, n: nat, box: real)
    requires n > 0 && 0.0 <= x < n as real && box > 0.0
    ensures 0.0 <= x * LatticeDistance(box, n) < box
  {
    var l, a := n as real, LatticeDistance(box, n);
    assert l * a == box;
    assert x * a < l * a;
  }

  lemma QuotientPositive(box: real, l: real)
    requires box > 0.0 && l > 0.0
    ensures box / l > 0.0
  {
  }

  /**
   * lattice: n from the sizing, then every particle on its own site inside
   * the half-open box, no two of them periodic images of each other.
   */
  method Lattice(npart: nat, dim: nat, box: real) returns (n: nat, r: seq<Vector>)
    requires (dim == 2 || dim == 3) && npart > 0 && box > 0.0
    ensures n == UnitCells(npart, dim) && SiteCount(dim, n) >= npart
    ensures |r| == npart && AllDim(r, dim) && LjFluid.InBox(r, box)
    ensures InsideBox(r, box) && NoPeriodicImages(r, box)
    ensures forall i :: 0 <= i < npart ==> r[i] == SitePosition(i, n, dim, box)
    ensures forall i, j :: 0 <= i < j < npart ==> r[i] != r[j]
  {
    n := UnitCells(npart, dim);
    UnitCellsSuffice(npart, dim);
    r := PlaceParticles(npart, dim, box, n);
  }
}
