// Periodic boundary conditions of a cubic box of edge length `box`:
// the fold of a coordinate into [0, box) used by the ljgpu code
// (r - floor(r/box)*box), and the single-wrap minimum-image reduction
// that the host Lennard-Jones fluid applies to pair separations.

module Periodic {
  import opened Vectors

  /** One coordinate folded into the box: x - floor(x/box)*box. */
  function FoldComp(x: real, box: real): real
    requires box > 0.0
  {
    x - ((x / box).Floor as real) * box
  }

  /** make_periodic: every component folded into the box. */
  function MakePeriodic(r: Vector, box: real): (p: Vector)
    requires box > 0.0
    ensures |p| == |r|
    ensures forall i :: 0 <= i < |r| ==> p[i] == FoldComp(r[i], box)
  {
    seq(|r|, i requires 0 <= i < |r| => FoldComp(r[i], box))
  }

  lemma MulStrict(a: real, b: real, c: real)
    requires c > 0.0 && a < b
    ensures a * c < b * c
  {
  }

  lemma MulWeak(a: real, b: real, c: real)
    requires c > 0.0 && a <= b
    ensures a * c <= b * c
  {
  }

  lemma QuotTimes(x: real, box: real)
    requires box > 0.0
    ensures (x / box) * box == x
  {
  }

  lemma FloorOfQuotient(x: real, box: real)
    requires box > 0.0
    ensures ((x / box).Floor as real) * box <= x
    ensures x < ((x / box).Floor as real) * box + box
  {
    var q := x / box;
    var fl := q.Floor as real;
    QuotTimes(x, box);
    MulWeak(fl, q, box);
    MulStrict(q, fl + 1.0, box);
    assert (fl + 1.0) * box == fl * box + box;
    assert x < (fl + 1.0) * box;
  }

  /** A folded coordinate lies in [0, box). */
  lemma FoldInBox(x: real, box: real)
    requires box > 0.0
    ensures 0.0 <= FoldComp(x, box) < box
  {
    FloorOfQuotient(x, box);
  }

  /** A coordinate already inside the box is returned unchanged. */
  lemma FoldInsideUnchanged(x: real, box: real)
    requires box > 0.0
    requires 0.0 <= x < box
    ensures FoldComp(x, box) == x
  {
    var q := x / box;
    QuotTimes(x, box);
    if q >= 1.0 {
      MulWeak(1.0, q, box);
      assert false;
    }
    if q < 0.0 {
      MulStrict(q, 0.0, box);
      assert false;
    }
    assert q.Floor == 0;
  }

  /** Shifting by a whole number of box lengths does not change the fold. */
  lemma FoldPeriodic(x: real, k: int, box: real)
    requires box > 0.0
    ensures FoldComp(x + (k as real) * box, box) == FoldComp(x, box)
  {
    var y := x + (k as real) * box;
    QuotShift(x, (k as real) * box, k as real, box);
    FloorShift(x / box, k);
    assert (y / box).Floor == (x / box).Floor + k;
    Distribute((x / box).Floor as real, k as real, box);
  }

  lemma Distribute(a: real, b: real, c: real)
    ensures (a + b) * c == a * c + b * c
  {
  }

  lemma QuotShift(x: real, kb: real, kr: real, box: real)
    requires box > 0.0 && kb == kr * box
    ensures (x + kb) / box == x / box + kr
  {
  }

  lemma FloorShift(q: real, k: int)
    ensures (q + k as real).Floor == q.Floor + k
  {
  }

  /** The fold removes an integer multiple of the box length. */
  lemma FoldShiftIsMultiple(x: real, box: real) returns (k: int)
    requires box > 0.0
    ensures x - FoldComp(x, box) == (k as real) * box
  {
    k := (x / box).Floor;
  }

  /** Each component of make_periodic lies in [0, box). */
  lemma MakePeriodicInBox(r: Vector, box: real)
    requires box > 0.0
    ensures forall i :: 0 <= i < |r| ==> 0.0 <= MakePeriodic(r, box)[i] < box
  {
    forall i | 0 <= i < |r|
      ensures 0.0 <= MakePeriodic(r, box)[i] < box
    {
      FoldInBox(r[i], box);
    }
  }

  /** make_periodic is idempotent. */
  lemma MakePeriodicIdempotent(r: Vector, box: real)
    requires box > 0.0
    ensures MakePeriodic(MakePeriodic(r, box), box) == MakePeriodic(r, box)
  {
    var p := MakePeriodic(r, box);
    forall i | 0 <= i < |r|
      ensures MakePeriodic(p, box)[i] == p[i]
    {
      FoldInBox(r[i], box);
      FoldInsideUnchanged(p[i], box);
    }
  }

  /** A vector inside the box is returned unchanged. */
  lemma MakePeriodicInsideUnchanged(r: Vector, box: real)
    requires box > 0.0
    requires forall i :: 0 <= i < |r| ==> 0.0 <= r[i] < box
    ensures MakePeriodic(r, box) == r
  {
    forall i | 0 <= i < |r|
      ensures MakePeriodic(r, box)[i] == r[i]
    {
      FoldInsideUnchanged(r[i], box);
    }
  }

  /** Translating by whole box lengths in every component leaves make_periodic unchanged. */
  lemma MakePeriodicTranslation(r: Vector, ks: seq<int>, box: real)
    requires box > 0.0 && |ks| == |r|
    ensures MakePeriodic(seq(|r|, i requires 0 <= i < |r| => r[i] + (ks[i] as real) * box), box)
         == MakePeriodic(r, box)
  {
    var s := seq(|r|, i requires 0 <= i < |r| => r[i] + (ks[i] as real) * box);
    forall i | 0 <= i < |r|
      ensures MakePeriodic(s, box)[i] == MakePeriodic(r, box)[i]
    {
      FoldPeriodic(r[i], ks[i], box);
    }
  }

  /**
   * Minimum image of one separation component, wrapping at most once:
   * above half the box subtract the box, below minus half add it.
   */
  function MinImageComp(x: real, box: real): real
  {
    if x > 0.5 * box then x - box
    else if x < -0.5 * box then x + box
    else x
  }

  function MinImage(r: Vector, box: real): (m: Vector)
    ensures |m| == |r|
    ensures forall i :: 0 <= i < |r| ==> m[i] == MinImageComp(r[i], box)
  {
    seq(|r|, i requires 0 <= i < |r| => MinImageComp(r[i], box))
  }

  /** Under the single-wrap assumption the reduced component lies within half a box. */
  lemma MinImageBounds(x: real, box: real)
    requires box > 0.0
    requires -1.5 * box <= x <= 1.5 * box
    ensures -0.5 * box <= MinImageComp(x, box) <= 0.5 * box
    ensures MinImageComp(x, box) == x || MinImageComp(x, box) == x - box || MinImageComp(x, box) == x + box
  {
  }

  /** The reduction is odd: reversing a separation reverses its image. */
  lemma MinImageOdd(r: Vector, box: real)
    requires box > 0.0
    ensures MinImage(Scale(r, -1.0), box) == Scale(MinImage(r, box), -1.0)
  {
  }

  /** The squared image distance is the same in both directions. */
  lemma {:induction false} DotNeg(a: Vector)
    ensures Dot(Scale(a, -1.0), Scale(a, -1.0)) == Dot(a, a)
  {
    if |a| > 0 {
      assert Scale(a, -1.0)[1..] == Scale(a[1..], -1.0);
      DotNeg(a[1..]);
    }
  }
}
