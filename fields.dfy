// External fields: a constant force or velocity that is added to, or
// written over, the per-particle force or velocity array.  The host
// modules work on the host particle sequences; the GPU modules work on
// the device buffers, whose capacity may exceed the particle count.

module FieldAlgebra {
  import opened Vectors

  /** True if every component of `value` is 0. */
  predicate IsZero(value: Vector)
  {
    forall i :: 0 <= i < |value| ==> value[i] == 0.0
  }

  /** Every vector of `vs` with `value` added (std::transform with plus). */
  function AddToAll(vs: seq<Vector>, value: Vector): (ws: seq<Vector>)
    requires AllDim(vs, |value|)
    ensures |ws| == |vs| && AllDim(ws, |value|)
  {
    seq(|vs|, k requires 0 <= k < |vs| => Add(vs[k], value))
  }

  /** `n` copies of `value` (std::fill). */
  function Filled(n: nat, value: Vector): (ws: seq<Vector>)
    ensures |ws| == n && AllDim(ws, |value|)
  {
    seq(n, k => value)
  }

  /** Adding a zero field changes no vector, so skipping the addition is sound. */
  lemma AddZeroField(vs: seq<Vector>, value: Vector)
    requires AllDim(vs, |value|) && IsZero(value)
    ensures AddToAll(vs, value) == vs
  {
    forall k | 0 <= k < |vs|
      ensures AddToAll(vs, value)[k] == vs[k]
    {
      assert forall i :: 0 <= i < |value| ==> Add(vs[k], value)[i] == vs[k][i];
    }
  }

  /** Adding a nonzero field changes every vector. */
  lemma AddNonzeroField(vs: seq<Vector>, value: Vector, k: nat)
    requires AllDim(vs, |value|) && !IsZero(value) && k < |vs|
    ensures AddToAll(vs, value)[k] != vs[k]
  {
    var i :| 0 <= i < |value| && value[i] != 0.0;
    assert AddToAll(vs, value)[k][i] == vs[k][i] + value[i];
  }

  /** set() followed by add() leaves twice the field on every particle. */
  lemma SetThenAdd(n: nat, value: Vector)
    ensures AddToAll(Filled(n, value), value) == Filled(n, Scale(value, 2.0))
  {
    forall k | 0 <= k < n
      ensures AddToAll(Filled(n, value), value)[k] == Scale(value, 2.0)
    {
      assert forall i :: 0 <= i < |value| ==> Add(value, value)[i] == Scale(value, 2.0)[i];
    }
  }
}

module HostFields {
  import opened Vectors
  import opened HostParticle
  import opened FieldAlgebra

  /** A constant external force, added to or written over every particle's force. */
  class ConstantForce {
    const particle: Particle
    var value: Vector

    constructor (particle: Particle, value: Vector)
      ensures this.particle == particle && this.value == value
    {
      this.particle := particle;
      this.value := value;
    }

    /** The stored field. */
    function Value(): Vector
      reads this`value
    {
      value
    }

    /** Replaces the field; no particle array is touched. */
    method SetValue(x: Vector)
      modifies this`value
      ensures Value() == x
    {
      value := x;
    }

    /** Adds the field to every particle's force, in place. */
    method Add()
      requires particle.Valid() && |value| == particle.dim
      modifies particle`f
      ensures particle.Valid()
      ensures particle.f == AddToAll(old(particle.f), value)
    {
      var k := 0;
      while k < |particle.f|
        invariant 0 <= k <= |particle.f| == particle.nbox
        invariant AllDim(particle.f, particle.dim)
        invariant forall j :: 0 <= j < k ==> particle.f[j] == Vectors.Add(old(particle.f)[j], value)
        invariant forall j :: k <= j < |particle.f| ==> particle.f[j] == old(particle.f)[j]
      {
        particle.f := particle.f[k := Vectors.Add(particle.f[k], value)];
        k := k + 1;
      }
    }

    /** Writes the field over every particle's force, in place. */
    method Set()
      requires particle.Valid() && |value| == particle.dim
      modifies particle`f
      ensures particle.Valid()
      ensures particle.f == Filled(particle.nbox, value)
    {
      var k := 0;
      while k < |particle.f|
        invariant 0 <= k <= |particle.f| == particle.nbox
        invariant AllDim(particle.f, particle.dim)
        invariant forall j :: 0 <= j < k ==> particle.f[j] == value
      {
        particle.f := particle.f[k := value];
        k := k + 1;
      }
    }
  }

  /**
   * A constant external velocity.  Whether it is the zero field is
   * decided once, at construction; adding a zero field is skipped.
   */
  class ConstantVelocity {
    const particle: Particle
    const value: Vector
    const zero: bool

    constructor (particle: Particle, value: Vector)
      ensures this.particle == particle && this.value == value
      ensures zero <==> IsZero(value)
    {
      this.particle := particle;
      this.value := value;
      var z := true;
      var i := 0;
      while i < |value|
        invariant 0 <= i <= |value|
        invariant z && forall j :: 0 <= j < i ==> value[j] == 0.0
      {
        if value[i] != 0.0 {
          z := false;
          break;
        }
        i := i + 1;
      }
      zero := z;
    }

    /** Adds the field to every velocity, unless it is the zero field. */
    method Add()
      requires particle.Valid() && |value| == particle.dim
      requires zero <==> IsZero(value)
      modifies particle`v
      ensures particle.Valid()
      ensures zero ==> particle.v == old(particle.v)
      ensures particle.v == AddToAll(old(particle.v), value)
    {
      if zero {
        AddZeroField(particle.v, value);
      } else {
        var k := 0;
        while k < |particle.v|
          invariant 0 <= k <= |particle.v| == particle.nbox
          invariant AllDim(particle.v, particle.dim)
          invariant forall j :: 0 <= j < k ==> particle.v[j] == Vectors.Add(old(particle.v)[j], value)
          invariant forall j :: k <= j < |particle.v| ==> particle.v[j] == old(particle.v)[j]
        {
          particle.v := particle.v[k := Vectors.Add(particle.v[k], value)];
          k := k + 1;
        }
      }
    }

    /** set() as written: it fills the force array, and the velocities keep their values. */
    method SetAsWritten()
      requires particle.Valid() && |value| == particle.dim
      modifies particle`f
      ensures particle.Valid()
      ensures particle.f == Filled(particle.nbox, value)
      ensures particle.v == old(particle.v)
      ensures (exists k :: 0 <= k < |particle.v| && particle.v[k] != value) ==>
                particle.v != Filled(particle.nbox, value)
    {
      var k := 0;
      while k < |particle.f|
        invariant 0 <= k <= |particle.f| == particle.nbox
        invariant AllDim(particle.f, particle.dim)
        invariant forall j :: 0 <= j < k ==> particle.f[j] == value
      {
        particle.f := particle.f[k := value];
        k := k + 1;
      }
      if exists k :: 0 <= k < |particle.v| && particle.v[k] != value {
        SetAsWrittenKeepsVelocities(particle.v, value);
      }
    }

    /** set() as evidently intended: every velocity becomes the field. */
    method Set()
      requires particle.Valid() && |value| == particle.dim
      modifies particle`v
      ensures particle.Valid()
      ensures particle.v == Filled(particle.nbox, value)
    {
      var k := 0;
      while k < |particle.v|
        invariant 0 <= k <= |particle.v| == particle.nbox
        invariant AllDim(particle.v, particle.dim)
        invariant forall j :: 0 <= j < k ==> particle.v[j] == value
      {
        particle.v := particle.v[k := value];
        k := k + 1;
      }
    }
  }

  /**
   * set() as written leaves the velocities alone, so whenever some particle
   * moves with a velocity other than the field, the velocities are not the
   * field afterwards.
   */
  lemma SetAsWrittenKeepsVelocities(vs: seq<Vector>, value: Vector)
    requires exists k :: 0 <= k < |vs| && vs[k] != value
    ensures vs != Filled(|vs|, value)
  {
    var k :| 0 <= k < |vs| && vs[k] != value;
    assert Filled(|vs|, value)[k] == value;
  }
}

module GpuFields {
  import opened Vectors
  import opened FieldAlgebra

  /** An entry of the device velocity buffer: the velocity and, in its fourth word, the tag. */
  datatype Tagged = Tagged(vel: Vector, tag: real)

  /**
   * The device force and velocity buffers.  The first nbox entries hold the
   * particles; a buffer's capacity (its length) may be larger.  With the
   * double-single integrator, the upper half of the velocity buffer holds
   * the low-order words.
   */
  class DeviceParticle {
    const dim: nat
    const nbox: nat
    const gf: array<Vector>
    const gv: array<Tagged>

    predicate Valid()
    {
      (dim == 2 || dim == 3) && nbox <= gf.Length && nbox <= gv.Length
    }

    constructor (dim: nat, nbox: nat, capacity: nat)
      requires dim == 2 || dim == 3
      requires nbox <= capacity
      ensures this.dim == dim && this.nbox == nbox && Valid()
      ensures gf.Length == capacity && gv.Length == capacity
      ensures fresh(gf) && fresh(gv)
    {
      this.dim := dim;
      this.nbox := nbox;
      gf := new Vector[capacity](k => Zero(dim));
      gv := new Tagged[capacity](k => Tagged(Zero(dim), 0.0));
    }
  }

  /** The zero test of the GPU force field: x and y are 0, and z too in 3-D. */
  function ZeroFlag(value: Vector, dim: nat): (zero: bool)
    requires |value| == dim && (dim == 2 || dim == 3)
    ensures zero <==> IsZero(value)
  {
    var z := value[0] == 0.0 && value[1] == 0.0;
    if dim == 3 then z && value[2] == 0.0 else z
  }

  /** The first n entries with `value` added; the rest unchanged. */
  function AddPrefix(buf: seq<Vector>, n: nat, value: Vector): (res: seq<Vector>)
    requires n <= |buf| && AllDim(buf[..n], |value|)
    ensures |res| == |buf| && res[..n] == AddToAll(buf[..n], value) && res[n..] == buf[n..]
  {
    AddToAll(buf[..n], value) + buf[n..]
  }

  /** The first n entries set to `value`; the rest unchanged. */
  function FillPrefix(buf: seq<Vector>, n: nat, value: Vector): (res: seq<Vector>)
    requires n <= |buf|
    ensures |res| == |buf| && res[..n] == Filled(n, value) && res[n..] == buf[n..]
  {
    Filled(n, value) + buf[n..]
  }

  /** The force buffer after set(): all zero with the zero flag, else the particles' entries filled. */
  function ForceSet(buf: seq<Vector>, n: nat, zero: bool, dim: nat, value: Vector): seq<Vector>
    requires n <= |buf|
  {
    if zero then Zeros(|buf|, dim) else FillPrefix(buf, n, value)
  }

  /** The force buffer after add(): unchanged with the zero flag, else the field added to the particles' entries. */
  function ForceAdd(buf: seq<Vector>, n: nat, zero: bool, value: Vector): seq<Vector>
    requires n <= |buf| && AllDim(buf[..n], |value|)
  {
    if zero then buf else AddPrefix(buf, n, value)
  }

  /** With a current zero flag, add() adds the field to the particles and leaves the rest. */
  lemma ForceAddSound(buf: seq<Vector>, n: nat, dim: nat, value: Vector)
    requires n <= |buf| && |value| == dim && (dim == 2 || dim == 3) && AllDim(buf[..n], dim)
    ensures ForceAdd(buf, n, ZeroFlag(value, dim), value) == AddPrefix(buf, n, value)
  {
    if ZeroFlag(value, dim) {
      AddZeroField(buf[..n], value);
      assert buf == buf[..n] + buf[n..];
    }
  }

  /** With a current zero flag, set() gives every particle the field. */
  lemma ForceSetSound(buf: seq<Vector>, n: nat, dim: nat, value: Vector)
    requires n <= |buf| && |value| == dim && (dim == 2 || dim == 3)
    ensures ForceSet(buf, n, ZeroFlag(value, dim), dim, value)[..n] == Filled(n, value)
  {
    if ZeroFlag(value, dim) {
      forall k | 0 <= k < n
        ensures Zeros(|buf|, dim)[k] == value
      {
        assert forall i :: 0 <= i < dim ==> Zero(dim)[i] == value[i];
      }
    }
  }

  /**
   * With a stale zero flag, add() skips a nonzero field: a field built as
   * (0, 0) and then reset to (1, 0) adds nothing to a particle at rest from
   * force (0, 0), where it should add (1, 0).
   */
  lemma StaleZeroFlagSkipsField()
    ensures var buf := [[0.0, 0.0]];
            ForceAdd(buf, 1, ZeroFlag([0.0, 0.0], 2), [1.0, 0.0]) != AddPrefix(buf, 1, [1.0, 0.0])
  {
    var buf := [[0.0, 0.0]];
    assert AddPrefix(buf, 1, [1.0, 0.0])[0][0] == 1.0;
  }

  /**
   * A constant external force on the device.  The zero flag selects
   * between zero-filling the whole buffer and filling, or between skipping
   * and adding.
   */
  class ConstantForce {
    const particle: DeviceParticle
    var value: Vector
    var zero: bool

    /** The zero flag agrees with the field. */
    predicate ZeroCurrent()
      reads this`value, this`zero
    {
      |value| == particle.dim && (particle.dim == 2 || particle.dim == 3)
      && zero == ZeroFlag(value, particle.dim)
    }

    constructor (particle: DeviceParticle, value: Vector)
      requires particle.Valid() && |value| == particle.dim
      ensures this.particle == particle && this.value == value && ZeroCurrent()
    {
      this.particle := particle;
      this.value := value;
      var z := value[0] == 0.0 && value[1] == 0.0;
      if particle.dim == 3 {
        z := z && value[2] == 0.0;
      }
      zero := z;
    }

    function Value(): Vector
      reads this`value
    {
      value
    }

    /** set_value as written: the field changes and the zero flag keeps its old value. */
    method SetValueAsWritten(x: Vector)
      modifies this`value
      ensures Value() == x && zero == old(zero)
    {
      value := x;
    }

    /** set_value as evidently intended: the zero flag follows the new field. */
    method SetValue(x: Vector)
      requires |x| == particle.dim && particle.Valid()
      modifies this`value, this`zero
      ensures Value() == x && ZeroCurrent()
    {
      value := x;
      zero := ZeroFlag(x, particle.dim);
    }

    method Set()
      requires particle.Valid() && |value| == particle.dim
      modifies particle.gf
      ensures particle.gf[..] == ForceSet(old(particle.gf[..]), particle.nbox, zero, particle.dim, value)
    {
      var gf := particle.gf;
      if zero {
        var k := 0;
        while k < gf.Length
          invariant 0 <= k <= gf.Length
          invariant forall j :: 0 <= j < k ==> gf[j] == Zero(particle.dim)
        {
          gf[k] := Zero(particle.dim);
          k := k + 1;
        }
        assert gf[..] == Zeros(gf.Length, particle.dim);
      } else {
        var k := 0;
        while k < particle.nbox
          invariant 0 <= k <= particle.nbox
          invariant forall j :: 0 <= j < k ==> gf[j] == value
          invariant forall j :: k <= j < gf.Length ==> gf[j] == old(gf[j])
        {
          gf[k] := value;
          k := k + 1;
        }
        assert gf[..] == FillPrefix(old(gf[..]), particle.nbox, value);
      }
    }

    method Add()
      requires particle.Valid() && |value| == particle.dim
      requires AllDim(particle.gf[..particle.nbox], particle.dim)
      modifies particle.gf
      ensures particle.gf[..] == ForceAdd(old(particle.gf[..]), particle.nbox, zero, value)
    {
      if !zero {
        var gf := particle.gf;
        var k := 0;
        while k < particle.nbox
          invariant 0 <= k <= particle.nbox
          invariant forall j :: 0 <= j < k ==> gf[j] == Vectors.Add(old(gf[j]), value)
          invariant forall j :: k <= j < gf.Length ==> gf[j] == old(gf[j])
        {
          gf[k] := Vectors.Add(gf[k], value);
          k := k + 1;
        }
        assert gf[..] == AddPrefix(old(gf[..]), particle.nbox, value);
      }
    }
  }

  /** The velocity buffer with `value` in the first n entries, each keeping its tag. */
  function TagFill(buf: seq<Tagged>, n: nat, value: Vector): (res: seq<Tagged>)
    requires n <= |buf|
    ensures |res| == |buf|
  {
    seq(|buf|, k requires 0 <= k < |buf| => if k < n then Tagged(value, buf[k].tag) else buf[k])
  }

  /** The velocity buffer with `value` added to the first n entries, each keeping its tag. */
  function TagAdd(buf: seq<Tagged>, n: nat, value: Vector): (res: seq<Tagged>)
    requires n <= |buf| && forall k :: 0 <= k < n ==> |buf[k].vel| == |value|
    ensures |res| == |buf|
  {
    seq(|buf|, k requires 0 <= k < |buf| => if k < n then Tagged(Add(buf[k].vel, value), buf[k].tag) else buf[k])
  }

  /** The capacity/2 entries from capacity/2 on (the low-order words) set to zero. */
  function LowWordsCleared(buf: seq<Tagged>, dim: nat): (res: seq<Tagged>)
    ensures |res| == |buf|
  {
    var h := |buf| / 2;
    seq(|buf|, k requires 0 <= k < |buf| => if h <= k < h + h then Tagged(Zero(dim), 0.0) else buf[k])
  }

  /** The velocity buffer after set(). */
  function VelocitySet(buf: seq<Tagged>, n: nat, dim: nat, value: Vector, dsfun: bool): seq<Tagged>
    requires n <= |buf|
  {
    var filled := TagFill(buf, n, value);
    if dsfun then LowWordsCleared(filled, dim) else filled
  }

  /**
   * set() gives every particle the field and keeps its tag, provided the
   * particles fit in the lower half when the low-order words are cleared.
   */
  lemma VelocitySetEffect(buf: seq<Tagged>, n: nat, dim: nat, value: Vector, dsfun: bool, k: nat)
    requires n <= |buf| && k < n && (dsfun ==> n <= |buf| / 2)
    ensures VelocitySet(buf, n, dim, value, dsfun)[k] == Tagged(value, buf[k].tag)
  {
  }

  /** With the low-order words cleared, the upper half of the buffer is zero. */
  lemma VelocitySetClearsLowWords(buf: seq<Tagged>, n: nat, dim: nat, value: Vector, k: nat)
    requires n <= |buf| && |buf| / 2 <= k < 2 * (|buf| / 2)
    ensures VelocitySet(buf, n, dim, value, true)[k] == Tagged(Zero(dim), 0.0)
  {
  }

  /** add() keeps the tags and leaves every entry past the particles, the low-order words included, alone. */
  lemma VelocityAddEffect(buf: seq<Tagged>, n: nat, value: Vector, k: nat)
    requires n <= |buf| && (forall j :: 0 <= j < n ==> |buf[j].vel| == |value|) && k < |buf|
    ensures TagAdd(buf, n, value)[k].tag == buf[k].tag
    ensures k < n ==> TagAdd(buf, n, value)[k].vel == Add(buf[k].vel, value)
    ensures n <= k ==> TagAdd(buf, n, value)[k] == buf[k]
  {
  }

  /** A constant external velocity on the device; there is no zero-field shortcut. */
  class ConstantVelocity {
    const particle: DeviceParticle
    const dsfun: bool                   // built with the double-single integrator
    var value: Vector

    constructor (particle: DeviceParticle, value: Vector, dsfun: bool)
      ensures this.particle == particle && this.value == value && this.dsfun == dsfun
    {
      this.particle := particle;
      this.value := value;
      this.dsfun := dsfun;
    }

    function Value(): Vector
      reads this`value
    {
      value
    }

    /** Replaces the field and nothing else. */
    method SetValue(x: Vector)
      modifies this`value
      ensures Value() == x
    {
      value := x;
    }

    method Set()
      requires particle.Valid()
      modifies particle.gv
      ensures particle.gv[..] == VelocitySet(old(particle.gv[..]), particle.nbox, particle.dim, value, dsfun)
    {
      var gv := particle.gv;
      var k := 0;
      while k < particle.nbox
        invariant 0 <= k <= particle.nbox
        invariant forall j :: 0 <= j < k ==> gv[j] == Tagged(value, old(gv[j]).tag)
        invariant forall j :: k <= j < gv.Length ==> gv[j] == old(gv[j])
      {
        gv[k] := Tagged(value, gv[k].tag);
        k := k + 1;
      }
      assert gv[..] == TagFill(old(gv[..]), particle.nbox, value);
      if dsfun {
        ghost var filled := gv[..];
        var h := gv.Length / 2;
        var j := h;
        while j < h + h
          invariant h <= j <= h + h
          invariant forall i :: h <= i < j ==> gv[i] == Tagged(Zero(particle.dim), 0.0)
          invariant forall i :: 0 <= i < h || j <= i < gv.Length ==> gv[i] == filled[i]
        {
          gv[j] := Tagged(Zero(particle.dim), 0.0);
          j := j + 1;
        }
        assert gv[..] == LowWordsCleared(filled, particle.dim);
      }
    }

    method Add()
      requires particle.Valid()
      requires forall k :: 0 <= k < particle.nbox ==> |particle.gv[k].vel| == |value|
      modifies particle.gv
      ensures particle.gv[..] == TagAdd(old(particle.gv[..]), particle.nbox, value)
    {
      var gv := particle.gv;
      var k := 0;
      while k < particle.nbox
        invariant 0 <= k <= particle.nbox
        invariant forall j :: 0 <= j < k ==> gv[j] == Tagged(Vectors.Add(old(gv[j]).vel, value), old(gv[j]).tag)
        invariant forall j :: k <= j < gv.Length ==> gv[j] == old(gv[j])
      {
        gv[k] := Tagged(Vectors.Add(gv[k].vel, value), gv[k].tag);
        k := k + 1;
      }
      assert gv[..] == TagAdd(old(gv[..]), particle.nbox, value);
    }
  }
}
