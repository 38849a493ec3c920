// Particle groups of the host sampling code: either every particle of a
// particle instance, or the particles whose tags lie in a half-open range
// [begin, end).  A group exposes its size and the start of its window into
// the particle's tag array.  Sizes and tags are 32-bit unsigned integers.

module ParticleGroups {

  const UINT_RANGE: nat := 0x1_0000_0000

  type Uint = n: nat | n < UINT_RANGE

  datatype ParticleGroup =
    | All(nbox: Uint)                      // every particle of an instance with nbox particles
    | FromRange(begin: Uint, end: Uint)    // the tags in [begin, end)

  /**
   * The number of particles.  For a range this is the unsigned difference
   * end − begin, which wraps around modulo 2³² when end < begin.
   */
  function Size(g: ParticleGroup): (n: Uint)
    ensures g.All? ==> n == g.nbox
    ensures g.FromRange? && g.begin <= g.end ==> n == g.end - g.begin
    ensures g.FromRange? && g.end < g.begin ==> n == UINT_RANGE + g.end - g.begin
  {
    match g
    case All(nbox) => nbox
    case FromRange(begin, end) => (end - begin) % UINT_RANGE
  }

  /** True if the group is the empty set. */
  function Empty(g: ParticleGroup): bool
  {
    Size(g) == 0
  }

  /** The offset of the group's first entry in the particle's tag array. */
  function MapOffset(g: ParticleGroup): nat
  {
    match g
    case All(_) => 0
    case FromRange(begin, _) => begin
  }

  /** The tags of a group in the group's order: ascending, from the smallest. */
  function Tags(g: ParticleGroup): seq<nat>
  {
    match g
    case All(nbox) => seq(nbox, k => k)
    case FromRange(begin, end) => if begin <= end then seq(end - begin, k => begin + k) else []
  }

  /** The entries of the tag array that the group's map sees, from its offset on. */
  function Window(g: ParticleGroup, tag: seq<nat>): seq<nat>
    requires MapOffset(g) + Size(g) <= |tag|
  {
    tag[MapOffset(g)..MapOffset(g) + Size(g)]
  }

  /** A group is empty iff it has no tags, for every group whose range is not reversed. */
  lemma EmptyIffNoTags(g: ParticleGroup)
    requires g.FromRange? ==> g.begin <= g.end
    ensures Empty(g) <==> Tags(g) == []
  {
  }

  /** The size counts the tags of the group, and the tags are those of the half-open range. */
  lemma SizeCountsTags(g: ParticleGroup)
    requires g.FromRange? ==> g.begin <= g.end
    ensures Size(g) == |Tags(g)|
    ensures g.FromRange? ==> forall t: nat :: t in Tags(g) <==> g.begin <= t < g.end
    ensures g.All? ==> forall t: nat :: t in Tags(g) <==> t < g.nbox
    ensures forall k, l :: 0 <= k < l < |Tags(g)| ==> Tags(g)[k] < Tags(g)[l]
  {
    match g
    case All(nbox) =>
      forall t: nat | t < nbox
        ensures t in Tags(g)
      {
        assert Tags(g)[t] == t;
      }
    case FromRange(begin, end) =>
      forall t: nat | begin <= t < end
        ensures t in Tags(g)
      {
        assert Tags(g)[t - begin] == t;
      }
  }

  /** A reversed range is not empty: its unsigned size wraps around. */
  lemma ReversedRangeWraps(begin: Uint, end: Uint)
    requires end < begin
    ensures !Empty(FromRange(begin, end)) && Tags(FromRange(begin, end)) == []
  {
  }

  /** The all-particles group sees the whole tag array. */
  lemma AllSeesEveryTag(nbox: Uint, tag: seq<nat>)
    requires |tag| == nbox
    ensures Window(All(nbox), tag) == tag
  {
  }

  /** A range group sees the tag array from index begin up to index end. */
  lemma RangeSeesItsSlice(begin: Uint, end: Uint, tag: seq<nat>)
    requires begin <= end <= |tag|
    ensures Window(FromRange(begin, end), tag) == tag[begin..end]
    ensures forall k :: 0 <= k < Size(FromRange(begin, end)) ==> Window(FromRange(begin, end), tag)[k] == tag[begin + k]
  {
  }
}
