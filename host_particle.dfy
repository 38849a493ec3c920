// The host particle arrays that the modular host modules (external fields,
// the pair force evaluator, the Oseen mobility) read and update in place:
// one sequence per per-particle array, all of length nbox.

module HostParticle {
  import opened Vectors

  class Particle {
    const dim: nat
    const nbox: nat                     // number of particles in the box
    var r: seq<Vector>                  // positions
    var v: seq<Vector>                  // velocities
    var f: seq<Vector>                  // forces
    var tag: seq<nat>
    var types: seq<nat>                 // species of each particle

    /** Every array holds one entry per particle, every vector has dim components. */
    ghost predicate Valid()
      reads this`r, this`v, this`f, this`tag, this`types
    {
      (dim == 2 || dim == 3)
      && |r| == nbox && |v| == nbox && |f| == nbox && |tag| == nbox && |types| == nbox
      && AllDim(r, dim) && AllDim(v, dim) && AllDim(f, dim)
    }

    /** Particles of a single species at the origin, at rest, with tags in array order. */
    constructor (dim: nat, nbox: nat)
      requires dim == 2 || dim == 3
      ensures this.dim == dim && this.nbox == nbox && Valid()
    {
      this.dim := dim;
      this.nbox := nbox;
      r := Zeros(nbox, dim);
      v := Zeros(nbox, dim);
      f := Zeros(nbox, dim);
      tag := seq(nbox, k => k);
      types := seq(nbox, k => 0);
    }
  }
}
