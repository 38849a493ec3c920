// The density-mode sample: one buffer of Fourier modes per particle species,
// each holding one complex value per wave vector, and the time of the sample.

module DensityModes {

  datatype Complex = Complex(re: real, im: real)

  class DensityMode {
    const rho: seq<array<Complex>>   // one mode vector per species
    var time: real                    // sample time; below 0 until a sample is taken

    /**
     * Allocates ntype zeroed mode vectors of length nq, one fresh buffer per
     * species, and marks the sample as not yet taken.
     */
    constructor (ntype: nat, nq: nat)
      ensures |rho| == ntype && time == -1.0 && !HasSample()
      ensures forall i :: 0 <= i < ntype ==> fresh(rho[i]) && rho[i].Length == nq
      ensures forall i :: 0 <= i < ntype ==> forall q :: 0 <= q < nq ==> rho[i][q] == Complex(0.0, 0.0)
      ensures forall i, j :: 0 <= i < j < ntype ==> rho[i] != rho[j]
    {
      var buffers: seq<array<Complex>> := [];
      var i := 0;
      while i < ntype
        invariant 0 <= i <= ntype && |buffers| == i
        invariant forall k :: 0 <= k < i ==> fresh(buffers[k]) && buffers[k].Length == nq
        invariant forall k :: 0 <= k < i ==> forall q :: 0 <= q < nq ==> buffers[k][q] == Complex(0.0, 0.0)
        invariant forall k, l :: 0 <= k < l < i ==> buffers[k] != buffers[l]
      {
        var mode := new Complex[nq](_ => Complex(0.0, 0.0));
        buffers := buffers + [mode];
        i := i + 1;
      }
      rho := buffers;
      time := -1.0;
    }

    /** A sample has been taken once the time is not negative. */
    predicate HasSample()
      reads this
    {
      time >= 0.0
    }
  }
}
