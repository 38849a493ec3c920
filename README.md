# HALMD core, modelled in Dafny

HALMD is a molecular-dynamics package for GPUs and host CPUs. This project models
the sequential logic underneath its scripting and CUDA plumbing, and proves
properties of that model. Floating-point numbers are Dafny `real`s. Vectors are
`seq<real>` of length 2 or 3, and species matrices are `seq<seq<real>>`.

The monolithic host Lennard-Jones fluid (`src/halmd/mdsim/ljfluid_host.hpp`) is
split into five modules:

- `FluidCells` (cells.dfy) covers the cell grid derived from the cutoff plus skin,
  the cell a position falls into, and the half shell of neighbour cells. It also
  gives the neighbour list a particle receives. It proves that the list holds no
  self pair, that every entry lies within the cutoff plus skin, that no pair is
  listed by both partners, and that every close pair is listed by one of them.
- `FluidForces` (fluid_forces.dfy) covers the 12-6 force and energy of one pair,
  the C2 smoothing, and the accumulation of forces, energy and virial. The
  accumulation is a fold over the neighbour pairs. It proves Newton's third law
  (the total force vanishes), that pairs beyond the cutoff contribute nothing,
  the energy sum, and exactly when the energy diverges.
- `FluidMotion` (fluid_motion.dfy) covers the two leapfrog half steps, with the
  periodic wrap and the box-image counter. It also covers the centring and
  scaling of `boltzmann` and the thermostat counter of `mdstep`.
- `LjFluid` (fluid.dfy) is the fluid as a class. Its fields are the particle
  arrays, the cell and neighbour lists and the accumulators. Every method is proved
  against the functions of the three modules above. That includes `nbl_skin`,
  `update_cells`, `update_neighbours`, `compute_forces`, `leapfrog_half`,
  `leapfrog_full`, `boltzmann`, `compute_virial_kinetic`, `mdstep` and both
  `sample` variants.
- `FccLattice` (lattice.dfy) covers the sizing and index arithmetic of `lattice`.
  Plain integer division and remainder are written as repeated subtraction,
  with Euclid's lemma proved for them.

The modular host code:

- `PairFull` (pair_full.dfy) models the all-pairs force evaluator and its one-shot
  auxiliary flag.
- `OseenMobility` (oseen.dfy) models the Oseen and Rotne-Prager mobility. The
  in-place accumulation of `compute_velocities` is proved against a reference
  definition of each particle's velocity.
- `SpeciesMatrix`, `ModifiedLennardJones`, `PowerLawWithCore` and
  `LennardJonesSimple` (potentials.dfy) model the set-up of the pair potentials.
- `HostFields`, `GpuFields` and `FieldAlgebra` (fields.dfy) model the
  constant-force and constant-velocity fields.
  - Host arrays belong to the `HostParticle.Particle` class (host_particle.dfy).
  - GPU buffers are `array`s.

Smaller utilities:

- the periodic fold of `src/ljgpu/mdsim/base.hpp` (periodic.dfy);
- the reduction accumulators of the GPU thermodynamics observables
  (thermodynamics.dfy);
- the particle groups (particle_group.dfy);
- the density-mode sample (density_mode.dfy);
- the CUDA device set-up and version decoding (device.dfy).

Calls into code outside the model become parameters of the model. These are the
square root, the periodic reduction of the box, the potential's energy function,
the `isinf` test, the Gaussian draws of `boltzmann` and the answers of the CUDA
driver.

## Model

| member | source | states |
|---|---|---|
| DensityModes.DensityMode.constructor | halmd/observables/samples/density_mode.cpp:34-44 | ntype fresh, distinct mode buffers of nq zero entries each, and a time below zero, so no sample has been taken yet |
| ParticleGroups.Size | halmd/observables/host/samples/particle_group.hpp:103-145 | all particles: nbox; a range: end − begin, which wraps modulo 2³² when end < begin |
| ParticleGroups.Empty | halmd/observables/host/samples/particle_group.hpp:70-74 | empty() is the test size() == 0 of the group; ParticleGroups.EmptyIffNoTags relates it to the tags |
| ParticleGroups.MapOffset | halmd/observables/host/samples/particle_group.hpp:98-101 | the index of the group's first entry in the tag array: 0 for all particles, begin for a range (lines 136-139); AllSeesEveryTag and RangeSeesItsSlice state what it exposes |
| ParticleGroups.EmptyIffNoTags | halmd/observables/host/samples/particle_group.hpp:70-74 | empty() holds exactly when the group has no tags, for every group whose range is not reversed |
| ParticleGroups.SizeCountsTags | halmd/observables/host/samples/particle_group.hpp:33-45 | the size is the number of tags; the tags are exactly those in [begin, end) (or below nbox), in ascending order |
| ParticleGroups.ReversedRangeWraps | halmd/observables/host/samples/particle_group.hpp:141-145 | a range with end < begin holds no tags yet is not empty, because its unsigned size wraps |
| ParticleGroups.AllSeesEveryTag | halmd/observables/host/samples/particle_group.hpp:98-107 | the all-particles group's map starts at the tag array's start and sees all nbox entries |
| ParticleGroups.RangeSeesItsSlice | halmd/observables/host/samples/particle_group.hpp:136-145 | a range group's map starts at index begin and sees entries begin .. end − 1 of the tag array |
| Periodic.MakePeriodic | src/ljgpu/mdsim/base.hpp:35-40 | make_periodic folds every component of the vector by the same rule |
| Periodic.FoldComp | src/ljgpu/mdsim/base.hpp:36-40 | one coordinate as x − floor(x/box)·box; FoldInBox, FoldInsideUnchanged and FoldPeriodic state its properties |
| Periodic.FoldInBox | src/ljgpu/mdsim/base.hpp:36-40 | r − floor(r/box)·box lies in [0, box) for box > 0 |
| Periodic.FoldInsideUnchanged | src/ljgpu/mdsim/base.hpp:36-40 | a coordinate already in [0, box) is left unchanged |
| Periodic.FoldPeriodic | src/ljgpu/mdsim/base.hpp:36-40 | adding k·box for any integer k does not change the folded coordinate |
| Periodic.FoldShiftIsMultiple | src/ljgpu/mdsim/base.hpp:36-40 | the fold subtracts an integer multiple of the box length |
| Periodic.MakePeriodicInBox | src/ljgpu/mdsim/base.hpp:35-40 | every component of make_periodic(r, box) lies in [0, box) |
| Periodic.MakePeriodicIdempotent | src/ljgpu/mdsim/base.hpp:35-40 | make_periodic applied twice equals make_periodic applied once |
| Periodic.MakePeriodicInsideUnchanged | src/ljgpu/mdsim/base.hpp:35-40 | a vector inside the box is its own periodic image |
| Periodic.MakePeriodicTranslation | src/ljgpu/mdsim/base.hpp:35-40 | translating each component by whole box lengths leaves make_periodic unchanged |
| Periodic.MinImage | src/halmd/mdsim/ljfluid_host.hpp:655-662 | the minimum-image reduction acts on every component by the same single-wrap rule |
| Periodic.MinImageComp | src/halmd/mdsim/ljfluid_host.hpp:655-662 | one separation component: minus box above half the box, plus box below minus half, else unchanged; MinImageBounds and MinImageOdd state its properties |
| Periodic.MinImageBounds | src/halmd/mdsim/ljfluid_host.hpp:642-662 | for a component within 1.5 box lengths the single-wrap reduction lies within half a box and differs from the input by 0 or ±box |
| Periodic.MinImageOdd | src/halmd/mdsim/ljfluid_host.hpp:650-662 | the reduction is odd: the image of −r is minus the image of r |
| Periodic.DotNeg | src/halmd/mdsim/ljfluid_host.hpp:663-664 | the squared distance r·r is the same for the pair in either order |
| Device.FirstSuccess | halmd/utility/gpu/device.cpp:72-82 | the chosen device is the first candidate whose context can be created; none exactly when every candidate fails |
| Device.Candidates | halmd/utility/gpu/device.cpp:63-70 | the devices to try: 0 .. count − 1 when the list is empty, the given list otherwise; DefaultCandidates builds it |
| Device.CheckThreads | halmd/utility/gpu/device.cpp:101-106 | passes exactly when 1 ≤ threads ≤ the block maximum; below 1 fails with the invalid-thread error, above the maximum with the too-many-threads error, in that order |
| Device.ThreadWarnings | halmd/utility/gpu/device.cpp:107-112 | the power-of-two warning exactly when threads & (threads − 1) ≠ 0 in 32 bits; the warp-size warning exactly when threads is not a multiple of the warp size |
| Device.PowerOfTwoPassesBitTest | halmd/utility/gpu/device.cpp:107-109 | a power of two 2^k, k < 32, never triggers the power-of-two warning |
| Device.NinetySixIsNotAPowerOfTwo | halmd/utility/gpu/device.cpp:107-109 | 96 triggers the power-of-two warning and 128 does not |
| Device.OpenDevice | halmd/utility/gpu/device.cpp:47-115 | fails with a driver error when no candidate's context can be created (the device query at lines 84-85 then has no current context); otherwise succeeds exactly when the thread check passes, with the same error otherwise; on success holds a context on the first device that allowed one, keeps threads and reports the warnings of the thread count |
| Device.DefaultCandidates | halmd/utility/gpu/device.cpp:63-70 | an empty device list becomes 0 .. count − 1; a given list is kept |
| Device.ChooseContext | halmd/utility/gpu/device.cpp:72-82 | the loop stops at the first candidate whose context can be created, the one FirstSuccess names |
| Device.Decimal | halmd/utility/gpu/device.cpp:162-164 | the decimal text of a number is a non-empty string of digits |
| Device.ReferenceVersions | halmd/utility/gpu/device.cpp:155-187 | architecture 130 gives "1.3", 200 gives "2.0"; CUDA versions 3020 and 2020 give "3.2" and "2.2" |
| Device.ParseDecimalOfDecimal | halmd/utility/gpu/device.cpp:162-164 | reading the decimal text of n back gives n |
| Device.DotIndex | halmd/utility/gpu/device.cpp:164 | the position of the first '.' of a string, or its length when there is none |
| Device.CudaVersionRoundTrip | halmd/utility/gpu/device.cpp:172-187 | for a non-negative version v the text "major.minor" reads back as (v / 1000, the tens digit of v) |
| Device.CudaVersion | halmd/utility/gpu/device.cpp:172-187 | "major.minor" from a driver or runtime version with C++ truncating division: v / 1000 and v / 10 % 10; ReferenceVersions and CudaVersionRoundTrip state its values |
| Device.ComputeVersionRoundTrip | halmd/utility/gpu/device.cpp:155-165 | for a non-negative architecture number the text reads back as (arch / 100, the tens digit of arch) |
| Device.ComputeVersion | halmd/utility/gpu/device.cpp:155-165 | "major.minor" from the architecture number with C++ truncating division: arch / 100 and arch / 10 % 10; ReferenceVersions and ComputeVersionRoundTrip state its values |
| Device.DecodeNonNegative | halmd/utility/gpu/device.cpp:162-163 | on non-negative numbers C++'s truncating division and remainder agree with Euclidean ones |
| Device.VersionRoundTrip | halmd/utility/gpu/device.cpp:164 | "major.minor" of two non-negative numbers reads back as the same pair |
| Device.DotOfDigits | halmd/utility/gpu/device.cpp:164 | in digits + "." + rest the first '.' follows the digits |
| Device.NegativeVersionDecodesNegative | halmd/utility/gpu/device.cpp:174-176 | a negative version −3020 prints as "-3.-2": the decoding relies on versions being non-negative |
| Device.FindSeparator | halmd/utility/gpu/device.cpp:144 | the index of the first ": " of the string, or none when there is no ": " |
| Device.FindSeparatorAt | halmd/utility/gpu/device.cpp:144 | the first occurrence of ": " is the one reported |
| Device.TrimLeft | halmd/utility/gpu/device.cpp:148 | the result is a suffix of the input, what was removed is white space, and it does not start with white space |
| Device.TrimRight | halmd/utility/gpu/device.cpp:148 | the result is a prefix of the input, what was removed is white space, and it does not end with white space |
| Device.Trim | halmd/utility/gpu/device.cpp:148 | the slice between leading and trailing white space, neither starting nor ending with white space |
| Device.TrimIdempotent | halmd/utility/gpu/device.cpp:148 | trim applied twice equals trim applied once |
| Device.FirstLine | halmd/utility/gpu/device.cpp:137 | the first line of the file: a prefix without '\n', followed by '\n' unless it is the whole content |
| Device.NvidiaDriverVersion | halmd/utility/gpu/device.cpp:130-150 | fails with "failed to query NVIDIA driver version" exactly when the file cannot be opened or its first line is empty; otherwise the trimmed text after the first ": " |
| Device.DriverVersionOfProcLine | halmd/utility/gpu/device.cpp:130-150 | the proc line "NVRM version: 195.36.15 " yields "195.36.15" |
| Device.ProcLineFirstLine | halmd/utility/gpu/device.cpp:137 | the first line of the sample proc file is its version line |
| Device.ProcLineSeparator | halmd/utility/gpu/device.cpp:144-147 | in the sample line the first ": " is at index 12, followed by "195.36.15 " |
| Device.ProcLineTrim | halmd/utility/gpu/device.cpp:148 | trimming "195.36.15 " gives "195.36.15" |
| Device.FirstLineOf | halmd/utility/gpu/device.cpp:137 | the first line of line + "\n" + rest is line, for a line without '\n' |
| Device.DriverVersionWithoutSeparator | halmd/utility/gpu/device.cpp:144-148 | without ": " the whole first line, trimmed, is returned |
| FieldAlgebra.AddToAll | halmd/mdsim/host/fields/constant_force.cpp:55-58 | the field added to every vector, one result per particle, each of the field's dimension |
| FieldAlgebra.Filled | halmd/mdsim/host/fields/constant_force.cpp:66 | n copies of the field, one per particle |
| FieldAlgebra.AddZeroField | halmd/mdsim/host/fields/constant_velocity.cpp:59-61 | adding the zero field leaves every vector unchanged, so skipping the addition is sound |
| FieldAlgebra.AddNonzeroField | halmd/mdsim/host/fields/constant_velocity.cpp:62-68 | adding a field with a nonzero component changes every particle's vector |
| FieldAlgebra.SetThenAdd | halmd/mdsim/host/fields/constant_force.cpp:51-67 | set() followed by add() leaves twice the field on every particle |
| HostFields.ConstantForce.constructor | halmd/mdsim/host/fields/constant_force.cpp:35-48 | keeps the particle and the field |
| HostFields.ConstantForce.SetValue | halmd/mdsim/host/fields/constant_force.hpp:74-77 | the stored field becomes the new value |
| HostFields.ConstantForce.Add | halmd/mdsim/host/fields/constant_force.cpp:50-59 | every force becomes the old force plus the field; nothing else changes |
| HostFields.ConstantForce.Set | halmd/mdsim/host/fields/constant_force.cpp:61-67 | every force becomes the field |
| HostFields.ConstantVelocity.constructor | halmd/mdsim/host/fields/constant_velocity.cpp:35-54 | the zero flag holds exactly when every component of the field is 0 |
| HostFields.ConstantVelocity.Add | halmd/mdsim/host/fields/constant_velocity.cpp:56-69 | with the zero flag the velocities are untouched; in every case each velocity is the old velocity plus the field |
| HostFields.ConstantVelocity.SetAsWritten | halmd/mdsim/host/fields/constant_velocity.cpp:71-75 | as written, set() fills the force array with the field and leaves the velocities unchanged, so whenever some velocity differs from the field the velocities are not the field afterwards |
| HostFields.ConstantVelocity.Set | halmd/mdsim/host/fields/constant_velocity.cpp:71-75 | as intended, every velocity becomes the field |
| HostFields.SetAsWrittenKeepsVelocities | halmd/mdsim/host/fields/constant_velocity.cpp:71-75 | velocities of which one differs from the field are not n copies of the field, which is what set() as written leaves them |
| GpuFields.ZeroFlag | halmd/mdsim/gpu/fields/constant_force.cpp:46-50 | the test of x, y (and z in 3-D) is true exactly when the field is zero |
| GpuFields.AddPrefix | halmd/mdsim/gpu/fields/constant_force.cpp:92 | the first nbox entries get the field added; the entries beyond nbox are unchanged |
| GpuFields.FillPrefix | halmd/mdsim/gpu/fields/constant_force.cpp:72 | the first nbox entries become the field; the entries beyond nbox are unchanged |
| GpuFields.ForceAddSound | halmd/mdsim/gpu/fields/constant_force.cpp:82-100 | with a zero flag that matches the field, add() equals adding the field to every particle |
| GpuFields.ForceAdd | halmd/mdsim/gpu/fields/constant_force.cpp:82-100 | the force buffer after add(): unchanged under the zero flag, else the field added to the first nbox entries; ForceAddSound and StaleZeroFlagSkipsField state its effect |
| GpuFields.ForceSetSound | halmd/mdsim/gpu/fields/constant_force.cpp:54-80 | with a matching zero flag, zero-filling the whole buffer still gives every particle the field |
| GpuFields.ForceSet | halmd/mdsim/gpu/fields/constant_force.cpp:54-80 | the force buffer after set(): the whole capacity zeroed under the zero flag, else the first nbox entries filled with the field; ForceSetSound states its effect |
| GpuFields.StaleZeroFlagSkipsField | halmd/mdsim/gpu/fields/constant_force.hpp:83-87 | a field built as (0, 0) and reset to (1, 0) adds nothing to the force (0, 0), where (1, 0) is due |
| GpuFields.ConstantForce.constructor | halmd/mdsim/gpu/fields/constant_force.cpp:34-52 | keeps the particle and field; the zero flag matches the field |
| GpuFields.ConstantForce.SetValueAsWritten | halmd/mdsim/gpu/fields/constant_force.hpp:83-87 | as written, the field changes and the zero flag keeps its old value |
| GpuFields.ConstantForce.SetValue | halmd/mdsim/gpu/fields/constant_force.hpp:83-87 | as intended, the field changes and the zero flag follows it |
| GpuFields.ConstantForce.Set | halmd/mdsim/gpu/fields/constant_force.cpp:54-80 | with the zero flag the whole buffer, capacity included, is zero; otherwise the first nbox forces are the field and the rest are unchanged |
| GpuFields.ConstantForce.Add | halmd/mdsim/gpu/fields/constant_force.cpp:82-100 | with the zero flag the buffer is unchanged; otherwise the first nbox forces get the field added |
| GpuFields.TagFill | halmd/mdsim/gpu/fields/constant_velocity.cpp:56 | the velocity buffer with the field in the first nbox entries, keeping its length |
| GpuFields.TagAdd | halmd/mdsim/gpu/fields/constant_velocity.cpp:94 | the velocity buffer with the field added to the first nbox entries, keeping its length |
| GpuFields.LowWordsCleared | halmd/mdsim/gpu/fields/constant_velocity.cpp:64-81 | the capacity/2 entries from capacity/2 on are cleared, keeping the length |
| GpuFields.VelocitySetEffect | halmd/mdsim/gpu/fields/constant_velocity.cpp:49-82 | each particle's velocity becomes the field and its tag is kept, when the particles fit below the low-order words |
| GpuFields.VelocitySet | halmd/mdsim/gpu/fields/constant_velocity.cpp:49-82 | the velocity buffer after set(): the tag-preserving fill, then the low-order words cleared with the double-single integrator; VelocitySetEffect and VelocitySetClearsLowWords state its effect |
| GpuFields.VelocitySetClearsLowWords | halmd/mdsim/gpu/fields/constant_velocity.cpp:64-81 | with the double-single integrator every low-order entry is zero after set() |
| GpuFields.VelocityAddEffect | halmd/mdsim/gpu/fields/constant_velocity.cpp:84-95 | add() keeps every tag, adds the field to each particle's velocity and leaves every entry past the particles alone |
| GpuFields.ConstantVelocity.constructor | halmd/mdsim/gpu/fields/constant_velocity.cpp:34-47 | keeps the particle, the field and the integrator choice |
| GpuFields.ConstantVelocity.SetValue | halmd/mdsim/gpu/fields/constant_velocity.hpp:83-86 | replaces the field and nothing else |
| GpuFields.ConstantVelocity.Set | halmd/mdsim/gpu/fields/constant_velocity.cpp:49-82 | the buffer after set() is TagFill, then LowWordsCleared with the double-single integrator |
| GpuFields.ConstantVelocity.Add | halmd/mdsim/gpu/fields/constant_velocity.cpp:84-95 | the buffer after add() is TagAdd of the old buffer |
| SpeciesMatrix.ElementProd | halmd/mdsim/host/potentials/modified_lennard_jones.cpp:61-63 | an ntype1 × ntype2 matrix whose entry (i, j) is a(i, j) · b(i, j) |
| SpeciesMatrix.Halved | halmd/mdsim/host/potentials/modified_lennard_jones.cpp:57-59 | the exponent matrix halved entry by entry, keeping its shape |
| SpeciesMatrix.Storage | halmd/mdsim/gpu/potentials/power_law_with_core.cpp:86-101 | the row-major storage of an n1 × n2 matrix has n1 · n2 entries |
| SpeciesMatrix.StorageAt | halmd/mdsim/gpu/potentials/power_law_with_core.cpp:89-100 | entry (i, j) sits at index i · n2 + j of the row-major storage, which is in range |
| SpeciesMatrix.CutoffEnergies | halmd/mdsim/host/potentials/modified_lennard_jones.cpp:67-72 | entry (i, j) of the result is the pair energy of species (i, j) at its squared cutoff |
| ModifiedLennardJones.EntryCheck | halmd/mdsim/host/potentials/modified_lennard_jones.cpp:84-90 | passes exactly when both exponents are even and m > n; the odd test comes first and gives the "must be even" error, else m ≤ n gives the "must be stronger" error |
| ModifiedLennardJones.CheckIndices | halmd/mdsim/host/potentials/modified_lennard_jones.cpp:81-92 | passes exactly when every entry passes; otherwise the outcome is the error of an entry before which, in row-by-row order, every entry passes |
| ModifiedLennardJones.CutoffNonzero | halmd/mdsim/host/potentials/modified_lennard_jones.cpp:60-62 | nonzero σ and r_c/σ make every squared cutoff nonzero, so the energy at the cutoff is defined |
| ModifiedLennardJones.ModifiedLennardJones.constructor | halmd/mdsim/host/potentials/modified_lennard_jones.cpp:42-72 | keeps the parameters; the halved exponents, r_c = σ ∘ r_c/σ, r_c², σ² and the energy at every cutoff satisfy the object invariant |
| ModifiedLennardJones.ModifiedLennardJones.ShiftedEnergyVanishesAtCutoff | halmd/mdsim/host/potentials/modified_lennard_jones.cpp:67-72 | the energy shifted by en_cut is 0 at every species pair's cutoff |
| ModifiedLennardJones.NewModifiedLennardJones | halmd/mdsim/host/potentials/modified_lennard_jones.cpp:42-93 | an object exactly when every exponent pair is even with m > n, and then it holds the given parameters; otherwise one of the two logic errors |
| ModifiedLennardJones.ReferenceValues | test/unit/mdsim/potentials/pair/modified_lennard_jones.cpp:126-133 | for ε = σ = 1, m = 12, n = 4, r_c = 5σ the force over distance and shifted energy at r = 1 and r = 2 are the tabulated values |
| ModifiedLennardJones.Energy | halmd/mdsim/host/potentials/modified_lennard_jones.cpp:66-72 | the energy 4ε((σ²/rr)^(m/2) − (σ²/rr)^(n/2)) that the constructor evaluates at r_c² for en_cut; ShiftedEnergyVanishesAtCutoff and ReferenceValues state its values |
| ModifiedLennardJones.ForceOverDistance | test/unit/mdsim/potentials/pair/modified_lennard_jones.cpp:125-141 | the force over distance 4ε(m (σ²/rr)^(m/2) − n (σ²/rr)^(n/2)) / rr that the unit test compares as fval; ReferenceValues states its fixture values |
| PowerLawWithCore.HostPowerLawWithCore.constructor | halmd/mdsim/host/potentials/power_law_with_core.cpp:39-75 | keeps the parameters; σ², r_c, r_c² are the elementwise products and every cutoff energy is the potential at its squared cutoff; no input is rejected |
| PowerLawWithCore.GpuPowerLawWithCore.constructor | halmd/mdsim/gpu/potentials/power_law_with_core.cpp:46-103 | keeps the parameters; the cutoff energy is ε (1/(r_c/σ))ⁿ; both packed arrays have ntype1 · ntype2 records, record k holding the k-th row-major entries |
| PowerLawWithCore.GpuCutoffEnergies | halmd/mdsim/gpu/potentials/power_law_with_core.cpp:71-77 | entry (i, j) is ε(i, j) · (1 / r_c/σ(i, j))^n(i, j) |
| PowerLawWithCore.GpuCutoffEnergy | halmd/mdsim/gpu/potentials/power_law_with_core.cpp:73-75 | one pair's cutoff energy ε · (1 / (r_c/σ))^n, with no core term; GpuCutoffEnergies applies it to every pair |
| PowerLawWithCore.PackParams | halmd/mdsim/gpu/potentials/power_law_with_core.cpp:86-94 | ntype1 · ntype2 records; record k holds the k-th stored ε, σ², core radius and exponent, in their four slots |
| PowerLawWithCore.PackCutoffs | halmd/mdsim/gpu/potentials/power_law_with_core.cpp:97-101 | ntype1 · ntype2 records; record k holds the k-th stored squared cutoff and cutoff energy |
| PowerLawWithCore.PackedRecordOfPair | halmd/mdsim/gpu/potentials/power_law_with_core.cpp:86-101 | the records read at flat index i · ntype2 + j are the parameters and cutoff of species pair (i, j) |
| LennardJonesSimple.Make | halmd/mdsim/gpu/forces/lennard_jones_simple.cpp:40-51 | a 1 × 1 cutoff matrix, rr_cut = r_c² > 0 and en_cut = 4 r⁻⁶(r⁻⁶ − 1) at r_c |
| LennardJonesSimple.CutoffEnergy | halmd/mdsim/gpu/forces/lennard_jones_simple.cpp:48-51 | 4 r6i (r6i − 1) with r6i = (1/rr)³; CutoffEnergyNegative, NoShiftAtUnitCutoff and NegativeShiftBeyondUnit state its sign |
| LennardJonesSimple.NoShiftAtUnitCutoff | halmd/mdsim/gpu/forces/lennard_jones_simple.cpp:48-51 | at cutoff 1 the energy shift is 0 |
| LennardJonesSimple.NegativeShiftBeyondUnit | halmd/mdsim/gpu/forces/lennard_jones_simple.cpp:48-51 | for every cutoff above 1 the energy shift is negative |
| LennardJonesSimple.CutoffEnergyNegative | halmd/mdsim/gpu/forces/lennard_jones_simple.cpp:49-51 | the reduced 12-6 energy is negative at every squared distance above 1 |
| Thermodynamics.TotalAppend | halmd/observables/gpu/thermodynamics_kernel.hpp:58-61 | the merged sum of two runs of partial sums is the sum of the two merged sums |
| Thermodynamics.TotalPermutation | halmd/observables/gpu/thermodynamics_kernel.hpp:55-61 | partial sums merged in any order give the same total: the reduction depends only on the multiset of partial sums |
| Thermodynamics.KineticEnergy.constructor | halmd/observables/gpu/thermodynamics_kernel.hpp:45-48 | a new accumulator holds the sum 0 |
| Thermodynamics.KineticEnergy.Merge | halmd/observables/gpu/thermodynamics_kernel.hpp:55-61 | the sum becomes the old sum plus the other's sum, and so does the kinetic energy, also when merging with itself |
| Thermodynamics.KineticEnergy.Result | halmd/observables/gpu/thermodynamics_kernel.hpp:63-69 | the kinetic energy is half of the sum of m v² |
| Thermodynamics.ReduceKinetic | halmd/observables/gpu/thermodynamics_kernel.hpp:45-61 | a fresh accumulator merged with each partial one in turn holds the total of their sums |
| Thermodynamics.VelocityOfCentreOfMass.constructor | halmd/observables/gpu/thermodynamics_kernel.hpp:100-103 | a new accumulator holds zero momentum and zero mass |
| Thermodynamics.VelocityOfCentreOfMass.Merge | halmd/observables/gpu/thermodynamics_kernel.hpp:110-117 | momentum and mass become the sums of both accumulators' |
| Thermodynamics.VelocityOfCentreOfMass.Result | halmd/observables/gpu/thermodynamics_kernel.hpp:119-125 | for nonzero total mass m, the velocity u with m u equal to the total momentum, component by component |
| Thermodynamics.MergedVelocityIsWeightedMean | halmd/observables/gpu/thermodynamics_kernel.hpp:110-125 | the centre-of-mass velocity of two merged accumulators is the mass-weighted mean of their own |
| Thermodynamics.MomentumSum | halmd/observables/gpu/thermodynamics_kernel.hpp:113-117 | each component of the merged momentum is the total of that component over the accumulators |
| Thermodynamics.ReduceVelocityOfCentreOfMass | halmd/observables/gpu/thermodynamics_kernel.hpp:100-117 | a fresh accumulator merged with each partial one holds the summed momentum and the total mass |
| Thermodynamics.MergeNext | halmd/observables/gpu/thermodynamics_kernel.hpp:113-117 | merging accumulator k into the total of the first k gives the total of the first k + 1 |
| Thermodynamics.CentreOfMassSnoc | halmd/observables/gpu/thermodynamics_kernel.hpp:113-117 | one more accumulator adds its momentum and its mass to the totals |
| Thermodynamics.PotentialEnergy.Merge | halmd/observables/gpu/thermodynamics_kernel.hpp:161-167 | the potential energy becomes the old one plus the other's |
| Thermodynamics.PotentialEnergy.MergeAll | halmd/observables/gpu/thermodynamics_kernel.hpp:161-175 | merging partial accumulators in turn adds the total of their energies to the result |
| Thermodynamics.PotentialEnergy.Result | halmd/observables/gpu/thermodynamics_kernel.hpp:171-175 | the accumulated potential energy; MergeAll states it after a reduction |
| Thermodynamics.Virial.Merge | halmd/observables/gpu/thermodynamics_kernel.hpp:212-218 | the virial becomes the old one plus the other's |
| Thermodynamics.Virial.MergeAll | halmd/observables/gpu/thermodynamics_kernel.hpp:212-226 | merging partial accumulators in turn adds the total of their virials to the result |
| Thermodynamics.Virial.Result | halmd/observables/gpu/thermodynamics_kernel.hpp:222-226 | the accumulated virial; MergeAll states it after a reduction |
| FccLattice.UnitCellSites | src/halmd/mdsim/ljfluid_host.hpp:407-408 | 2 sites per unit cell in two dimensions, 4 in three |
| FccLattice.UnitCellsAsWritten | src/halmd/mdsim/ljfluid_host.hpp:409-417 | as written: the lower boundary n, raised by one exactly when m·nᵈ sites are fewer than the particles; positive whenever there are particles |
| FccLattice.FloorRoot | src/halmd/mdsim/ljfluid_host.hpp:410 | the exact truncated d-th root k of q, kᵈ ≤ q < (k+1)ᵈ, which the floating-point root is meant to give |
| FccLattice.UnitCellsSuffice | src/halmd/mdsim/ljfluid_host.hpp:409-417 | with the exact root the lattice has at least npart sites, and one unit cell fewer per dimension would have fewer |
| FccLattice.UnitCells | src/halmd/mdsim/ljfluid_host.hpp:409-417 | the corrected sizing: the source's raise-once rule applied to the exact floor root of npart / m; UnitCellsSuffice states that it has room for every particle and is the smallest that does |
| FccLattice.AsWrittenTooFewSites | src/halmd/mdsim/ljfluid_host.hpp:410-416 | for 257 particles in 3-D the truncated root 3 of the rounded 3.9999999999999996 is raised only to 4, leaving 256 sites, although 4 is the exact root of 64 |
| FccLattice.ExtraParticleOnImageOfFirst | src/halmd/mdsim/ljfluid_host.hpp:433-437 | with 4 cells per dimension particle 256 is placed at (0, 0, 4) lattice units, the periodic image of particle 0 at the origin |
| FccLattice.ExactSizingOf257 | src/halmd/mdsim/ljfluid_host.hpp:409-417 | with the exact root, 257 particles in 3-D get 5 cells per dimension and 500 sites |
| FccLattice.FloorRootUnique | src/halmd/mdsim/ljfluid_host.hpp:410 | the truncated root is unique |
| FccLattice.LatticePoint | src/halmd/mdsim/ljfluid_host.hpp:432-441 | site i in lattice units: in 3-D unit cell i >> 2 split into (c mod n, c / n mod n, c / n / n) plus half units chosen by the low bits; in 2-D cell i >> 1 plus (i & 1)/2 on both axes |
| FccLattice.Point3 | src/halmd/mdsim/ljfluid_host.hpp:432-436 | the 3-D site of unit cell (x, y, z): x plus (b0 xor b1)/2, y plus b0/2, z plus b1/2, with three coordinates |
| FccLattice.Point2 | src/halmd/mdsim/ljfluid_host.hpp:437-440 | the 2-D site of unit cell (x, y): both coordinates plus b0/2, with two coordinates |
| FccLattice.PointOfHalfUnits | src/halmd/mdsim/ljfluid_host.hpp:432-441 | every coordinate of a site is an integer number of half lattice units |
| FccLattice.SiteIndexOfSite | src/halmd/mdsim/ljfluid_host.hpp:432-441 | the site index can be read back from the half units of its position, so the map from index to site is injective |
| FccLattice.SitesDistinct | src/halmd/mdsim/ljfluid_host.hpp:429-445 | distinct indices give distinct raw lattice points, whatever n is; together with the half-open bound of SitePositionsInBox this keeps particles off each other's periodic images as well |
| FccLattice.Euclid | src/halmd/mdsim/ljfluid_host.hpp:434-441 | the unsigned quotient and remainder satisfy c = (c mod n) + n · (c / n) |
| FccLattice.SiteInsideLattice | src/halmd/mdsim/ljfluid_host.hpp:432-441 | a site with index below m·nᵈ lies in [0, n) along every axis |
| FccLattice.SitePosition | src/halmd/mdsim/ljfluid_host.hpp:422-423 | the site scaled by the lattice distance a = box / n |
| FccLattice.PlaceParticles | src/halmd/mdsim/ljfluid_host.hpp:427-445 | particle i is placed at site i scaled by box / n; the positions are pairwise distinct, and when there are enough sites every coordinate lies in the half-open [0, box) and no two positions are periodic images of each other |
| FccLattice.SitePositionsDistinct | src/halmd/mdsim/ljfluid_host.hpp:429-445 | positions of distinct particles differ, since scaling by a nonzero lattice distance is injective |
| FccLattice.SitePositionsInBox | src/halmd/mdsim/ljfluid_host.hpp:429-445 | when the lattice has enough sites every coordinate lies in the half-open [0, box), hence also in the closed [0, box] |
| FccLattice.DistinctInsideNoImages | src/halmd/mdsim/ljfluid_host.hpp:429-445 | distinct positions inside the half-open box stay distinct after the periodic fold, so none is the image of another |
| FccLattice.Lattice | src/halmd/mdsim/ljfluid_host.hpp:392-445 | n is the exact sizing, with at least npart sites; each particle on its own site, all pairwise distinct, every coordinate in the half-open [0, box), and no two particles periodic images of each other, which is what the corrected sizing buys over the as-written one |
| PairFull.Start | halmd/mdsim/host/forces/pair_full.hpp:189-197 | a pass starts with every force and every auxiliary sum zero |
| PairFull.PairDistance | halmd/mdsim/host/forces/pair_full.hpp:206-208 | the reduced distance vector r[i] − r[j], of the system's dimension |
| PairFull.PairForce | halmd/mdsim/host/forces/pair_full.hpp:213-225 | the pair force: the distance vector times the potential's fval at the squared distance, of the system's dimension |
| PairFull.Visit | halmd/mdsim/host/forces/pair_full.hpp:201-237 | one ordered pair keeps the shape of the sums: the self pair changes nothing, any other adds the force to i, subtracts it from j and adds the auxiliary terms |
| PairFull.Row | halmd/mdsim/host/forces/pair_full.hpp:201-238 | the sums after the pairs (i, 0) .. (i, j − 1) keep their shape |
| PairFull.Rows | halmd/mdsim/host/forces/pair_full.hpp:199-239 | the sums after rows 0 .. i − 1 keep their shape |
| PairFull.PassSums | halmd/mdsim/host/forces/pair_full.hpp:187-239 | the sums of a whole pass hold one force per particle and a full stress tensor |
| PairFull.VisitKeepsTotalForce | halmd/mdsim/host/forces/pair_full.hpp:224-226 | visiting one pair leaves every component of the total force unchanged, because the same force is added to i and subtracted from j |
| PairFull.RowKeepsTotalForce | halmd/mdsim/host/forces/pair_full.hpp:201-238 | a row of visits leaves the total force unchanged |
| PairFull.LastVisitKeepsTotalForce | halmd/mdsim/host/forces/pair_full.hpp:201-238 | the last visit of a partial row leaves the total force unchanged |
| PairFull.RowsKeepTotalForce | halmd/mdsim/host/forces/pair_full.hpp:199-239 | any number of rows leaves the total force unchanged |
| PairFull.LastRowKeepsTotalForce | halmd/mdsim/host/forces/pair_full.hpp:199-239 | the last row of a partial pass leaves the total force unchanged |
| PairFull.TotalForceVanishes | halmd/mdsim/host/forces/pair_full.hpp:187-239 | Newton's third law: every component of the total force of a pass is zero |
| PairFull.TwoParticlesEachPairTwice | halmd/mdsim/host/forces/pair_full.hpp:199-226 | with two particles, particle 0 receives the force of (0, 1) minus that of (1, 0), and particle 1 the opposite: each unordered pair is visited twice |
| PairFull.Enable | halmd/mdsim/host/forces/pair_full.hpp:81-85 | aux_enable() sets the request flag and leaves the validity alone |
| PairFull.AfterCompute | halmd/mdsim/host/forces/pair_full.hpp:170-183 | compute() makes the variables valid exactly when they were requested; the request survives only a diverged pass, which throws before clearing it |
| PairFull.AuxIsOneShot | halmd/mdsim/host/forces/pair_full.hpp:76-85 | after aux_enable() one compute() makes the auxiliary variables valid and a second one makes them invalid again |
| PairFull.NoEnableNoAux | halmd/mdsim/host/forces/pair_full.hpp:170-183 | without a request compute() leaves the auxiliary variables invalid, whether or not it diverges |
| PairFull.PerParticleTensor | halmd/mdsim/host/forces/pair_full.hpp:243 | every component of the stress tensor divided by nbox |
| PairFull.PairLoop | halmd/mdsim/host/forces/pair_full.hpp:187-239 | the nested loop gives the forces of a pass, and in an aux pass all its sums too |
| PairFull.PairRow | halmd/mdsim/host/forces/pair_full.hpp:201-238 | the inner j-loop over (i, 0) .. (i, nbox − 1) leaves the forces of Row over all nbox visits, and with the auxiliary pass every sum of that Row; the sums keep their shape |
| PairFull.VisitPair | halmd/mdsim/host/forces/pair_full.hpp:202-237 | one loop body leaves the forces of Visit of (i, j): the self pair skipped, +r·fval on i and −r·fval on j; with the auxiliary pass also Visit's energy, stress and hypervirial |
| PairFull.ForcePairFull.constructor | halmd/mdsim/host/forces/pair_full.hpp:147-161 | the auxiliary variables are neither requested nor valid |
| PairFull.ForcePairFull.AuxEnable | halmd/mdsim/host/forces/pair_full.hpp:81-85 | the request flag is set; the validity is kept |
| PairFull.ForcePairFull.PotentialEnergy | halmd/mdsim/host/forces/pair_full.hpp:87-92 | the mean potential energy exactly when the variables are valid; otherwise the logic error "Auxiliary variables were not enabled in force module." |
| PairFull.ForcePairFull.StressTensorPot | halmd/mdsim/host/forces/pair_full.hpp:94-99 | the stress tensor exactly when the variables are valid; otherwise the same logic error |
| PairFull.ForcePairFull.Hypervirial | halmd/mdsim/host/forces/pair_full.hpp:101-106 | the hypervirial exactly when the variables are valid; otherwise the same logic error |
| PairFull.ForcePairFull.Compute | halmd/mdsim/host/forces/pair_full.hpp:169-251 | the forces are those of a pass; the flags follow AfterCompute; an aux pass stores the per-particle means and fails with "Potential energy diverged" exactly when the mean energy is infinite; without a request the sums are untouched |
| FluidCells.TruncToInt | src/halmd/mdsim/ljfluid_host.hpp:304 | the conversion to int truncates toward zero: the result is the integer part of the quotient, for either sign |
| FluidCells.Max3 | src/halmd/mdsim/ljfluid_host.hpp:304 | max_element over the three cutoff-plus-skin radii: bounds every radius and is one of them |
| FluidCells.CellLengthCoversCutoff | src/halmd/mdsim/ljfluid_host.hpp:304-317 | with ncell = trunc(box / max radius) cells, the cell length box / ncell is at least the largest cutoff plus skin, and one more cell would make it shorter |
| FluidCells.CellOf | src/halmd/mdsim/ljfluid_host.hpp:554-563 | the cell index of a position has one coordinate per dimension, each in [0, ncell) |
| FluidCells.CellOfLocates | src/halmd/mdsim/ljfluid_host.hpp:558-561 | a coordinate inside the box lies between the lower and upper edge of the cell compute_cell assigns it |
| FluidCells.OffsetAt | src/halmd/mdsim/ljfluid_host.hpp:598-602 | the k-th neighbour offset of the nested j loops has one component per dimension, each in {-1, 0, 1} |
| FluidCells.OffsetIndexRoundTrip | src/halmd/mdsim/ljfluid_host.hpp:598-602 | every offset in {-1, 0, 1}^d is visited by the j loops, at a position its index gives back |
| FluidCells.OffsetAtIndex | src/halmd/mdsim/ljfluid_host.hpp:598-602 | distinct loop positions give distinct offsets: the index of the k-th offset is k |
| FluidCells.OffsetHalves | src/halmd/mdsim/ljfluid_host.hpp:603-605 | the loops reach the zero offset at the middle position; exactly the offsets before it are lexicographically negative; the offset at position k is the negation of the one at 3^d - 1 - k, so the visited half shell and its mirror cover all 3^d - 1 neighbours |
| FluidCells.NeighbourCell | src/halmd/mdsim/ljfluid_host.hpp:608-611 | the neighbour cell (i + ncell + j) % ncell lies in the grid |
| FluidCells.NeighbourCellInjective | src/halmd/mdsim/ljfluid_host.hpp:608-611 | with at least 3 cells per dimension, distinct offsets lead to distinct neighbour cells, so no cell list is visited twice |
| FluidCells.NeighbourCellZero | src/halmd/mdsim/ljfluid_host.hpp:629-631 | the zero offset leads to the particle's own cell |
| FluidCells.NeighbourCellReturn | src/halmd/mdsim/ljfluid_host.hpp:608-611 | going to the neighbour at offset j1 and then at offset j2 returns to the cell iff j2 is the negation of j1 |
| FluidCells.CellMembersSpec | src/halmd/mdsim/ljfluid_host.hpp:546-548 | a particle is in the list of cell c after the first n insertions iff it is among the first n and its position falls into c |
| FluidCells.CellMembers | src/halmd/mdsim/ljfluid_host.hpp:545-548 | the particles among the first n whose position falls into cell c, in the order update_cells appends them; CellMembersSpec states membership both ways |
| FluidCells.CellsConsistentLookup | src/halmd/mdsim/ljfluid_host.hpp:538-549 | after update_cells, a particle is in a cell's list iff its position falls into that cell |
| FluidCells.CandidatesSpec | src/halmd/mdsim/ljfluid_host.hpp:645-672 | compute_cell_neighbours appends exactly the particles of the list that pass the same-cell tag test and lie within the squared cutoff plus skin under the minimum image |
| FluidCells.PairType | src/halmd/mdsim/ljfluid_host.hpp:653 | the cutoff index of a pair: the sum of the species when binary, else 0 |
| FluidCells.ImageDistSq | src/halmd/mdsim/ljfluid_host.hpp:650-664 | r·r of the minimum-image separation r1 − r2; ImageDistSqSymmetric states its symmetry |
| FluidCells.Accepts | src/halmd/mdsim/ljfluid_host.hpp:645-668 | a partner is kept unless, in the same cell, its tag is not above p1's, and only when its squared image distance is below rr_cut_skin of the pair type; AcceptsAcrossCells states its symmetry |
| FluidCells.Candidates | src/halmd/mdsim/ljfluid_host.hpp:637-673 | the accepted partners of one cell list, in list order; CandidatesSpec states membership both ways |
| FluidCells.HalfShellSpec | src/halmd/mdsim/ljfluid_host.hpp:598-628 | the partners gathered from the first k half-shell cells are exactly the accepted particles of those cells |
| FluidCells.HalfShell | src/halmd/mdsim/ljfluid_host.hpp:598-628 | the partners gathered from the neighbour cells at the first k offsets of the nested j-loops; HalfShellSpec states membership both ways |
| FluidCells.NeighbourListAt | src/halmd/mdsim/ljfluid_host.hpp:594-631 | the cleared list, then the half shell up to the zero offset, then p1's own cell; NeighbourListSpec states its members |
| FluidCells.NeighbourList | src/halmd/mdsim/ljfluid_host.hpp:590-633 | p1's list built from the cell its position falls into; NeighbourListSpec, NeighbourListNoSelf, NeighbourListCutoff, NeighbourListNoPairTwice and NeighbourListComplete state its properties |
| FluidCells.NeighbourListSpec | src/halmd/mdsim/ljfluid_host.hpp:590-633 | with consistent cell lists, q is in p's neighbour list iff q is in a half-shell neighbour cell of p's cell within the cutoff plus skin, or q is in p's own cell with a larger tag and within the cutoff plus skin |
| FluidCells.HalfShellNotOwnCell | src/halmd/mdsim/ljfluid_host.hpp:598-628 | no half-shell offset leads back to the particle's own cell |
| FluidCells.NeighbourListNoSelf | src/halmd/mdsim/ljfluid_host.hpp:647-648 | no particle is its own neighbour |
| FluidCells.NeighbourListCutoff | src/halmd/mdsim/ljfluid_host.hpp:666-668 | every listed neighbour is closer than the cutoff plus skin of its pair type, under the minimum image |
| FluidCells.ImageDistSqSymmetric | src/halmd/mdsim/ljfluid_host.hpp:651-664 | the squared minimum-image distance does not depend on the order of the pair |
| FluidCells.AcceptsAcrossCells | src/halmd/mdsim/ljfluid_host.hpp:651-668 | the cross-cell test for admitting a partner is symmetric in the pair |
| FluidCells.HalfShellReturn | src/halmd/mdsim/ljfluid_host.hpp:598-628 | if q's cell is in the half shell of p's cell, p's cell is not in the half shell of q's cell |
| FluidCells.NeighbourListNoPairTwice | src/halmd/mdsim/ljfluid_host.hpp:590-673 | no pair is in both partners' neighbour lists, so Newton's third law counts each pair once |
| FluidCells.NeighbourListShellIntro | src/halmd/mdsim/ljfluid_host.hpp:608-612 | a particle in a half-shell cell within the cutoff plus skin is listed |
| FluidCells.NeighbourListOwnIntro | src/halmd/mdsim/ljfluid_host.hpp:631 | a particle in the own cell with a larger tag within the cutoff plus skin is listed |
| FluidCells.NeighbourListComplete | src/halmd/mdsim/ljfluid_host.hpp:590-673 | every pair of distinct particles in adjacent cells and within the cutoff plus skin is in one of the two neighbour lists |
| FluidForces.Smooth | src/halmd/mdsim/ljfluid_host.hpp:776-792 | the C2-smoothed force and energy both vanish at the cutoff distance |
| FluidForces.SmoothDampsEnergy | src/halmd/mdsim/ljfluid_host.hpp:780-791 | the smoothed energy is the unsmoothed energy times the factor x^4/(1+x^4), which lies in [0, 1) |
| FluidForces.PairForce | src/halmd/mdsim/ljfluid_host.hpp:715-725 | without smoothing, the pair energy is the shifted Lennard-Jones energy 4 (sigma^2/rr)^3 ((sigma^2/rr)^3 - 1) - en_cut, scaled by epsilon |
| FluidForces.PairEnergyVanishesAtCutoff | src/halmd/mdsim/ljfluid_host.hpp:721 | with en_cut equal to the unshifted energy at the cutoff, the pair energy is zero at the cutoff distance |
| FluidForces.PairVirial | src/halmd/mdsim/ljfluid_host.hpp:735-757 | one pair's virial contribution has the trace entry and the off-diagonal entries of the dimension: 4 entries in 3-D, 2 in 2-D |
| FluidForces.ForceStep | src/halmd/mdsim/ljfluid_host.hpp:694-758 | one pair visit keeps the force state well formed: one force per particle and one virial tensor per species |
| FluidForces.FoldForces | src/halmd/mdsim/ljfluid_host.hpp:692-759 | visiting a sequence of pairs in order keeps the force state well formed |
| FluidForces.NeighbourPairs | src/halmd/mdsim/ljfluid_host.hpp:692-694 | the pairs visited by the two nested loops name particles only |
| FluidForces.PairsOf | src/halmd/mdsim/ljfluid_host.hpp:694 | the visits for p1 are (p1, p2) for the entries p2 of p1's neighbour list, in list order |
| FluidForces.FoldForcesAppend | src/halmd/mdsim/ljfluid_host.hpp:692-759 | visiting a + b is visiting a and then b |
| FluidForces.FoldForcesSnoc | src/halmd/mdsim/ljfluid_host.hpp:692-759 | visiting one more pair is one more step of the inner loop |
| FluidForces.PairsOfSnoc | src/halmd/mdsim/ljfluid_host.hpp:692-694 | the visits before list p1 and its first j + 1 entries are the earlier visits and then (p1, nbl[p1][j]) |
| FluidForces.ForceStepConservesMomentum | src/halmd/mdsim/ljfluid_host.hpp:727-729 | each pair visit adds to p1 the force it takes from p2, so every component of the total force is unchanged |
| FluidForces.FoldForcesConservesMomentum | src/halmd/mdsim/ljfluid_host.hpp:692-759 | Newton's third law: visiting any sequence of pairs leaves every component of the total force unchanged |
| FluidForces.CutoffPairs | src/halmd/mdsim/ljfluid_host.hpp:711-713 | the pairs inside their cutoff, in order, name particles only |
| FluidForces.FoldForcesOnlyCutoffPairs | src/halmd/mdsim/ljfluid_host.hpp:711-713 | pairs at or beyond the cutoff contribute nothing: dropping them gives the same forces, energy and virial |
| FluidForces.ForceStepDiverges | src/halmd/mdsim/ljfluid_host.hpp:709-732 | a pair visit makes the energy infinite iff it already was or the pair is inside the cutoff at zero distance |
| FluidForces.AnyCoincidentSnoc | src/halmd/mdsim/ljfluid_host.hpp:692-759 | a sequence has a coincident pair iff its prefix has one or its last pair is one |
| FluidForces.FoldForcesDiverges | src/halmd/mdsim/ljfluid_host.hpp:767-770 | the energy ends infinite iff it started infinite or some visited pair is coincident: the condition for potential_energy_divergence |
| FluidForces.FoldForcesEnergy | src/halmd/mdsim/ljfluid_host.hpp:731-732 | the accumulated energy is the start value plus the sum of the pair energies of the visited pairs |
| FluidForces.PairEnergy | src/halmd/mdsim/ljfluid_host.hpp:709-732 | the energy one pair adds: 0 at or beyond the cutoff and at zero distance, else the shifted (and optionally smoothed) pot; PairEnergyVanishesAtCutoff states its cutoff value |
| FluidForces.EnergySum | src/halmd/mdsim/ljfluid_host.hpp:693-732 | the sum of the pair energies over the visited pairs in order; FoldForcesEnergy ties it to the accumulated en_pot |
| FluidForces.StepForces | src/halmd/mdsim/ljfluid_host.hpp:680-759 | the state compute_forces reaches from zero forces and zero energy by visiting every neighbour pair is well formed |
| FluidForces.StepForcesProperties | src/halmd/mdsim/ljfluid_host.hpp:680-770 | after compute_forces' loops the total force is zero, the energy is the sum of the pair energies over all neighbour pairs, and it is infinite iff some neighbour pair is coincident |
| FluidForces.KineticTerms | src/halmd/mdsim/ljfluid_host.hpp:805-813 | one velocity's kinetic virial terms have the tensor size of the dimension |
| FluidForces.ZeroTensors | src/halmd/mdsim/ljfluid_host.hpp:800 | virial.assign makes one zero tensor per species |
| FluidForces.KineticVirial | src/halmd/mdsim/ljfluid_host.hpp:797-815 | the kinetic virial holds one tensor of the dimension's size per species |
| FluidForces.TraceSumAddAt | src/halmd/mdsim/ljfluid_host.hpp:803-805 | adding a particle's terms to its species raises the summed trace by its v.v |
| FluidForces.TraceSumZero | src/halmd/mdsim/ljfluid_host.hpp:800 | the zero tensors have trace sum zero |
| FluidForces.KineticVirialTrace | src/halmd/mdsim/ljfluid_host.hpp:797-815 | summed over species, the kinetic virial trace is the sum of v.v over the particles |
| FluidMotion.Kick | src/halmd/mdsim/ljfluid_host.hpp:827 | the half-step velocity is v + f*dt/2 in every component |
| FluidMotion.Drift | src/halmd/mdsim/ljfluid_host.hpp:828-841 | every coordinate is advanced by v*dt and then wrapped at most once by one box length |
| FluidMotion.WrapComp | src/halmd/mdsim/ljfluid_host.hpp:831-841 | one coordinate wrapped once: minus box above box, plus box below 0; DriftStaysInBox and WrapKeepsUnwrapped state its properties |
| FluidMotion.DriftImage | src/halmd/mdsim/ljfluid_host.hpp:831-841 | the image counter of each coordinate moves by exactly the one wrap the position made |
| FluidMotion.ImageShift | src/halmd/mdsim/ljfluid_host.hpp:831-841 | the image counter change of that wrap: +1, −1 or 0; WrapKeepsUnwrapped states that wrap and counter together keep r + R·box |
| FluidMotion.Unwrapped | src/halmd/mdsim/ljfluid_host.hpp:979 | the periodically extended position is r + R*box in every component |
| FluidMotion.WrapKeepsUnwrapped | src/halmd/mdsim/ljfluid_host.hpp:833-840 | a wrap and its counter update together leave the extended position unchanged |
| FluidMotion.DriftAdvancesUnwrapped | src/halmd/mdsim/ljfluid_host.hpp:828-841 | after the drift and the wrap, the extended position r + R*box has moved by exactly v*dt |
| FluidMotion.DriftStaysInBox | src/halmd/mdsim/ljfluid_host.hpp:832-841 | when the step moves a coordinate by less than one box length, the wrapped coordinate lies in [0, box] |
| FluidMotion.KickAll | src/halmd/mdsim/ljfluid_host.hpp:855-858 | every particle's velocity gets its own half-step kick |
| FluidMotion.DriftAll | src/halmd/mdsim/ljfluid_host.hpp:825-841 | every particle's position gets its own drift and wrap |
| FluidMotion.DriftImageAll | src/halmd/mdsim/ljfluid_host.hpp:825-841 | every particle's image counter gets its own update |
| FluidMotion.MaxSquare | src/halmd/mdsim/ljfluid_host.hpp:823-843 | vv_max is non-negative, bounds v.v of every particle, and is the v.v of one of them or 0 when there are none |
| FluidMotion.MaxSpeed | src/halmd/mdsim/ljfluid_host.hpp:843-846 | sqrt of the largest v·v, the amount v_max_sum grows by; MaxSquare states the bound it applies sqrt to |
| FluidMotion.Shift | src/halmd/mdsim/ljfluid_host.hpp:522-523 | every velocity has v_cm subtracted |
| FluidMotion.ScaleAll | src/halmd/mdsim/ljfluid_host.hpp:530-531 | every velocity is multiplied by the same factor |
| FluidMotion.MeanVelocity | src/halmd/mdsim/ljfluid_host.hpp:517-519 | the mean velocity has one component per dimension |
| FluidMotion.SumCompShift | src/halmd/mdsim/ljfluid_host.hpp:522-523 | subtracting w from every velocity lowers each total momentum component by npart * w |
| FluidMotion.CentredMomentumZero | src/halmd/mdsim/ljfluid_host.hpp:515-523 | after subtracting the mean velocity every component of the total momentum is zero |
| FluidMotion.SumCompScale | src/halmd/mdsim/ljfluid_host.hpp:530-531 | scaling every velocity scales each total momentum component by the same factor |
| FluidMotion.DotScale | src/halmd/mdsim/ljfluid_host.hpp:531 | scaling a velocity by s multiplies v.v by s^2 |
| FluidMotion.SquaresSumScale | src/halmd/mdsim/ljfluid_host.hpp:524-531 | scaling every velocity by s multiplies the sum of v.v by s^2 |
| FluidMotion.MeanSquareScale | src/halmd/mdsim/ljfluid_host.hpp:524-531 | scaling every velocity by s multiplies the mean v.v by s^2 |
| FluidMotion.MeanSquare | src/halmd/mdsim/ljfluid_host.hpp:996-1007 | Σ v·v divided by the number of particles, as sample.vv; MeanSquareScale and ThermalizeEffect state its value after scaling and thermalisation |
| FluidMotion.MomentumScale | src/halmd/mdsim/ljfluid_host.hpp:530-531 | scaling every velocity by s scales every total momentum component by s |
| FluidMotion.Thermalize | src/halmd/mdsim/ljfluid_host.hpp:515-532 | boltzmann leaves one velocity per drawn velocity |
| FluidMotion.BathVelocities | src/halmd/mdsim/ljfluid_host.hpp:506-533 | boltzmann at temperature temp leaves one velocity per particle |
| FluidMotion.ThermalizeEffect | src/halmd/mdsim/ljfluid_host.hpp:506-533 | with s the square root of temp*dimension/vv, boltzmann leaves zero total momentum and mean v.v equal to temp*dimension |
| FluidMotion.ThermostatStep | src/halmd/mdsim/ljfluid_host.hpp:934-949 | with no thermostat the counter is untouched and the bath never couples; otherwise a counter below the period stays below it |
| FluidMotion.RemainderStep | src/halmd/mdsim/ljfluid_host.hpp:934 | incrementing a count raises its remainder by one or wraps it to zero |
| FluidMotion.ThermostatCountIsRemainder | src/halmd/mdsim/ljfluid_host.hpp:934-949 | after n steps from zero the thermostat counter is n mod thermostat_steps |
| FluidMotion.ThermostatPeriodic | src/halmd/mdsim/ljfluid_host.hpp:934-949 | the heat bath couples at step n iff n is a multiple of thermostat_steps |
| LjFluid.BlockStartIncreasing | src/halmd/mdsim/ljfluid_host.hpp:969 | with every species nonempty, the first tag m of each later species block is larger, so the blocks of sample do not overlap |
| LjFluid.DivideTensor | src/halmd/mdsim/ljfluid_host.hpp:764 | every component of a virial tensor is divided by the species' particle count |
| LjFluid.PerParticle | src/halmd/mdsim/ljfluid_host.hpp:763-765 | each species' virial tensor is divided by that species' count mpart[i] |
| LjFluid.PairAccepted | src/halmd/mdsim/ljfluid_host.hpp:645-668 | the tag skip in the own cell, the minimum image and the squared cutoff-plus-skin test decide exactly the Accepts predicate |
| LjFluid.ComputeCellNeighbours | src/halmd/mdsim/ljfluid_host.hpp:638-673 | the neighbour list is extended by exactly the accepted particles of the cell list, in list order |
| LjFluid.CellNeighbourList | src/halmd/mdsim/ljfluid_host.hpp:594-631 | a particle's list is cleared and then receives the half-shell cells' partners followed by the own cell's partners |
| LjFluid.CutSkin | src/halmd/mdsim/ljfluid_host.hpp:298-299 | r_cut_skin[i] = r_cut[i] + r_skin for every pair type, the other entries kept |
| LjFluid.SquaredCutSkin | src/halmd/mdsim/ljfluid_host.hpp:298-300 | rr_cut_skin[i] is the square of r_cut_skin[i] for every pair type, the other entries kept |
| LjFluid.SkinRadii | src/halmd/mdsim/ljfluid_host.hpp:298-301 | the loop leaves exactly the cutoff-plus-skin radii and their squares |
| LjFluid.CellGrid | src/halmd/mdsim/ljfluid_host.hpp:303-317 | ncell is box / max radius truncated, and when it is positive the cell length box / ncell is at least the largest cutoff plus skin |
| LjFluid.AppendToCell | src/halmd/mdsim/ljfluid_host.hpp:546-548 | appending particle k to the list of its own cell turns the lists of the first k particles into those of the first k + 1 |
| LjFluid.CellsComplete | src/halmd/mdsim/ljfluid_host.hpp:538-549 | lists holding the members of every cell after all particles are consistent and hold particle indices only |
| LjFluid.AddSite | src/halmd/mdsim/ljfluid_host.hpp:547 | one insertion of update_cells leaves every cell holding its members among the first k + 1 particles |
| LjFluid.CellDone3 | src/halmd/mdsim/ljfluid_host.hpp:573-578 | after cell (i0, i1, i2) in the 3-D loop order, every particle of an earlier or equal cell has its final neighbour list |
| LjFluid.CellDone2 | src/halmd/mdsim/ljfluid_host.hpp:573-584 | after cell (i0, i1) in the 2-D loop order, every particle of an earlier or equal cell has its final neighbour list |
| LjFluid.ListForces | src/halmd/mdsim/ljfluid_host.hpp:694-758 | the inner loop over p1's neighbours is the fold of the force step over the pairs up to and including p1's list |
| LjFluid.AccumulateForces | src/halmd/mdsim/ljfluid_host.hpp:692-759 | the double loop is the fold of the force step over every neighbour pair in order |
| LjFluid.DivideBySpecies | src/halmd/mdsim/ljfluid_host.hpp:763-765 | the final loop divides each species' virial by its particle count |
| LjFluid.WrapParticle | src/halmd/mdsim/ljfluid_host.hpp:828-841 | the drift and the wrap loop of one particle produce the drifted position and image counter |
| LjFluid.HalfStep | src/halmd/mdsim/ljfluid_host.hpp:823-844 | the particle loop of leapfrog_half kicks every velocity, drifts and wraps every position, updates every image counter, and leaves vv_max the largest v.v of the new velocities |
| LjFluid.HalfStepEffect | src/halmd/mdsim/ljfluid_host.hpp:825-841 | when no coordinate moves by a box length or more, every position ends in [0, box] and every unwrapped position r + R*box has moved by exactly v*dt |
| LjFluid.Integrate | src/halmd/mdsim/ljfluid_host.hpp:943-945 | the Helfand moment keeps the shape of one tensor per species |
| LjFluid.Fluid.constructor | src/halmd/mdsim/ljfluid_host.hpp:64-85 | a system with the given particles, zero box images and forces, empty neighbour and cell lists, zero accumulators and no cell grid yet |
| LjFluid.Fluid.SetSkinRadii | src/halmd/mdsim/ljfluid_host.hpp:295-301 | r_skin is the new value and the cutoff-plus-skin radii and their squares are recomputed from it |
| LjFluid.Fluid.NblSkin | src/halmd/mdsim/ljfluid_host.hpp:292-318 | ncell = trunc(box / max r_cut_skin); the call fails with "less than least 3 cells per dimension" iff ncell < 3, leaving the cell lists and length; otherwise the cell lists are emptied and the cell length box / ncell covers the largest cutoff plus skin |
| LjFluid.Fluid.UpdateCells | src/halmd/mdsim/ljfluid_host.hpp:538-549 | afterwards every cell list holds exactly the particles whose position falls into that cell; nothing else changes |
| LjFluid.Fluid.UpdateCellNeighbours | src/halmd/mdsim/ljfluid_host.hpp:590-633 | every particle of cell i receives its neighbour list; every other particle's list is unchanged |
| LjFluid.Fluid.UpdateRowNeighbours | src/halmd/mdsim/ljfluid_host.hpp:576-578 | after one row of cells, every particle of that row or an earlier one has its final neighbour list |
| LjFluid.Fluid.UpdateSliceNeighbours | src/halmd/mdsim/ljfluid_host.hpp:574-583 | after one value of i[0], every particle with cell coordinate up to it has its final neighbour list |
| LjFluid.Fluid.UpdateEveryCell | src/halmd/mdsim/ljfluid_host.hpp:572-584 | after the loops every particle's neighbour list is the one its cell defines |
| LjFluid.Fluid.UpdateNeighbours | src/halmd/mdsim/ljfluid_host.hpp:568-585 | with consistent cell lists, every particle ends with exactly its neighbour list and only the neighbour lists change |
| LjFluid.Fluid.ZeroForces | src/halmd/mdsim/ljfluid_host.hpp:683-685 | every force is set to zero and nothing else changes |
| LjFluid.Fluid.ComputeForces | src/halmd/mdsim/ljfluid_host.hpp:678-771 | forces, summed energy and virial are those of visiting every neighbour pair from zero forces and the kinetic virial; en_pot is divided by npart and each virial by its species count; the call fails with potential_energy_divergence iff the energy diverged |
| LjFluid.Fluid.LeapfrogHalf | src/halmd/mdsim/ljfluid_host.hpp:820-847 | velocities kicked by f*dt/2, positions drifted and wrapped, image counters updated, and v_max_sum raised by the largest speed |
| LjFluid.Fluid.LeapfrogFull | src/halmd/mdsim/ljfluid_host.hpp:852-859 | only the velocities change, each by f*dt/2 |
| LjFluid.Fluid.RescaleVelocities | src/halmd/mdsim/ljfluid_host.hpp:360-367 | only the velocities change, each multiplied by coeff |
| LjFluid.Fluid.Boltzmann | src/halmd/mdsim/ljfluid_host.hpp:506-533 | the velocities become the drawn ones centred on zero momentum and scaled by sqrt(temp*dimension/vv) |
| LjFluid.Fluid.DrawVelocities | src/halmd/mdsim/ljfluid_host.hpp:515-518 | the velocities become the draws and v_cm their sum |
| LjFluid.Fluid.CentreVelocities | src/halmd/mdsim/ljfluid_host.hpp:522-525 | every velocity has v_cm subtracted and vv is the sum of the new v.v |
| LjFluid.Fluid.ComputeVirialKinetic | src/halmd/mdsim/ljfluid_host.hpp:797-815 | the virial becomes the per-species sum of v.v and the off-diagonal velocity products |
| LjFluid.Fluid.EnergySample | src/halmd/mdsim/ljfluid_host.hpp:987-1010 | the sample holds the virial, the Helfand moment, the mean potential energy, the mean v.v and the mean velocity |
| LjFluid.Fluid.SampleSpecies | src/halmd/mdsim/ljfluid_host.hpp:970-983 | the block of species i holds each of its particles' unwrapped position and velocity at index tag - m |
| LjFluid.Fluid.Sample | src/halmd/mdsim/ljfluid_host.hpp:960-985 | one block per species, each filled as sample fills it |
| LjFluid.Fluid.SampleHolds | src/halmd/mdsim/ljfluid_host.hpp:975-982 | every particle appears in the block of its species at index tag - m with its unwrapped position r + R*box and its velocity |
| LjFluid.Fluid.IntegrateHelfand | src/halmd/mdsim/ljfluid_host.hpp:943-945 | helfand[i] is raised by virial[i]*timestep for every species; nothing else changes |
| LjFluid.Fluid.UpdateLists | src/halmd/mdsim/ljfluid_host.hpp:897-922 | the lists are rebuilt iff v_max_sum*timestep > r_skin/2; a rebuild leaves consistent cell lists, the neighbour lists they define and v_max_sum = 0; otherwise nothing changes |
| LjFluid.Fluid.UpdateVelocities | src/halmd/mdsim/ljfluid_host.hpp:933-952 | the thermostat counter advances as the period says; a coupling step sets the velocities by boltzmann, any other step by the second kick; the Helfand moment is integrated |
| LjFluid.Fluid.Velocities | src/halmd/mdsim/ljfluid_host.hpp:934-939 | coupled: boltzmann at the bath temperature; otherwise leapfrog_full |
| LjFluid.Fluid.Advance | src/halmd/mdsim/ljfluid_host.hpp:888-922 | the virial is the kinetic virial of the velocities at the start; the velocities get the half kick with the current forces, and positions and image counters drift with the kicked velocities; v_max_sum rises by the largest speed, and the lists are rebuilt (and v_max_sum reset) iff that sum times the time step exceeds half the skin, else cells and lists are unchanged |
| LjFluid.Fluid.KineticHalfStep | src/halmd/mdsim/ljfluid_host.hpp:888-895 | the kinetic virial is taken from the velocities before the half step, then the half step is made |
| LjFluid.Fluid.Finish | src/halmd/mdsim/ljfluid_host.hpp:924-952 | compute_forces as ComputeForces states; on divergence the step ends with the velocities, the Helfand moment and the counter unchanged; otherwise the thermostat, velocity and Helfand updates of UpdateVelocities |
| LjFluid.Fluid.UpdateVelocitiesUnless | src/halmd/mdsim/ljfluid_host.hpp:932-952 | the velocity update is skipped when the forces failed and is UpdateVelocities otherwise |
| LjFluid.Fluid.MdStep | src/halmd/mdsim/ljfluid_host.hpp:883-958 | one step keeps the system ready; positions and image counters drift with the old velocities kicked by the old forces; the force state is that of the neighbour pairs on top of the kinetic virial of the old velocities, and the step fails with potential_energy_divergence iff the energy diverged; on failure the velocities keep the half kick and the Helfand moment and counter are unchanged, otherwise the counter advances, the Helfand moment is integrated and the velocities are the bath draws on coupling or the twice-kicked old velocities |
| OseenMobility.OseenTensor | halmd/mdsim/host/mobilities/oseen.cpp:101-103 | the Oseen term (f + (dr.f / r^2) dr) * 0.75 * a/r has the dimension of the force |
| OseenMobility.NearRotnePrager | halmd/mdsim/host/mobilities/oseen.cpp:106-109 | the close-branch Rotne-Prager term has the dimension of the force |
| OseenMobility.FarRotnePrager | halmd/mdsim/host/mobilities/oseen.cpp:111-114 | the default-branch Rotne-Prager term has the dimension of the force |
| OseenMobility.Tensor | halmd/mdsim/host/mobilities/oseen.cpp:101-116 | order up to 2 selects the Oseen form, up to 4 the Rotne-Prager form with the close branch iff dist < 2 radius, beyond 4 no interaction; the term has the dimension of the force |
| OseenMobility.PairDr | halmd/mdsim/host/mobilities/oseen.cpp:93-95 | the reduced distance vector of a pair has the dimension of the positions |
| OseenMobility.Term | halmd/mdsim/host/mobilities/oseen.cpp:87-116 | the contribution of particle l to particle k (its own force when l = k) has the dimension of the velocities |
| OseenMobility.Partial | halmd/mdsim/host/mobilities/oseen.cpp:84-117 | the sum of the contributions of the first m particles has the dimension of the velocities |
| OseenMobility.Velocity | halmd/mdsim/host/mobilities/oseen.cpp:84-119 | a particle's velocity, all contributions scaled once by the self mobility, has the dimension of the velocities |
| OseenMobility.AfterRows | halmd/mdsim/host/mobilities/oseen.cpp:84-119 | after i outer iterations there is still one velocity per particle |
| OseenMobility.WithinRow | halmd/mdsim/host/mobilities/oseen.cpp:90-117 | inside outer iteration i there is still one velocity per particle |
| OseenMobility.Velocities | halmd/mdsim/host/mobilities/oseen.cpp:73-121 | after the zero fill and the nested loop, every v[k] is its own force plus every pair term, scaled exactly once by the self mobility; the previous velocities play no part |
| OseenMobility.OuterStep | halmd/mdsim/host/mobilities/oseen.cpp:84-119 | outer iteration i finishes v[i] with its single scaling and adds particle i's terms to every later v[j] |
| OseenMobility.PairsOf | halmd/mdsim/host/mobilities/oseen.cpp:90-117 | the inner loop adds the pair terms of every j > i to v[i] and v[j] |
| OseenMobility.PairStep | halmd/mdsim/host/mobilities/oseen.cpp:92-116 | one pair (i, j) adds the tensor of one distance vector to both v[i] and v[j] and changes no other velocity |
| OseenMobility.Oseen.constructor | halmd/mdsim/host/mobilities/oseen.cpp:40-60 | the self mobility 1/(6 pi viscosity radius) is fixed at construction |
| OseenMobility.Oseen.ComputeVelocities | halmd/mdsim/host/mobilities/oseen.cpp:73-121 | only the particle velocities change, each to the mobility applied to the forces |
| OseenMobility.Oseen.Compute | halmd/mdsim/host/mobilities/oseen.cpp:124-127 | the unimplemented compute() of the mobility tensor: no modifies clause, so it changes no particle state and no field of the module |
| OseenMobility.PartialWithoutInteraction | halmd/mdsim/host/mobilities/oseen.cpp:101-116 | beyond order 4 the contributions of the first m particles to k are f[k] if k < m and zero otherwise |
| OseenMobility.NoInteractionBeyondOrderFour | halmd/mdsim/host/mobilities/oseen.cpp:87-118 | beyond order 4 each velocity is the self mobility times the own force |
| OseenMobility.SingleParticle | halmd/mdsim/host/mobilities/oseen.cpp:84-119 | a single particle moves with the self mobility times its force |
| OseenMobility.OseenTensorIsEven | halmd/mdsim/host/mobilities/oseen.cpp:65-69 | the Oseen term is unchanged when dr is negated |
| OseenMobility.NearRotnePragerIsEven | halmd/mdsim/host/mobilities/oseen.cpp:65-69 | the close Rotne-Prager term is unchanged when dr is negated |
| OseenMobility.FarRotnePragerIsEven | halmd/mdsim/host/mobilities/oseen.cpp:65-69 | the default Rotne-Prager term is unchanged when dr is negated |
| OseenMobility.TensorIsEven | halmd/mdsim/host/mobilities/oseen.cpp:65-69 | every branch of the interaction tensor is even in dr |
| OseenMobility.TermUsesOwnDistance | halmd/mdsim/host/mobilities/oseen.cpp:102-114 | with a minimum-image reduction that commutes with negation, the contribution of l to k is the tensor of k's own distance vector r[k] - r[l], so using one dr for both partners is sound |

## Left out

- Lua registration, CUDA kernel launches and host-device copies are not modelled, because they are glue over foreign libraries. Logging, profiling timers and HDF5 parameter output are left out for the same reason.
- Floating point is modelled as exact reals. Rounding, `float`/`double` widths and NaN are therefore not modelled.
- `isinf` is a parameter of `PairFull`. In `LjFluid`, divergence is a pair at zero distance inside its cutoff, because over the reals no other energy can be infinite.
- `std::sqrt` and `std::pow` are function parameters or integer powers. Only the properties the proofs need are assumed of them, as preconditions: a positive square root of a positive number.
- The random-number generator is not modelled. The Gaussian draws of `boltzmann` are an input, and the `rng_.shuffle` of `lattice` is left out.
- The Hilbert-curve ordering (`USE_HILBERT_ORDER`) is not modelled, because `hilbert_sfc` is not part of this model.
- `ljfluid::particles`, `state`, `temperature`, `rng` and `param` (src/halmd/mdsim/ljfluid_host.hpp:225-290, 486-501, 1016-1024) are set-up and I/O around the modelled operations and are not modelled themselves. The constructor of `LjFluid.Fluid` stands in for the particle state they produce.
- LjFluid.Fluid.MdStep: its contract states the drift of positions and image counters, the force state over the neighbour pairs on top of the kinetic virial of the old velocities, the error outcome, and the velocities, Helfand moment and thermostat counter on both outcomes. It does not restate the rebuild decision, the rebuilt cell and neighbour lists or v_max_sum; LjFluid.Fluid.Advance, which it calls, states those, and repeating them on MdStep makes its proof too costly to verify within the resource limit.
- LjFluid.Fluid.Boltzmann requires the centred draws to have a nonzero mean v·v (`MeanSquare(Shift(drawn, MeanVelocity(drawn, dim))) != 0.0`), because the source divides by vv (src/halmd/mdsim/ljfluid_host.hpp:524-531). This excludes draws whose centred velocities are all zero, such as every draw with npart = 1; there the source computes an infinite or NaN scale factor, which real arithmetic cannot express.
- LjFluid.Fluid.LeapfrogHalf: the single-wrap assumption of the source (one wrap per step at most) is a precondition of the step (`HalfStepWraps`). Positions that move by more than a box length are not modelled.
- FccLattice.Lattice requires npart > 0. For npart = 0 the source divides the box by zero unit cells (src/halmd/mdsim/ljfluid_host.hpp:423).
- FccLattice.Lattice: species shuffling, tag assignment, the stable sort by species and the follow-up calls after placement are not modelled, because they depend on the random-number generator or on code outside this model.
- PairFull.ForcePairFull.Compute requires nbox > 0 in an auxiliary pass, because the source then divides by nbox. With no particles that would be NaN, which real arithmetic cannot express.
- PairFull: the `smooth_` branch is not modelled, because the constructor never sets `smooth_` and the branch is unreachable.
- OseenMobility: the square root and the periodic reduction are parameters. Nonzero viscosity and radius, and pairwise-separated reduced positions for order ≤ 4, are preconditions, because the source divides by them.
- GpuFields.ConstantForce.Set: `cuda::memset` over the whole capacity is modelled as writing zero vectors. Byte-level memory layout is not modelled.
- SpeciesMatrix and the potentials: nonzero σ and cutoff are preconditions wherever the source divides by them.
- ModifiedLennardJones: the pair operator is defined in a header that is not part of this model. The energy function is taken from the formula the source's unit test checks.
- The per-particle operator of the thermodynamics accumulators reads textures in a file that is not part of this model. Only the constructors, merge operators and result operators are modelled.
- Thermodynamics.VelocityOfCentreOfMass.Result requires a nonzero mass sum, because the source divides by it.
- Device: device property queries, warpSize and driver calls are parameters, because they are answers of the CUDA driver.
- Device.OpenDevice: when no candidate's context can be created, the failing device query of the CUDA driver wrapper is modelled as one `DriverError` value. Its message is not modelled, because the wrapper is not part of this model.
- The host particle module's source is not part of this model. `HostParticle.Particle` holds only the arrays the modules above read and write.
- GPU concurrency is not modelled. Each kernel is modelled by its sequential meaning.

## Findings

| source | as written | input that shows it | evidently intended | confidence | as-written member | corrected member |
|---|---|---|---|---|---|---|
| halmd/mdsim/host/fields/constant_velocity.cpp:71-75 | `set()` of the constant velocity field fills the force array `f` and leaves the velocities alone | a particle with velocity (1, 0) and the field (0, 0): after `set()` its velocity is still (1, 0) | `set()` makes every velocity equal to the field | not executed | HostFields.ConstantVelocity.SetAsWritten, HostFields.SetAsWrittenKeepsVelocities | HostFields.ConstantVelocity.Set |
| halmd/mdsim/gpu/fields/constant_force.hpp:83-87 | `set_value` changes the field but not the `zero_` flag fixed at construction, so `add()` and `set()` keep treating the field as zero | a field built as (0, 0) and reset to (1, 0): `add()` leaves the force (0, 0) where (1, 0) is due | `set_value` recomputes `zero_` from the new value | not executed | GpuFields.ConstantForce.SetValueAsWritten, GpuFields.StaleZeroFlagSkipsField | GpuFields.ConstantForce.SetValue |
| src/halmd/mdsim/ljfluid_host.hpp:410-416 | the number of unit cells is the truncated floating-point root of npart / m, raised by one if too small; a root that rounds just below an integer ends up one cell short | npart = 257 in 3-D: pow(64, 1/3) gives 3.9999999999999996, truncated to 3 and raised to 4, for 256 sites; particle 256 lands on the periodic image of particle 0 | the smallest number of unit cells whose sites hold all particles (5 for 257) | not executed | FccLattice.UnitCellsAsWritten, FccLattice.AsWrittenTooFewSites | FccLattice.UnitCellsSuffice |
