// Set-up of the CUDA device: the list of candidate devices, the choice of the
// first device whose context can be created, the validation of the number of
// threads per block, and the decoding of version numbers and of the NVIDIA
// driver version line.  The CUDA driver itself (device count, context
// creation, device properties) is outside the model: its answers are
// parameters.

module Device {
  import opened Errors

  const UINT_RANGE: nat := 0x1_0000_0000

  type Uint = n: nat | n < UINT_RANGE

  datatype Option<T> = None | Some(value: T)

  datatype Warning = NotPowerOfTwo | NotMultipleOfWarpSize

  /** The state the constructor leaves: the thread count and the device whose context was created. */
  datatype DeviceState = DeviceState(threads: Uint, context: Option<int>, warnings: seq<Warning>)

  const INVALID_THREADS := "invalid number of CUDA threads"
  const TOO_MANY_THREADS := "number of CUDA threads exceeds maximum number of threads per block"

  // ---------------------------------------------------------------------------
  // Choosing a device

  /** The devices to try: the given ones, or every device 0 .. count − 1 when none is given. */
  function Candidates(devices: seq<int>, count: nat): seq<int>
  {
    if |devices| == 0 then seq(count, i => i) else devices
  }

  /** The first device of `devices` whose context creation succeeds, if any. */
  function FirstSuccess(devices: seq<int>, contextOk: int -> bool): (d: Option<int>)
    ensures d.Some? ==> d.value in devices && contextOk(d.value)
    ensures d.Some? ==> exists k :: 0 <= k < |devices| && devices[k] == d.value
                                    && forall l :: 0 <= l < k ==> !contextOk(devices[l])
    ensures d.None? <==> forall k :: 0 <= k < |devices| ==> !contextOk(devices[k])
  {
    if |devices| == 0 then None
    else if contextOk(devices[0]) then
      Some(devices[0])
    else
      var d := FirstSuccess(devices[1..], contextOk);
      assert forall k :: 1 <= k < |devices| ==> devices[k] == devices[1..][k - 1];
      d
  }

  // ---------------------------------------------------------------------------
  // The number of threads per block

  /** The bit test threads & (threads − 1) on 32-bit unsigned integers. */
  predicate NotPowerOfTwoBits(threads: Uint)
  {
    var t := threads as bv32;
    t & (t - 1) != 0
  }

  /** The two errors, checked in the constructor's order. */
  function CheckThreads(threads: Uint, maxThreads: Uint): (o: Outcome)
    ensures o.Pass? <==> 1 <= threads <= maxThreads
    ensures threads < 1 ==> o == Fail(RuntimeError(INVALID_THREADS))
    ensures 1 <= threads && threads > maxThreads ==> o == Fail(RuntimeError(TOO_MANY_THREADS))
  {
    if threads < 1 then Fail(RuntimeError(INVALID_THREADS))
    else if threads > maxThreads then Fail(RuntimeError(TOO_MANY_THREADS))
    else Pass
  }

  /** The warnings, which never stop the constructor. */
  function ThreadWarnings(threads: Uint, warpSize: Uint): (ws: seq<Warning>)
    requires warpSize > 0
    ensures NotPowerOfTwo in ws <==> NotPowerOfTwoBits(threads)
    ensures NotMultipleOfWarpSize in ws <==> threads % warpSize != 0
  {
    (if NotPowerOfTwoBits(threads) then [NotPowerOfTwo] else [])
    + (if threads % warpSize != 0 then [NotMultipleOfWarpSize] else [])
  }

  /** A power of two never triggers the power-of-two warning. */
  lemma PowerOfTwoPassesBitTest(threads: Uint, k: bv32)
    requires k < 32 && threads as bv32 == (1 as bv32) << k
    ensures !NotPowerOfTwoBits(threads)
  {
  }

  /** Thread counts that are not powers of two, such as 96, do trigger it. */
  lemma NinetySixIsNotAPowerOfTwo()
    ensures NotPowerOfTwoBits(96)
    ensures !NotPowerOfTwoBits(128)
  {
  }

  /**
   * The constructor: build the candidate list, create a context on the first
   * device that allows it, then validate the thread count against the chosen
   * device's limits.  When no candidate's context can be created there is no
   * current context, and the driver's device query that follows fails.
   */
  method OpenDevice(devices: seq<int>, threads: Uint, count: nat, contextOk: int -> bool,
                    maxThreads: Uint, warpSize: Uint)
    returns (r: Result<DeviceState>)
    requires warpSize > 0
    ensures FirstSuccess(Candidates(devices, count), contextOk).None? ==> r == Err(DriverError)
    ensures FirstSuccess(Candidates(devices, count), contextOk).Some? ==>
              (r.Ok? <==> CheckThreads(threads, maxThreads).Pass?)
    ensures FirstSuccess(Candidates(devices, count), contextOk).Some? && r.Err? ==>
              r.error == CheckThreads(threads, maxThreads).error
    ensures r.Ok? ==> r.value.context.Some?
    ensures r.Ok? ==> r.value == DeviceState(threads, FirstSuccess(Candidates(devices, count), contextOk),
                                             ThreadWarnings(threads, warpSize))
  {
    var candidates := DefaultCandidates(devices, count);
    var context := ChooseContext(candidates, contextOk);
    if context.None? {
      return Err(DriverError);
    }
    if threads < 1 {
      return Err(RuntimeError(INVALID_THREADS));
    }
    if threads > maxThreads {
      return Err(RuntimeError(TOO_MANY_THREADS));
    }
    var warnings: seq<Warning> := [];
    if NotPowerOfTwoBits(threads) {
      warnings := warnings + [NotPowerOfTwo];
    }
    if threads % warpSize != 0 {
      warnings := warnings + [NotMultipleOfWarpSize];
    }
    return Ok(DeviceState(threads, context, warnings));
  }

  /** The default candidate list, appended one device at a time. */
  method DefaultCandidates(devices: seq<int>, count: nat) returns (candidates: seq<int>)
    ensures candidates == Candidates(devices, count)
  {
    candidates := devices;
    if |candidates| == 0 {
      var i := 0;
      while i < count
        invariant 0 <= i <= count && candidates == seq(i, k => k)
      {
        candidates := candidates + [i];
        i := i + 1;
      }
    }
  }

  /** Tries the candidates in order and stops at the first context that can be created. */
  method ChooseContext(candidates: seq<int>, contextOk: int -> bool) returns (context: Option<int>)
    ensures context == FirstSuccess(candidates, contextOk)
  {
    context := None;
    var k := 0;
    while k < |candidates|
      invariant 0 <= k <= |candidates| && context == None
      invariant FirstSuccess(candidates[k..], contextOk) == FirstSuccess(candidates, contextOk)
    {
      if contextOk(candidates[k]) {
        context := Some(candidates[k]);
        return;
      }
      assert candidates[k..][1..] == candidates[k + 1..];
      k := k + 1;
    }
  }

  // ---------------------------------------------------------------------------
  // Version numbers

  /** C++ integer division, truncating toward zero. */
  function CDiv(a: int, b: int): int
    requires b > 0
  {
    if a >= 0 then a / b else -((-a) / b)
  }

  /** C++ remainder, with the sign of the dividend. */
  function CRem(a: int, b: int): int
    requires b > 0
  {
    a - CDiv(a, b) * b
  }

  function Digit(d: nat): char
    requires d < 10
  {
    "0123456789"[d]
  }

  /** The decimal digits of n, most significant first. */
  function Decimal(n: nat): (s: string)
    ensures |s| > 0
    ensures forall i :: 0 <= i < |s| ==> '0' <= s[i] <= '9'
    decreases n
  {
    if n < 10 then [Digit(n)] else Decimal(n / 10) + [Digit(n % 10)]
  }

  /** The decimal text of an int, as a stream insertion writes it. */
  function IntToString(i: int): string
  {
    if i >= 0 then Decimal(i) else "-" + Decimal(-i)
  }

  /** "major.minor" of a (major, minor) pair. */
  function VersionString(major: int, minor: int): string
  {
    IntToString(major) + "." + IntToString(minor)
  }

  /** The compute capability of the device's architecture number: 130 gives "1.3". */
  function ComputeVersion(arch: int): string
  {
    VersionString(CDiv(arch, 100), CRem(CDiv(arch, 10), 10))
  }

  /** A CUDA driver or runtime version number: 3020 gives "3.2". */
  function CudaVersion(v: int): string
  {
    VersionString(CDiv(v, 1000), CRem(CDiv(v, 10), 10))
  }

  lemma ReferenceVersions()
    ensures ComputeVersion(130) == "1.3"
    ensures ComputeVersion(200) == "2.0"
    ensures CudaVersion(3020) == "3.2"
    ensures CudaVersion(2020) == "2.2"
  {
    assert Decimal(1) == "1" && Decimal(3) == "3" && Decimal(2) == "2" && Decimal(0) == "0";
  }

  /** The value of a digit string. */
  function ParseDecimal(s: string): nat
    requires forall i :: 0 <= i < |s| ==> '0' <= s[i] <= '9'
  {
    if |s| == 0 then 0 else 10 * ParseDecimal(s[..|s| - 1]) + (s[|s| - 1] - '0') as nat
  }

  lemma {:induction false} ParseDecimalOfDecimal(n: nat)
    ensures ParseDecimal(Decimal(n)) == n
    decreases n
  {
    if n >= 10 {
      var s := Decimal(n / 10) + [Digit(n % 10)];
      assert s[..|s| - 1] == Decimal(n / 10);
      ParseDecimalOfDecimal(n / 10);
    }
  }

  /** The position of the first '.' in s, or |s|. */
  function DotIndex(s: string): (k: nat)
    ensures k <= |s|
    ensures forall i :: 0 <= i < k ==> s[i] != '.'
    ensures k < |s| ==> s[k] == '.'
  {
    if |s| == 0 then 0 else if s[0] == '.' then 0 else 1 + DotIndex(s[1..])
  }

  /** Reads "major.minor" back. */
  function ParseVersion(s: string): Option<(nat, nat)>
  {
    var k := DotIndex(s);
    if k < |s| && (forall i :: 0 <= i < |s| && i != k ==> '0' <= s[i] <= '9') then
      Some((ParseDecimal(s[..k]), ParseDecimal(s[k + 1..])))
    else
      None
  }

  /**
   * For a non-negative version number the text determines the decoded
   * numbers: reading it back gives v / 1000 and the tens digit of v.
   */
  lemma CudaVersionRoundTrip(v: nat)
    ensures ParseVersion(CudaVersion(v)) == Some((v / 1000, (v / 10) % 10))
    ensures (v / 10) % 10 < 10
  {
    DecodeNonNegative(v, 1000);
    VersionRoundTrip(v / 1000, (v / 10) % 10);
  }

  /** The same for the compute capability: arch / 100 and the tens digit of arch. */
  lemma ComputeVersionRoundTrip(arch: nat)
    ensures ParseVersion(ComputeVersion(arch)) == Some((arch / 100, (arch / 10) % 10))
  {
    DecodeNonNegative(arch, 100);
    VersionRoundTrip(arch / 100, (arch / 10) % 10);
  }

  /** On non-negative numbers the truncating C++ operators agree with Euclidean ones. */
  lemma DecodeNonNegative(v: nat, d: nat)
    requires d > 0
    ensures CDiv(v, d) == v / d && CDiv(v, 10) == v / 10 && CRem(v / 10, 10) == (v / 10) % 10
  {
  }

  lemma VersionRoundTrip(major: nat, minor: nat)
    ensures ParseVersion(VersionString(major, minor)) == Some((major, minor))
  {
    var a, b := Decimal(major), Decimal(minor);
    var s := a + "." + b;
    assert VersionString(major, minor) == s;
    DotOfDigits(a, b);
    assert s[..|a|] == a && s[|a| + 1..] == b;
    ParseDecimalOfDecimal(major);
    ParseDecimalOfDecimal(minor);
  }

  lemma {:induction false} DotOfDigits(a: string, b: string)
    requires forall i :: 0 <= i < |a| ==> '0' <= a[i] <= '9'
    ensures DotIndex(a + "." + b) == |a|
  {
    if |a| > 0 {
      assert (a + "." + b)[1..] == a[1..] + "." + b;
      DotOfDigits(a[1..], b);
    }
  }

  /** A negative number decodes with negative parts: the decoder relies on versions being non-negative. */
  lemma NegativeVersionDecodesNegative()
    ensures CudaVersion(-3020) == "-3.-2"
  {
    assert Decimal(3) == "3" && Decimal(2) == "2";
  }

  // ---------------------------------------------------------------------------
  // The NVIDIA driver version line

  /** A ": " starts at index i of s. */
  predicate SeparatorAt(s: string, i: nat)
  {
    i + 2 <= |s| && s[i] == ':' && s[i + 1] == ' '
  }

  /** The index of the first occurrence of ": " in s. */
  function FindSeparator(s: string): (p: Option<nat>)
    ensures p.Some? ==> SeparatorAt(s, p.value) && forall i :: 0 <= i < p.value ==> !SeparatorAt(s, i)
    ensures p.None? ==> forall i :: 0 <= i < |s| ==> !SeparatorAt(s, i)
  {
    if |s| < 2 then None
    else if SeparatorAt(s, 0) then Some(0)
    else
      var p := FindSeparator(s[1..]);
      assert forall i :: 1 <= i < |s| ==> (SeparatorAt(s, i) <==> SeparatorAt(s[1..], i - 1));
      if p.Some? then Some(p.value + 1) else None
  }

  /** The first separator is the one reported: FindSeparator is determined by its contract. */
  lemma FindSeparatorAt(s: string, p: nat)
    requires SeparatorAt(s, p) && forall i :: 0 <= i < p ==> !SeparatorAt(s, i)
    ensures FindSeparator(s) == Some(p)
  {
  }

  /** The white-space characters std::isspace accepts in the C locale. */
  predicate IsSpace(c: char)
  {
    c == ' ' || c == '\t' || c == '\n' || c == '\r' || c == '\U{0B}' || c == '\U{0C}'
  }

  function TrimLeft(s: string): (t: string)
    ensures |t| <= |s| && t == s[|s| - |t|..]
    ensures forall i :: 0 <= i < |s| - |t| ==> IsSpace(s[i])
    ensures |t| > 0 ==> !IsSpace(t[0])
  {
    if |s| > 0 && IsSpace(s[0]) then TrimLeft(s[1..]) else s
  }

  function TrimRight(s: string): (t: string)
    ensures |t| <= |s| && t == s[..|t|]
    ensures forall i :: |t| <= i < |s| ==> IsSpace(s[i])
    ensures |t| > 0 ==> !IsSpace(t[|t| - 1])
  {
    if |s| > 0 && IsSpace(s[|s| - 1]) then TrimRight(s[..|s| - 1]) else s
  }

  /**
   * Removes the leading and the trailing white space: the result is the slice
   * of s between them, and it neither starts nor ends with white space.
   */
  function Trim(s: string): (t: string)
    ensures |t| > 0 ==> !IsSpace(t[0]) && !IsSpace(t[|t| - 1])
    ensures var i := |s| - |TrimLeft(s)|;
            && i + |t| <= |s| && t == s[i..i + |t|]
            && (forall j :: 0 <= j < i ==> IsSpace(s[j]))
            && (forall j :: i + |t| <= j < |s| ==> IsSpace(s[j]))
  {
    TrimRight(TrimLeft(s))
  }

  lemma TrimIdempotent(s: string)
    ensures Trim(Trim(s)) == Trim(s)
  {
    var t := Trim(s);
    assert TrimLeft(t) == t;
    assert TrimRight(t) == t;
  }

  /** The first line of the file, as std::istream::get(buf, '\n') reads it. */
  function FirstLine(content: string): (line: string)
    ensures '\n' !in line
    ensures |line| <= |content| && line == content[..|line|]
    ensures |line| < |content| ==> content[|line|] == '\n'
  {
    if |content| == 0 || content[0] == '\n' then []
    else
      var rest := FirstLine(content[1..]);
      assert content[1..][..|rest|] == content[1..|rest| + 1];
      [content[0]] + rest
  }

  /**
   * The driver version: the first line of the file (None when it cannot be
   * opened), the text after the first ": " if there is one, trimmed.  Reading
   * fails, as the stream's failbit does, when the first line is empty.
   */
  function NvidiaDriverVersion(content: Option<string>): (r: Result<string>)
    ensures r.Err? <==> content.None? || FirstLine(content.value) == []
    ensures r.Err? ==> r.error == RuntimeError("failed to query NVIDIA driver version")
  {
    if content.None? || FirstLine(content.value) == [] then
      Err(RuntimeError("failed to query NVIDIA driver version"))
    else
      var s := FirstLine(content.value);
      var p := FindSeparator(s);
      Ok(Trim(if p.Some? then s[p.value + 2..] else s))
  }

  /** A version line of the proc file gives the text that follows its ": ". */
  lemma DriverVersionOfProcLine()
    ensures NvidiaDriverVersion(Some("NVRM version: 195.36.15 \nGCC\n")) == Ok("195.36.15")
  {
    var content := "NVRM version: 195.36.15 \nGCC\n";
    var line := "NVRM version: 195.36.15 ";
    ProcLineFirstLine(line);
    ProcLineSeparator(line);
    ProcLineTrim(line[14..]);
    assert FirstLine(content) == line;
    assert NvidiaDriverVersion(Some(content)) == Ok(Trim(line[14..]));
  }

  lemma ProcLineFirstLine(line: string)
    requires line == "NVRM version: 195.36.15 "
    ensures FirstLine("NVRM version: 195.36.15 \nGCC\n") == line
  {
    assert "NVRM version: 195.36.15 \nGCC\n" == line + "\n" + "GCC\n";
    FirstLineOf(line, "GCC\n");
  }

  lemma ProcLineSeparator(line: string)
    requires line == "NVRM version: 195.36.15 "
    ensures FindSeparator(line) == Some(12) && line[14..] == "195.36.15 "
  {
    assert SeparatorAt(line, 12);
    forall i | 0 <= i < 12
      ensures !SeparatorAt(line, i)
    {
      assert line[i] != ':';
    }
    FindSeparatorAt(line, 12);
  }

  lemma ProcLineTrim(tail: string)
    requires tail == "195.36.15 "
    ensures Trim(tail) == "195.36.15"
  {
    assert TrimLeft(tail) == tail;
    assert tail[..|tail| - 1] == "195.36.15";
    assert TrimRight("195.36.15") == "195.36.15";
  }

  lemma {:induction false} FirstLineOf(line: string, rest: string)
    requires '\n' !in line
    ensures FirstLine(line + "\n" + rest) == line
  {
    if |line| > 0 {
      assert (line + "\n" + rest)[1..] == line[1..] + "\n" + rest;
      FirstLineOf(line[1..], rest);
    }
  }

  /** Without ": " the whole trimmed first line is returned. */
  lemma DriverVersionWithoutSeparator(content: string)
    requires FirstLine(content) != []
    requires FindSeparator(FirstLine(content)).None?
    ensures NvidiaDriverVersion(Some(content)) == Ok(Trim(FirstLine(content)))
  {
  }
}
