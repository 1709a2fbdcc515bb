// The command-line front end of src/main.c: the filter registry and
// `validate`, the removal of `--benchmark` from the arguments, the walk that
// applies the filters named after the two file names, the benchmark mode that
// runs each filter once with and once without threads, and the choice of the
// output encoder from the output file's extension.
//
// Loading and writing images, logging, timing and printing are I/O and are
// not modelled; the image is the buffer the loader returned.
module Cli {
  import opened Raster
  import opened ImageUtils
  import opened StringUtils
  import opened FileUtils
  import ColorFilters
  import BoxBlur
  import EdgeDetect

  /** `ErrorCode`: the process exit status. */
  datatype ErrorCode = Success | IoError | InvalidArgs

  function ExitStatus(e: ErrorCode): int
  {
    match e
    case Success => 0
    case IoError => 1
    case InvalidArgs => 2
  }

  // ---- The registry --------------------------------------------------------

  /** The kernel a registry entry points at. */
  datatype Kernel =
    | GrayscaleKernel | InvertKernel | BrightnessKernel | ContrastKernel
    | SepiaKernel | GaussianBlurKernel | EdgeKernel

  /** One entry of `filter[]`: name, kernel, whether it takes a parameter, the
      help text and the parameter's range. */
  datatype Filter = Filter(name: string, kernel: Kernel, param: bool, description: string, min: real, max: real)

  const Filters: seq<Filter> := [
    Filter("--grayscale", GrayscaleKernel, false, "Convert image to grayscale", 0.0, 0.0),
    Filter("--invert", InvertKernel, false, "Invert image colors", 0.0, 0.0),
    Filter("--brightness", BrightnessKernel, true, "Adjust brightness", 0.1, 2.0),
    Filter("--contrast", ContrastKernel, true, "Adjust contrast", 0.1, 2.0),
    Filter("--sepia", SepiaKernel, false, "Apply sepia effect", 0.0, 0.0),
    Filter("--blur", GaussianBlurKernel, true, "Apply Gaussian blur", 1.0, 10.0),
    Filter("--edge", EdgeKernel, true, "Apply edge detection", 0.0, 255.0)
  ]

  /** The first registry entry from j on whose name is exactly `name`. */
  function LookupFrom(name: string, j: nat): (r: Option<nat>)
    requires j <= |Filters|
    ensures r.Some? ==> j <= r.value < |Filters| && Filters[r.value].name == name
    ensures r.Some? ==> forall k | j <= k < r.value :: Filters[k].name != name
    ensures r.None? <==> forall k | j <= k < |Filters| :: Filters[k].name != name
    decreases |Filters| - j
  {
    if j == |Filters| then None
    else if Filters[j].name == name then Some(j)
    else LookupFrom(name, j + 1)
  }

  /** The scan over `filter[]` by exact string comparison. */
  function Lookup(name: string): Option<nat>
  {
    LookupFrom(name, 0)
  }

  /** No two entries share a name; only "--blur" and "--edge" share a length. */
  lemma NamesDistinct()
    ensures forall a, b | 0 <= a < b < |Filters| :: Filters[a].name != Filters[b].name
  {
    var lengths := [11, 8, 12, 10, 7, 6, 6];
    assert forall a | 0 <= a < |Filters| :: |Filters[a].name| == lengths[a];
    assert Filters[5].name[2] != Filters[6].name[2];
  }

  /** Each registered name finds its own entry. */
  lemma LookupRegistered()
    ensures forall j | 0 <= j < |Filters| :: Lookup(Filters[j].name) == Some(j)
  {
    NamesDistinct();
  }

  /** `validate`: false for a name not in the registry, true for a filter
      without a parameter, and for the four filters with one, whether the
      value lies in the entry's closed range. */
  function Validate(name: string, value: real): bool
  {
    match Lookup(name)
    case None => false
    case Some(j) =>
      var f := Filters[j];
      if !f.param then true
      else if name == "--brightness" || name == "--contrast" || name == "--blur" || name == "--edge" then
        !(value < f.min || value > f.max)
      else true
  }

  /** A name that is not exactly a registered one is refused. */
  lemma ValidateUnknown(name: string, value: real)
    requires forall j | 0 <= j < |Filters| :: Filters[j].name != name
    ensures !Validate(name, value)
  {
  }

  /** The filters without a parameter accept any value. */
  lemma ValidateParameterless(value: real)
    ensures Validate("--grayscale", value) && Validate("--invert", value) && Validate("--sepia", value)
  {
    LookupRegistered();
    assert Filters[0].name == "--grayscale" && Filters[1].name == "--invert" && Filters[4].name == "--sepia";
  }

  /** The ranges of the filters with a parameter, bounds included. */
  lemma ValidateRanges(value: real)
    ensures Validate("--brightness", value) <==> 0.1 <= value <= 2.0
    ensures Validate("--contrast", value) <==> 0.1 <= value <= 2.0
    ensures Validate("--blur", value) <==> 1.0 <= value <= 10.0
    ensures Validate("--edge", value) <==> 0.0 <= value <= 255.0
  {
    LookupRegistered();
    assert Filters[2].name == "--brightness" && Filters[3].name == "--contrast";
    assert Filters[5].name == "--blur" && Filters[6].name == "--edge";
  }

  /** The range check the kernel itself makes on its parameter. */
  predicate KernelAccepts(k: Kernel, param: real)
  {
    match k
    case BrightnessKernel => ColorFilters.BrightnessInRange(param)
    case ContrastKernel => ColorFilters.ContrastInRange(param)
    case GaussianBlurKernel => BoxBlur.SigmaInRange(param)
    case EdgeKernel => !(param < 0.0 || param > 255.0)
    case _ => true
  }

  /** `validate` and the kernels' own checks agree entry by entry, so a value
      that passes `validate` is never refused by the kernel it reaches. */
  lemma ValidateAgreesWithKernels(j: nat, value: real)
    requires j < |Filters|
    ensures Validate(Filters[j].name, value) <==> KernelAccepts(Filters[j].kernel, value)
  {
    LookupRegistered();
    var f := Filters[j];
    assert Lookup(f.name) == Some(j);
    if j == 2 {
      assert f.name == "--brightness";
    } else if j == 3 {
      assert f.name == "--contrast";
    } else if j == 5 {
      assert f.name == "--blur";
    } else if j == 6 {
      assert f.name == "--edge";
    }
  }

  // ---- Removing --benchmark ------------------------------------------------

  const BenchmarkFlag: CString := "--benchmark"

  /** The first index from i on, and at least 1, holding "--benchmark". */
  function FirstBenchmarkFrom(args: seq<CString>, i: nat): (r: Option<nat>)
    requires 1 <= i <= |args|
    ensures r.Some? ==> i <= r.value < |args| && args[r.value] == "--benchmark"
    ensures r.Some? ==> forall k | i <= k < r.value :: args[k] != "--benchmark"
    ensures r.None? <==> forall k | i <= k < |args| :: args[k] != "--benchmark"
    decreases |args| - i
  {
    if i == |args| then None
    else if args[i] == "--benchmark" then Some(i)
    else FirstBenchmarkFrom(args, i + 1)
  }

  /** Where the first "--benchmark" after the program name is, if anywhere. */
  function FirstBenchmark(args: seq<CString>): Option<nat>
  {
    if |args| == 0 then None else FirstBenchmarkFrom(args, 1)
  }

  /** An occurrence with none before it, from index 1 on, is the first. */
  lemma FirstBenchmarkAt(args: seq<CString>, i: nat)
    requires 1 <= i < |args| && args[i] == "--benchmark"
    requires forall k | 1 <= k < i :: args[k] != "--benchmark"
    ensures FirstBenchmark(args) == Some(i)
  {
  }

  /** The arguments with the first "--benchmark" after the program name cut out. */
  function WithoutBenchmark(args: seq<CString>): seq<CString>
  {
    match FirstBenchmark(args)
    case None => args
    case Some(k) => args[..k] + args[k + 1..]
  }

  /** Exactly one "--benchmark" goes, when there is one, and nothing else: the
      program name stays first. */
  lemma BenchmarkRemovedOnce(args: seq<CString>)
    ensures FirstBenchmark(args).None? ==> WithoutBenchmark(args) == args
    ensures FirstBenchmark(args).Some? ==> |WithoutBenchmark(args)| == |args| - 1
    ensures FirstBenchmark(args).Some? ==>
      multiset(WithoutBenchmark(args)) + multiset{BenchmarkFlag} == multiset(args)
    ensures |args| > 0 ==> |WithoutBenchmark(args)| > 0 && WithoutBenchmark(args)[0] == args[0]
  {
    match FirstBenchmark(args)
    case None =>
    case Some(k) =>
      assert args == args[..k] + [args[k]] + args[k + 1..];
  }

  /** The removal keeps the order of what stays: an argument before the removed
      flag keeps its index, one after it moves down by one. */
  lemma BenchmarkRemovalKeepsOrder(args: seq<CString>, k: nat)
    requires FirstBenchmark(args) == Some(k)
    ensures forall m | 0 <= m < |args| && m != k :: WithoutBenchmark(args)[if m < k then m else m - 1] == args[m]
  {
  }

  /** The shift loop of the removal: `argv[i+1..n)` moves down one place over
      `argv[i]`; `argv[n-1]` and what lies beyond keep their values. */
  method ShiftDown(argv: array<CString>, i: nat, n: nat)
    requires i < n <= argv.Length
    modifies argv
    ensures argv[..n - 1] == old(argv[..i]) + old(argv[i + 1..n])
    ensures argv[n - 1..] == old(argv[n - 1..])
  {
    var j := i;
    while j < n - 1
      invariant i <= j <= n - 1
      invariant forall k | 0 <= k < i :: argv[k] == old(argv[k])
      invariant forall k | i <= k < j :: argv[k] == old(argv[k + 1])
      invariant forall k | j <= k < argv.Length :: argv[k] == old(argv[k])
      decreases n - 1 - j
    {
      argv[j] := argv[j + 1];
      j := j + 1;
    }
  }

  /** The search half of the removal loop: the first index in `[1, argc)`
      holding "--benchmark". */
  method FindBenchmark(argv: array<CString>, argc: nat) returns (r: Option<nat>)
    requires argc <= argv.Length
    ensures r == FirstBenchmark(argv[..argc])
  {
    ghost var args := argv[..argc];
    var i := 1;
    while i < argc
      invariant (argc == 0 && i == 1) || 1 <= i <= argc
      invariant forall k | 1 <= k < i :: args[k] != "--benchmark"
      decreases argc - i
    {
      if argv[i] == "--benchmark" {
        FirstBenchmarkAt(args, i);
        return Some(i);
      }
      i := i + 1;
    }
    assert argc > 0 ==> FirstBenchmarkFrom(args, 1).None?;
    return None;
  }

  /** The in-place removal over `argv[1..argc)`: the first "--benchmark" is
      overwritten by shifting the rest down one place, and `argc` drops by one.
      The slot that falls off the end keeps its old value. */
  method RemoveBenchmark(argv: array<CString>, argc: nat) returns (newArgc: nat, benchmark: bool)
    requires argc <= argv.Length
    modifies argv
    ensures benchmark <==> FirstBenchmark(old(argv[..argc])).Some?
    ensures newArgc == if benchmark then argc - 1 else argc
    ensures argv[..newArgc] == WithoutBenchmark(old(argv[..argc]))
    ensures argv[newArgc..] == old(argv[newArgc..])
  {
    ghost var args := argv[..argc];
    var found := FindBenchmark(argv, argc);
    match found
    case None =>
      benchmark, newArgc := false, argc;
    case Some(i) =>
      ShiftDown(argv, i, argc);
      benchmark, newArgc := true, argc - 1;
      assert args[..i] == old(argv[..i]) && args[i + 1..] == old(argv[i + 1..argc]);
  }

  // ---- Applying the filters ------------------------------------------------

  /** One filter application the walk makes: the kernel and its parameter. */
  datatype Step = Step(kernel: Kernel, param: real)

  /** Where the walk ends: the filters it applies, or error 2. */
  datatype Walked = Planned(steps: seq<Step>) | Rejected

  function Prepend(st: Step, r: Walked): Walked
  {
    match r
    case Planned(steps) => Planned([st] + steps)
    case Rejected => Rejected
  }

  /** What one turn of the walk at an index does: the arguments are used up,
      the token is refused (error 2), or a filter is applied and the walk goes
      on at `next`. */
  datatype Turn = Done | Stop | Apply(step: Step, next: nat)

  /** The turn at index i: a registered name is applied; one with a parameter
      first needs a next token that `is_number` accepts and whose value passes
      `validate`, and consumes it; other filters get 1.0. Any other token, or a
      parameter that is missing, non-numeric or out of range, stops the walk. */
  function TurnAt(argv: seq<CString>, i: nat): (t: Turn)
    ensures t.Done? <==> i >= |argv|
    ensures t.Apply? ==> i < t.next <= |argv| && Lookup(argv[i]).Some?
  {
    if i >= |argv| then Done
    else match Lookup(argv[i])
      case None => Stop
      case Some(j) =>
        var f := Filters[j];
        if !f.param then Apply(Step(f.kernel, 1.0), i + 1)
        else if i + 1 >= |argv| || !NumberSyntax(argv[i + 1]) then Stop
        else if !Validate(f.name, Atof(argv[i + 1])) then Stop
        else Apply(Step(f.kernel, Atof(argv[i + 1])), i + 2)
  }

  /** The walk from index i: turn after turn until the arguments are used up
      or a turn stops it. */
  function Walk(argv: seq<CString>, i: nat): Walked
    decreases |argv| - i
  {
    match TurnAt(argv, i)
    case Done => Planned([])
    case Stop => Rejected
    case Apply(st, next) => Prepend(st, Walk(argv, next))
  }

  /** An unknown token at a filter position is error 2. */
  lemma WalkUnknownFilter(argv: seq<CString>, i: nat)
    requires i < |argv| && forall j | 0 <= j < |Filters| :: Filters[j].name != argv[i]
    ensures Walk(argv, i) == Rejected
  {
  }

  /** A filter with a parameter that is last, or followed by a token
      `is_number` refuses, is error 2. */
  lemma WalkMissingParameter(argv: seq<CString>, i: nat, j: nat)
    requires i < |argv| && j < |Filters| && Filters[j].param && argv[i] == Filters[j].name
    requires i + 1 == |argv| || !NumberSyntax(argv[i + 1])
    ensures Walk(argv, i) == Rejected
  {
    LookupRegistered();
  }

  /** Every planned step carries a parameter its kernel accepts; steps of
      filters without a parameter carry 1.0. */
  lemma {:induction false} WalkStepsAccepted(argv: seq<CString>, i: nat)
    ensures Walk(argv, i).Planned? ==> forall k | 0 <= k < |Walk(argv, i).steps| ::
      KernelAccepts(Walk(argv, i).steps[k].kernel, Walk(argv, i).steps[k].param)
    decreases |argv| - i
  {
    if i < |argv| && Lookup(argv[i]).Some? {
      var j := Lookup(argv[i]).value;
      var f := Filters[j];
      if !f.param {
        WalkStepsAccepted(argv, i + 1);
      } else if i + 1 < |argv| {
        ValidateAgreesWithKernels(j, Atof(argv[i + 1]));
        WalkStepsAccepted(argv, i + 2);
      }
    }
  }

  /** Every planned step consumes at least one token. */
  lemma {:induction false} WalkLength(argv: seq<CString>, i: nat)
    requires i <= |argv|
    ensures Walk(argv, i).Planned? ==> |Walk(argv, i).steps| <= |argv| - i
    decreases |argv| - i
  {
    if i < |argv| && Lookup(argv[i]).Some? {
      var f := Filters[Lookup(argv[i]).value];
      if !f.param {
        WalkLength(argv, i + 1);
      } else if i + 1 < |argv| {
        WalkLength(argv, i + 2);
      }
    }
  }

  /** What a kernel call needs of a w x h image with ch channels. Grayscale
      reads three colour samples of every pixel; edge detection does once its
      threshold passes; the blur, once sigma passes, needs radii that fit the
      image. Invert, brightness, contrast and sepia take any image. */
  predicate KernelRuns(k: Kernel, w: nat, h: nat, ch: nat, param: real, boxRadii: real -> seq<nat>)
  {
    match k
    case GrayscaleKernel => 3 <= ch
    case EdgeKernel => 0.0 <= param <= 255.0 ==> 3 <= ch
    case GaussianBlurKernel => BoxBlur.SigmaInRange(param) ==> BoxBlur.BlurFits(boxRadii(param), w, h, ch)
    case _ => true
  }

  predicate StepsRun(steps: seq<Step>, w: nat, h: nat, ch: nat, boxRadii: real -> seq<nat>)
  {
    forall k | 0 <= k < |steps| :: KernelRuns(steps[k].kernel, w, h, ch, steps[k].param, boxRadii)
  }

  /** Every kernel call the walk from i makes can run on the image. The walk
      applies each filter as it reaches it, so calls before a refused token
      count and nothing after it does. */
  predicate WalkRuns(argv: seq<CString>, i: nat, w: nat, h: nat, ch: nat, boxRadii: real -> seq<nat>)
    decreases |argv| - i
  {
    match TurnAt(argv, i)
    case Apply(st, next) => KernelRuns(st.kernel, w, h, ch, st.param, boxRadii) && WalkRuns(argv, next, w, h, ch, boxRadii)
    case _ => true
  }

  /** When the walk succeeds, every step it plans can run. */
  lemma {:induction false} WalkRunsPlanned(argv: seq<CString>, i: nat, w: nat, h: nat, ch: nat, boxRadii: real -> seq<nat>)
    requires WalkRuns(argv, i, w, h, ch, boxRadii) && Walk(argv, i).Planned?
    ensures StepsRun(Walk(argv, i).steps, w, h, ch, boxRadii)
    decreases |argv| - i
  {
    match TurnAt(argv, i)
    case Done =>
    case Apply(st, next) =>
      WalkRunsPlanned(argv, next, w, h, ch, boxRadii);
      var rest := Walk(argv, next).steps;
      assert Walk(argv, i).steps == [st] + rest;
      forall k | 0 < k <= |rest|
        ensures ([st] + rest)[k] == rest[k - 1]
      {
      }
  }

  /** Filters without a parameter other than grayscale, in any number, run on
      every image, whatever its size or channel count. */
  lemma {:induction false} ParameterlessWalkRuns(argv: seq<CString>, i: nat, w: nat, h: nat, ch: nat, boxRadii: real -> seq<nat>)
    requires forall k | i <= k < |argv| :: argv[k] == "--invert" || argv[k] == "--sepia"
    ensures WalkRuns(argv, i, w, h, ch, boxRadii)
    decreases |argv| - i
  {
    if i < |argv| {
      LookupRegistered();
      assert Filters[1].name == "--invert" && Filters[4].name == "--sepia";
      ParameterlessWalkRuns(argv, i + 1, w, h, ch, boxRadii);
    }
  }

  /** The new buffer a kernel leaves behind. */
  function Effect(k: Kernel, s: seq<Byte>, w: nat, h: nat, ch: nat, param: real,
                  boxRadii: real -> seq<nat>): (t: seq<Byte>)
    requires IsImage(s, w, h, ch) && KernelRuns(k, w, h, ch, param, boxRadii)
    ensures IsImage(t, w, h, ch)
  {
    match k
    case GrayscaleKernel => ColorFilters.GrayscaleImage(s, w, h, ch)
    case InvertKernel => ColorFilters.InvertImage(s, ch)
    case BrightnessKernel =>
      if ColorFilters.BrightnessInRange(param) then ColorFilters.BrightnessImage(s, param) else s
    case ContrastKernel =>
      if ColorFilters.ContrastInRange(param) then ColorFilters.ContrastImage(s, param) else s
    case SepiaKernel =>
      if ColorFilters.SepiaChannelsSupported(ch) then ColorFilters.SepiaImage(s, w, h, ch) else s
    case GaussianBlurKernel =>
      if BoxBlur.SigmaInRange(param) then BoxBlur.BlurChain(s, w, h, ch, boxRadii(param)) else s
    case EdgeKernel =>
      if 0.0 <= param <= 255.0 then EdgeDetect.EdgeImage(s, w, h, ch, param) else s
  }

  /** The buffer after the given steps, first step first. */
  function ApplyAll(steps: seq<Step>, s: seq<Byte>, w: nat, h: nat, ch: nat,
                    boxRadii: real -> seq<nat>): (t: seq<Byte>)
    requires IsImage(s, w, h, ch) && StepsRun(steps, w, h, ch, boxRadii)
    ensures IsImage(t, w, h, ch)
    decreases |steps|
  {
    if steps == [] then s
    else
      var last := steps[|steps| - 1];
      Effect(last.kernel, ApplyAll(steps[..|steps| - 1], s, w, h, ch, boxRadii), w, h, ch, last.param, boxRadii)
  }

  /** The walk so far, `done`, followed by what remains from some index. */
  function Extend(done: seq<Step>, r: Walked): Walked
  {
    match r
    case Planned(steps) => Planned(done + steps)
    case Rejected => Rejected
  }

  lemma ExtendPrepend(done: seq<Step>, st: Step, r: Walked)
    ensures Extend(done, Prepend(st, r)) == Extend(done + [st], r)
  {
    if r.Planned? {
      assert done + ([st] + r.steps) == (done + [st]) + r.steps;
    }
  }

  /** One turn of the walk at `argv[i]`: the registry scan, then, for a filter
      with a parameter, `is_number`, `tmp_atof` and `validate` on the next
      token. On success the filter is applied next and the walk goes on at
      `next`; otherwise main exits with error 2. */
  method ParseFilter(argv: seq<CString>, i: nat) returns (ok: bool, kernel: Kernel, param: real, next: nat)
    requires i < |argv|
    ensures ok ==> TurnAt(argv, i) == Apply(Step(kernel, param), next)
    ensures !ok ==> TurnAt(argv, i) == Stop
  {
    ok, kernel, param, next := false, GrayscaleKernel, 1.0, i + 1;
    var j := 0;
    while j < |Filters| && argv[i] != Filters[j].name
      invariant j <= |Filters|
      invariant forall k | 0 <= k < j :: Filters[k].name != argv[i]
    {
      j := j + 1;
    }
    if j == |Filters| {
      return;
    }
    assert Lookup(argv[i]) == Some(j);
    var f := Filters[j];
    if f.param {
      if i + 1 >= |argv| {
        return;
      }
      var numeric := IsNumber(argv[i + 1]);
      if !numeric {
        return;
      }
      ghost var end;
      param, end := TmpAtof(argv[i + 1]);
      if !Validate(f.name, param) {
        return;
      }
      next := i + 2;
    }
    ok, kernel := true, f.kernel;
  }

  /** `memcpy(dst, src, n)` for buffers of the same length. */
  method CopyInto(src: array<Byte>, dst: array<Byte>)
    requires src != dst && dst.Length == src.Length
    modifies dst
    ensures dst[..] == src[..]
  {
    forall t | 0 <= t < src.Length {
      dst[t] := src[t];
    }
  }

  /** The global `use_thread` and the operations of main.c that read or set it. */
  class Runtime {
    var useThread: bool

    /** `use_thread` starts at 1. */
    constructor ()
      ensures useThread
    {
      useThread := true;
    }

    /** `filter[j].func(image, ...)`: run the kernel with the current `use_thread`. */
    method RunKernel(k: Kernel, image: array<Byte>, w: nat, h: nat, ch: nat, param: real,
                     boxRadii: real -> seq<nat>)
      requires IsImage(image[..], w, h, ch) && KernelRuns(k, w, h, ch, param, boxRadii)
      modifies image
      ensures image[..] == Effect(k, old(image[..]), w, h, ch, param, boxRadii)
    {
      var mode := if useThread then Parallel else Sequential;
      match k
      case GrayscaleKernel =>
        ColorFilters.Grayscale(image, w, h, ch, mode);
      case InvertKernel =>
        ColorFilters.Invert(image, w, h, ch, mode);
      case BrightnessKernel =>
        var status := ColorFilters.Brightness(image, w, h, ch, param, mode);
      case ContrastKernel =>
        var status := ColorFilters.Contrast(image, w, h, ch, param, mode);
      case SepiaKernel =>
        var status := ColorFilters.Sepia(image, w, h, ch, mode);
      case GaussianBlurKernel =>
        var status := BoxBlur.GaussianBlur(image, w, h, ch, param, boxRadii, mode);
      case EdgeKernel =>
        var status := EdgeDetect.EdgeDetectFilter(image, w, h, ch, param, mode);
    }

    /** Benchmark mode: refresh the copy from the image, run the kernel on the
        image with threads and on the copy without, and set `use_thread` back
        to 1. Both runs end with the same buffer. */
    method Benchmark(k: Kernel, image: array<Byte>, copy: array<Byte>, w: nat, h: nat, ch: nat,
                     param: real, boxRadii: real -> seq<nat>)
      requires image != copy && copy.Length == image.Length
      requires IsImage(image[..], w, h, ch) && KernelRuns(k, w, h, ch, param, boxRadii)
      modifies this, image, copy
      ensures useThread
      ensures image[..] == Effect(k, old(image[..]), w, h, ch, param, boxRadii)
      ensures copy[..] == image[..]
    {
      CopyInto(image, copy);
      ghost var before := image[..];
      useThread := true;
      RunKernel(k, image, w, h, ch, param, boxRadii);
      assert copy[..] == before;
      useThread := false;
      RunKernel(k, copy, w, h, ch, param, boxRadii);
      useThread := true;
    }

    /** The walk over `argv[3..argc)`: each token is looked up in the registry,
        its parameter checked and consumed, and the filter applied at once,
        through `Benchmark` in benchmark mode. */
    method ApplyFilters(argv: seq<CString>, image: array<Byte>, copy: array<Byte>, w: nat, h: nat, ch: nat,
                        benchmark: bool, boxRadii: real -> seq<nat>)
      returns (code: ErrorCode)
      requires |argv| >= 3 && useThread
      requires image != copy && copy.Length == image.Length
      requires IsImage(image[..], w, h, ch) && WalkRuns(argv, 3, w, h, ch, boxRadii)
      modifies this, image, copy
      ensures useThread
      ensures code == Success || code == InvalidArgs
      ensures code == Success <==> Walk(argv, 3).Planned?
      ensures code == Success ==> StepsRun(Walk(argv, 3).steps, w, h, ch, boxRadii)
      ensures code == Success ==> image[..] == ApplyAll(Walk(argv, 3).steps, old(image[..]), w, h, ch, boxRadii)
      ensures code == Success && benchmark && |Walk(argv, 3).steps| > 0 ==> copy[..] == image[..]
    {
      ghost var orig := image[..];
      ghost var done: seq<Step> := [];
      assert Walk(argv, 3) == Extend(done, Walk(argv, 3)) by {
        if Walk(argv, 3).Planned? {
          assert [] + Walk(argv, 3).steps == Walk(argv, 3).steps;
        }
      }
      var i := 3;
      while i < |argv|
        invariant 3 <= i <= |argv|
        invariant Walk(argv, 3) == Extend(done, Walk(argv, i))
        invariant IsImage(image[..], w, h, ch)
        invariant WalkRuns(argv, i, w, h, ch, boxRadii) && StepsRun(done, w, h, ch, boxRadii)
        invariant image[..] == ApplyAll(done, orig, w, h, ch, boxRadii)
        invariant benchmark && |done| > 0 ==> copy[..] == image[..]
        invariant useThread
        decreases |argv| - i
      {
        var ok, kernel, param, next := ParseFilter(argv, i);
        if !ok {
          return InvalidArgs;
        }
        ghost var st := Step(kernel, param);
        ExtendPrepend(done, st, Walk(argv, next));
        if benchmark {
          Benchmark(kernel, image, copy, w, h, ch, param, boxRadii);
        } else {
          RunKernel(kernel, image, w, h, ch, param, boxRadii);
        }
        assert (done + [st])[..|done|] == done;
        done := done + [st];
        i := next;
      }
      assert done + [] == done;
      return Success;
    }
  }

  // ---- Arguments and output ------------------------------------------------

  /** The checks main makes before loading: at least three arguments, and both
      file names with a supported extension; error 2 otherwise. */
  function CheckArguments(argv: seq<CString>): (r: Option<ErrorCode>)
    ensures r.None? <==> |argv| >= 3 && IsValidExpression(argv[1]) && IsValidExpression(argv[2])
    ensures r.Some? ==> r.value == InvalidArgs
  {
    if |argv| < 3 then Some(InvalidArgs)
    else if !IsValidExpression(argv[1]) || !IsValidExpression(argv[2]) then Some(InvalidArgs)
    else None
  }

  /** Once the file names pass, removing "--benchmark" cannot touch them: it
      has no dot, so it is neither of them. */
  lemma RemovalKeepsFileNames(argv: seq<CString>)
    requires CheckArguments(argv).None?
    ensures |WithoutBenchmark(argv)| >= 3 && WithoutBenchmark(argv)[..3] == argv[..3]
  {
    NoDotIsInvalid("--benchmark");
    match FirstBenchmark(argv)
    case None =>
    case Some(k) =>
      assert k >= 3;
      if k == 3 {
        assert |argv| >= 4;
      }
  }

  /** `t` occurs in `s` at index k. */
  predicate OccursAt(s: seq<char>, t: seq<char>, k: nat)
  {
    k + |t| <= |s| && s[k..k + |t|] == t
  }

  /** `strstr(s, t) != NULL`. */
  predicate Contains(s: seq<char>, t: seq<char>)
  {
    exists k: nat | k <= |s| :: OccursAt(s, t, k)
  }

  /** How the result is written. */
  datatype Output = JpegOutput(quality: int) | PngOutput(stride: nat) | NoOutput

  /** The output dispatch: the suffix from the last dot picks the encoder by
      substring test, JPEG at quality `JPEG_QUALITY` or PNG with a row stride
      of `width*channels` bytes; another suffix writes nothing, and a name
      without a dot is error 2. */
  function OutputFor(name: seq<char>, w: nat, ch: nat): (r: Option<Output>)
    ensures r.None? <==> '.' !in name
  {
    match Extension(name)
    case None => None
    case Some(ext) =>
      if Contains(ext, ".jpg") || Contains(ext, ".jpeg") then Some(JpegOutput(JpegQuality))
      else if Contains(ext, ".png") then Some(PngOutput(w * ch))
      else Some(NoOutput)
  }

  lemma ContainsSelf(s: seq<char>)
    ensures Contains(s, s)
  {
    assert OccursAt(s, s, 0);
  }

  lemma NotContained(s: seq<char>, t: seq<char>)
    requires (|s| == |t| && s != t) || |s| < |t|
    ensures !Contains(s, t)
  {
    forall k: nat ensures !OccursAt(s, t, k) {
      if k + |t| <= |s| {
        assert k == 0 && s[0..|t|] == s;
      }
    }
  }

  /** A name `is_valid_expression` accepts is written as JPEG at quality 90
      when it ends with ".jpg" or ".jpeg", and as PNG with stride
      width*channels when it ends with ".png". */
  lemma OutputOfValidName(name: CString, w: nat, ch: nat)
    requires IsValidExpression(name)
    ensures EndsWith(name, ".jpg") || EndsWith(name, ".jpeg") ==> OutputFor(name, w, ch) == Some(JpegOutput(90))
    ensures EndsWith(name, ".png") ==> OutputFor(name, w, ch) == Some(PngOutput(w * ch))
  {
    ValidExpressionIff(name);
    ExtensionIsSuffix(name, ".jpg");
    ExtensionIsSuffix(name, ".jpeg");
    ExtensionIsSuffix(name, ".png");
    ContainsSelf(".jpg");
    ContainsSelf(".jpeg");
    ContainsSelf(".png");
    NotContained(".png", ".jpg");
    NotContained(".png", ".jpeg");
  }

  /** The substring test is looser than `is_valid_expression`: a suffix that
      merely begins with ".jpg" still picks JPEG. */
  lemma OutputLooserThanValidation()
    ensures OutputFor("a.jpgx", 1, 3) == Some(JpegOutput(90))
    ensures !IsValidExpression("a.jpgx")
  {
    ExtensionIsSuffix("a.jpgx", ".jpgx");
    assert Extension("a.jpgx") == Some(".jpgx");
    assert OccursAt(".jpgx", ".jpg", 0);
    ValidExpressionIff("a.jpgx");
  }
}
