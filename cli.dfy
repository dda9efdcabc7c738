/** The argument handling of `main` in Src/main.cpp and `valid_parameter` of
    Src/utility.h: flags are read in pairs, names must end in ".ply", numbers must
    be positive and below INT_MAX, and any rejection ends the program before
    `ipsr` is called. */
module CommandLine {
  import opened Text
  import opened Options

  /** INT_MAX of a 32-bit `int`. */
  const IntMax: int := 0x7FFF_FFFF

  /** `valid_parameter`: strictly positive and strictly below INT_MAX. */
  predicate ValidParameter(v: int) {
    0 < v < IntMax
  }

  /** `static_cast<int>` of a `long`: the value modulo 2^32, read back as a signed
      32-bit number. */
  function Int32(v: int): (r: int)
    ensures -0x8000_0000 <= r < 0x8000_0000
    ensures (r - v) % 0x1_0000_0000 == 0
  {
    (v + 0x8000_0000) % 0x1_0000_0000 - 0x8000_0000
  }

  /** A value that passes `valid_parameter` survives the cast to `int` unchanged,
      and both 0 and INT_MAX are refused. */
  lemma ValidParameterSurvivesCast(v: int)
    ensures ValidParameter(v) ==> Int32(v) == v && Int32(v) >= 1
    ensures !ValidParameter(0) && !ValidParameter(IntMax)
  {
    if ValidParameter(v) {
      assert 0 <= v + 0x8000_0000 < 0x1_0000_0000;
    }
  }

  /** A `double` as `strtod` can return it. */
  datatype Double = Finite(value: real) | PosInf | NegInf | NaN

  /** The IEEE comparison `d < 0.0`, false for not-a-number. */
  predicate BelowZero(d: Double) {
    match d
    case Finite(x) => x < 0.0
    case NegInf => true
    case PosInf => false
    case NaN => false
  }

  /** The point-weight check: refused when below zero or equal to +-HUGE_VAL. */
  predicate PointWeightAccepted(d: Double) {
    !(BelowZero(d) || d == PosInf || d == NegInf)
  }

  /** The point weight is accepted exactly when it is a finite non-negative
      number, or not a number, which every comparison lets through. */
  lemma PointWeightAcceptedIff(d: Double)
    ensures PointWeightAccepted(d) <==> d.NaN? || (d.Finite? && d.value >= 0.0)
  {
  }

  /** `min(find_last_of('.'), length())`: the index of the last '.', or the length
      when there is none. */
  function LastDot(s: string): (p: nat)
    ensures p <= |s|
    ensures p < |s| ==> s[p] == '.' && forall j :: p < j < |s| ==> s[j] != '.'
    ensures p == |s| ==> forall j :: 0 <= j < |s| ==> s[j] != '.'
  {
    if s == [] then 0
    else if s[|s| - 1] == '.' then |s| - 1
    else
      var q := LastDot(s[..|s| - 1]);
      if q == |s| - 1 then |s| else q
  }

  /** The extension of a file name: from its last '.' to the end, or empty. */
  function Extension(name: string): string {
    name[LastDot(name)..]
  }

  /** A name the program accepts for `--in` and `--out`. */
  predicate IsPlyName(name: string) {
    Lower(Extension(name)) == ".ply"
  }

  /** A name is accepted exactly when it ends in a '.' followed by "ply" in any
      mix of cases; a name without a '.' is refused. */
  lemma IsPlyNameIff(name: string)
    ensures IsPlyName(name) <==>
      |name| >= 4 && name[|name| - 4] == '.' && Lower(name[|name| - 3..]) == "ply"
    ensures (forall j :: 0 <= j < |name| ==> name[j] != '.') ==> !IsPlyName(name)
  {
    var n := |name|;
    var p := LastDot(name);
    if IsPlyName(name) {
      assert |Extension(name)| == 4;
      assert p == n - 4;
      assert LowerChar(name[p]) == '.';
      assert name[n - 3..] == Extension(name)[1..];
    }
    if n >= 4 && name[n - 4] == '.' && Lower(name[n - 3..]) == "ply" {
      var tail := name[n - 3..];
      assert LowerChar(tail[0]) == 'p' && LowerChar(tail[1]) == 'l' && LowerChar(tail[2]) == 'y';
      assert name[n - 3] != '.' && name[n - 2] != '.' && name[n - 1] != '.';
      assert p == n - 4;
      assert Extension(name) == ['.'] + tail;
    }
  }

  /** The extension test of `--in` and `--out`: cut the name at its last '.',
      lower-case the piece character by character, compare it with ".ply". */
  method CheckExtension(name: string) returns (ok: bool)
    ensures ok <==> IsPlyName(name)
  {
    var extension := name[LastDot(name)..];
    for i := 0 to |extension|
      invariant |extension| == |Extension(name)|
      invariant forall j :: 0 <= j < i ==> extension[j] == LowerChar(Extension(name)[j])
      invariant forall j :: i <= j < |extension| ==> extension[j] == Extension(name)[j]
    {
      extension := extension[i := LowerChar(extension[i])];
    }
    assert extension == Lower(Extension(name));
    ok := extension == ".ply";
  }

  /** The settings `main` hands to `ipsr`. */
  datatype Config = Config(input: string, output: string, iters: int, pointWeight: Double, depth: int, neighbors: int)

  /** No names yet, 30 iterations, point weight 10, depth 10, 10 neighbours. */
  const Defaults := Config("", "", 30, Finite(10.0), 10, 10)

  /** Why `main` returns without calling `ipsr`. */
  datatype Reason =
    | BadInputName
    | BadOutputName
    | BadIters
    | BadPointWeight
    | BadDepth
    | BadNeighbors
    | UnknownFlag(flag: string)
    | MissingValue(flag: string)
    | Usage

  /** What `main` does with its arguments: call `ipsr` with a configuration, or
      stop. */
  datatype Decision = Launch(cfg: Config) | Stop(reason: Reason)

  /** The check after the loop: without arguments, or without both names, show
      the usage and stop. */
  function Finish(argc: nat, cfg: Config): (r: Decision)
    ensures r.Launch? ==> r.cfg == cfg && cfg.input != [] && cfg.output != []
    ensures r.Stop? ==> r.reason == Usage
  {
    if argc <= 1 || cfg.input == [] || cfg.output == [] then Stop(Usage) else Launch(cfg)
  }

  /** The flags `main` knows. */
  predicate KnownFlag(flag: string) {
    flag == "--in" || flag == "--out" || flag == "--iters" || flag == "--pointWeight"
    || flag == "--depth" || flag == "--neighbors"
  }

  /** The outcome of one flag: the updated configuration, or a reason to stop. */
  datatype Step = Next(cfg: Config) | Halt(reason: Reason)

  /** One known flag and its value: check the value and store it. Each flag halts
      with its own reason exactly when its value fails its check, and otherwise
      stores the value read, unchanged by the cast, in its own setting alone. */
  function Apply(flag: string, value: string, cfg: Config, strtol: string -> int, strtod: string -> Double): (r: Step)
    ensures r.Halt? ==> r.reason in {BadInputName, BadOutputName, BadIters, BadPointWeight, BadDepth, BadNeighbors}
    ensures r.Next? && flag != "--in" ==> r.cfg.input == cfg.input
    ensures r.Next? && flag != "--out" ==> r.cfg.output == cfg.output
    ensures r.Next? && flag == "--in" ==> IsPlyName(r.cfg.input)
    ensures r.Next? && flag == "--out" ==> IsPlyName(r.cfg.output)
    ensures flag == "--in" ==>
      (r.Halt? <==> !IsPlyName(value))
      && (r.Halt? ==> r.reason == BadInputName) && (r.Next? ==> r.cfg == cfg.(input := value))
    ensures flag == "--out" ==>
      (r.Halt? <==> !IsPlyName(value))
      && (r.Halt? ==> r.reason == BadOutputName) && (r.Next? ==> r.cfg == cfg.(output := value))
    ensures flag == "--iters" ==>
      (r.Halt? <==> !ValidParameter(strtol(value)))
      && (r.Halt? ==> r.reason == BadIters) && (r.Next? ==> r.cfg == cfg.(iters := strtol(value)))
    ensures flag == "--pointWeight" ==>
      (r.Halt? <==> !PointWeightAccepted(strtod(value)))
      && (r.Halt? ==> r.reason == BadPointWeight) && (r.Next? ==> r.cfg == cfg.(pointWeight := strtod(value)))
    ensures flag == "--depth" ==>
      (r.Halt? <==> !ValidParameter(strtol(value)))
      && (r.Halt? ==> r.reason == BadDepth) && (r.Next? ==> r.cfg == cfg.(depth := strtol(value)))
    ensures flag == "--neighbors" ==>
      (r.Halt? <==> !ValidParameter(strtol(value)))
      && (r.Halt? ==> r.reason == BadNeighbors) && (r.Next? ==> r.cfg == cfg.(neighbors := strtol(value)))
  {
    if flag == "--in" then
      if !IsPlyName(value) then Halt(BadInputName) else Next(cfg.(input := value))
    else if flag == "--out" then
      if !IsPlyName(value) then Halt(BadOutputName) else Next(cfg.(output := value))
    else if flag == "--iters" then
      if !ValidParameter(strtol(value)) then Halt(BadIters)
      else
        ValidParameterSurvivesCast(strtol(value));
        Next(cfg.(iters := Int32(strtol(value))))
    else if flag == "--pointWeight" then
      if !PointWeightAccepted(strtod(value)) then Halt(BadPointWeight) else Next(cfg.(pointWeight := strtod(value)))
    else if flag == "--depth" then
      if !ValidParameter(strtol(value)) then Halt(BadDepth)
      else
        ValidParameterSurvivesCast(strtol(value));
        Next(cfg.(depth := Int32(strtol(value))))
    else
      if !ValidParameter(strtol(value)) then Halt(BadNeighbors)
      else
        ValidParameterSurvivesCast(strtol(value));
        Next(cfg.(neighbors := Int32(strtol(value))))
  }

  /** The loop over the arguments from position `i`, two at a time; `strtol` and
      `strtod` are the C library's number readers. An unknown flag stops before
      its value is looked at. */
  function ParseFrom(argv: seq<string>, i: nat, cfg: Config, strtol: string -> int, strtod: string -> Double): (r: Decision)
    ensures r.Launch? ==> r.cfg.input != [] && r.cfg.output != []
    ensures r.Stop? && r.reason.UnknownFlag? ==> !KnownFlag(r.reason.flag) && r.reason.flag in argv
    ensures r.Stop? && r.reason.MissingValue? ==> KnownFlag(r.reason.flag) && |argv| > 0 && argv[|argv| - 1] == r.reason.flag
    decreases |argv| - i
  {
    if i >= |argv| then Finish(|argv|, cfg)
    else if !KnownFlag(argv[i]) then Stop(UnknownFlag(argv[i]))
    else if i + 1 >= |argv| then Stop(MissingValue(argv[i]))
    else
      match Apply(argv[i], argv[i + 1], cfg, strtol, strtod)
      case Halt(reason) => Stop(reason)
      case Next(c) => ParseFrom(argv, i + 2, c, strtol, strtod)
  }

  /** `main`'s argument loop: `argv[0]` is the program name, and each flag at an
      odd position is followed by its value. */
  method ParseCommandLine(argv: seq<string>, strtol: string -> int, strtod: string -> Double) returns (d: Decision)
    ensures d == ParseFrom(argv, 1, Defaults, strtol, strtod)
  {
    var cfg := Defaults;
    var i := 1;
    while i < |argv|
      invariant 1 <= i
      invariant ParseFrom(argv, i, cfg, strtol, strtod) == ParseFrom(argv, 1, Defaults, strtol, strtod)
      decreases |argv| - i
    {
      var flag := argv[i];
      if !KnownFlag(flag) {
        return Stop(UnknownFlag(flag));
      }
      if i + 1 >= |argv| {
        return Stop(MissingValue(flag));
      }
      var value := argv[i + 1];
      if flag == "--in" {
        var ok := CheckExtension(value);
        if !ok {
          return Stop(BadInputName);
        }
        cfg := cfg.(input := value);
      } else if flag == "--out" {
        var ok := CheckExtension(value);
        if !ok {
          return Stop(BadOutputName);
        }
        cfg := cfg.(output := value);
      } else if flag == "--iters" {
        var v := strtol(value);
        if !ValidParameter(v) {
          return Stop(BadIters);
        }
        cfg := cfg.(iters := Int32(v));
      } else if flag == "--pointWeight" {
        var w := strtod(value);
        if !PointWeightAccepted(w) {
          return Stop(BadPointWeight);
        }
        cfg := cfg.(pointWeight := w);
      } else if flag == "--depth" {
        var v := strtol(value);
        if !ValidParameter(v) {
          return Stop(BadDepth);
        }
        cfg := cfg.(depth := Int32(v));
      } else {
        var v := strtol(value);
        if !ValidParameter(v) {
          return Stop(BadNeighbors);
        }
        cfg := cfg.(neighbors := Int32(v));
      }
      i := i + 2;
    }
    d := Finish(|argv|, cfg);
  }

  /** Every setting is one `ipsr` may receive: names, when set, end in ".ply", the
      counts pass `valid_parameter`, the weight passes its check. */
  predicate Sound(cfg: Config) {
    (cfg.input == [] || IsPlyName(cfg.input))
    && (cfg.output == [] || IsPlyName(cfg.output))
    && ValidParameter(cfg.iters) && ValidParameter(cfg.depth) && ValidParameter(cfg.neighbors)
    && PointWeightAccepted(cfg.pointWeight)
  }

  /** `value` follows `flag` somewhere on the command line. */
  predicate Given(argv: seq<string>, flag: string, value: string) {
    exists j :: 1 <= j < |argv| - 1 && argv[j] == flag && argv[j + 1] == value
  }

  /** A configuration reached from the command line: sound, and each name it holds
      was given after its flag. */
  predicate Reached(argv: seq<string>, cfg: Config) {
    Sound(cfg)
    && (cfg.input != [] ==> Given(argv, "--in", cfg.input))
    && (cfg.output != [] ==> Given(argv, "--out", cfg.output))
  }

  /** Storing a checked value keeps the configuration one the command line reaches. */
  lemma ApplyKeepsReached(argv: seq<string>, i: nat, cfg: Config, strtol: string -> int, strtod: string -> Double)
    requires 1 <= i && i + 1 < |argv| && KnownFlag(argv[i])
    requires Reached(argv, cfg)
    ensures Apply(argv[i], argv[i + 1], cfg, strtol, strtod).Next? ==>
      Reached(argv, Apply(argv[i], argv[i + 1], cfg, strtol, strtod).cfg)
  {
    var flag, value := argv[i], argv[i + 1];
    if flag == "--in" || flag == "--out" {
      assert Given(argv, flag, value) by {
        assert argv[i] == flag && argv[i + 1] == value;
      }
    } else if flag == "--pointWeight" {
    } else {
      ValidParameterSurvivesCast(strtol(value));
    }
  }

  /** `ipsr` is only called with two ".ply" names and validated settings, and each
      name is the value given after some `--in` or `--out` flag. */
  lemma {:induction false} LaunchIsValidated(argv: seq<string>, i: nat, cfg: Config, strtol: string -> int, strtod: string -> Double)
    requires 1 <= i
    requires Reached(argv, cfg)
    ensures ParseFrom(argv, i, cfg, strtol, strtod).Launch? ==>
      var c := ParseFrom(argv, i, cfg, strtol, strtod).cfg;
      Reached(argv, c) && c.input != [] && c.output != []
    decreases |argv| - i
  {
    if i < |argv| && KnownFlag(argv[i]) && i + 1 < |argv| {
      ApplyKeepsReached(argv, i, cfg, strtol, strtod);
      var step := Apply(argv[i], argv[i + 1], cfg, strtol, strtod);
      if step.Next? {
        LaunchIsValidated(argv, i + 2, step.cfg, strtol, strtod);
      }
    }
  }

  /** Every position from `i` on, in steps of two, holds a known flag with a
      value after it. */
  predicate FlagsFrom(argv: seq<string>, i: nat) {
    forall j :: i <= j < |argv| && (j - i) % 2 == 0 ==> KnownFlag(argv[j]) && j + 1 < |argv|
  }

  /** A launch means every position the loop visits holds a known flag followed by
      its value: an unknown word or a flag in the last place stops the loop. */
  lemma {:induction false} LaunchFlagsKnown(argv: seq<string>, i: nat, cfg: Config, strtol: string -> int, strtod: string -> Double)
    ensures ParseFrom(argv, i, cfg, strtol, strtod).Launch? ==> FlagsFrom(argv, i)
    decreases |argv| - i
  {
    if i < |argv| && KnownFlag(argv[i]) && i + 1 < |argv| {
      var step := Apply(argv[i], argv[i + 1], cfg, strtol, strtod);
      if step.Next? {
        LaunchFlagsKnown(argv, i + 2, step.cfg, strtol, strtod);
        if ParseFrom(argv, i + 2, step.cfg, strtol, strtod).Launch? {
          FlagsFromStep(argv, i);
        }
      }
    }
  }

  /** A known flag with its value in front of a well-formed rest is well formed. */
  lemma FlagsFromStep(argv: seq<string>, i: nat)
    requires i + 1 < |argv| && KnownFlag(argv[i]) && FlagsFrom(argv, i + 2)
    ensures FlagsFrom(argv, i)
  {
    forall j | i + 2 <= j < |argv| && (j - i) % 2 == 0
      ensures KnownFlag(argv[j]) && j + 1 < |argv|
    {
      assert (j - (i + 2)) % 2 == 0;
    }
  }

  /** From `main`'s defaults: a launch always carries two ".ply" names taken from
      the command line and validated settings. */
  lemma MainLaunchIsValidated(argv: seq<string>, strtol: string -> int, strtod: string -> Double)
    ensures ParseFrom(argv, 1, Defaults, strtol, strtod).Launch? ==>
      var c := ParseFrom(argv, 1, Defaults, strtol, strtod).cfg;
      Sound(c) && IsPlyName(c.input) && IsPlyName(c.output)
      && Given(argv, "--in", c.input) && Given(argv, "--out", c.output)
  {
    LaunchIsValidated(argv, 1, Defaults, strtol, strtod);
  }

  /** From `main`'s defaults: a launch means every position 1, 3, 5, ... of the
      command line holds a known flag with a value after it. */
  lemma MainLaunchFlagsKnown(argv: seq<string>, strtol: string -> int, strtod: string -> Double)
    ensures ParseFrom(argv, 1, Defaults, strtol, strtod).Launch? ==> FlagsFrom(argv, 1)
  {
    LaunchFlagsKnown(argv, 1, Defaults, strtol, strtod);
  }

  /** The value after the last occurrence of `flag` among the flag positions
      `i`, `i + 2`, ... that have a value after them. */
  function LastValue(argv: seq<string>, i: nat, flag: string): Option<string>
    decreases |argv| - i
  {
    if i + 1 >= |argv| then None
    else
      match LastValue(argv, i + 2, flag)
      case Some(v) => Some(v)
      case None => if argv[i] == flag then Some(argv[i + 1]) else None
  }

  function TextOr(o: Option<string>, otherwise: string): string {
    if o.Some? then o.value else otherwise
  }

  function NumberOr(o: Option<string>, otherwise: int, strtol: string -> int): int {
    if o.Some? then strtol(o.value) else otherwise
  }

  /** The settings a command line asks for, read independently of the loop: each
      setting is the value after the last occurrence of its flag, or the incoming
      setting when the flag does not occur. */
  function Settings(argv: seq<string>, i: nat, cfg: Config, strtol: string -> int, strtod: string -> Double): Config {
    var weight := LastValue(argv, i, "--pointWeight");
    Config(
      TextOr(LastValue(argv, i, "--in"), cfg.input),
      TextOr(LastValue(argv, i, "--out"), cfg.output),
      NumberOr(LastValue(argv, i, "--iters"), cfg.iters, strtol),
      if weight.Some? then strtod(weight.value) else cfg.pointWeight,
      NumberOr(LastValue(argv, i, "--depth"), cfg.depth, strtol),
      NumberOr(LastValue(argv, i, "--neighbors"), cfg.neighbors, strtol))
  }

  /** Storing one flag's value and reading the rest gives what reading from the
      flag on gives. */
  lemma SettingsStep(argv: seq<string>, i: nat, cfg: Config, strtol: string -> int, strtod: string -> Double)
    requires i + 1 < |argv| && KnownFlag(argv[i])
    requires Apply(argv[i], argv[i + 1], cfg, strtol, strtod).Next?
    ensures Settings(argv, i, cfg, strtol, strtod)
         == Settings(argv, i + 2, Apply(argv[i], argv[i + 1], cfg, strtol, strtod).cfg, strtol, strtod)
  {
  }

  /** A launch carries, for every setting, the value after the last occurrence of
      its flag, or the incoming setting when the flag does not occur. */
  lemma {:induction false} LaunchSettings(argv: seq<string>, i: nat, cfg: Config, strtol: string -> int, strtod: string -> Double)
    ensures ParseFrom(argv, i, cfg, strtol, strtod).Launch? ==>
      ParseFrom(argv, i, cfg, strtol, strtod).cfg == Settings(argv, i, cfg, strtol, strtod)
    decreases |argv| - i
  {
    if i < |argv| && KnownFlag(argv[i]) && i + 1 < |argv| {
      var step := Apply(argv[i], argv[i + 1], cfg, strtol, strtod);
      if step.Next? {
        LaunchSettings(argv, i + 2, step.cfg, strtol, strtod);
        SettingsStep(argv, i, cfg, strtol, strtod);
      }
    }
  }

  /** From `main`'s defaults: `ipsr` receives the value after the last occurrence
      of each flag, and the default for a flag that does not occur. */
  lemma MainLaunchSettings(argv: seq<string>, strtol: string -> int, strtod: string -> Double)
    ensures ParseFrom(argv, 1, Defaults, strtol, strtod).Launch? ==>
      ParseFrom(argv, 1, Defaults, strtol, strtod).cfg == Settings(argv, 1, Defaults, strtol, strtod)
  {
    LaunchSettings(argv, 1, Defaults, strtol, strtod);
  }

  /** The shortest accepted command line, `prog --in a.ply --out b.ply`, launches
      with the defaults for everything else; without `--out` it only shows the usage. */
  lemma MinimalCommandLine(prog: string, a: string, b: string, strtol: string -> int, strtod: string -> Double)
    requires IsPlyName(a) && IsPlyName(b)
    ensures ParseFrom([prog, "--in", a, "--out", b], 1, Defaults, strtol, strtod)
      == Launch(Defaults.(input := a, output := b))
    ensures ParseFrom([prog, "--in", a], 1, Defaults, strtol, strtod) == Stop(Usage)
  {
    var argv := [prog, "--in", a, "--out", b];
    assert a != [] && b != [];
    assert ParseFrom(argv, 5, Defaults.(input := a, output := b), strtol, strtod) == Launch(Defaults.(input := a, output := b));
    assert ParseFrom(argv, 3, Defaults.(input := a), strtol, strtod) == Launch(Defaults.(input := a, output := b));
    assert ParseFrom([prog, "--in", a], 3, Defaults.(input := a), strtol, strtod) == Stop(Usage);
  }
}
