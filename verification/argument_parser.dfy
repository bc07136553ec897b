/**
  The three command-line parsers. Each reads the command word at index 0,
  the mandatory input at index 1, and then scans flags left to right from
  index 2: a value flag consumes the next token, a switch consumes only
  itself, and any other token is an error. The three scans share one
  definition, `Scan`, driven by a per-command flag table.
 */
module ArgumentParser {
  import opened Results
  import opened CompressionKinds
  import opened CommandOptions
  import opened Decimal

  datatype ArgError =
    | MissingInput(command: string)    // fewer than two arguments
    | MissingValue(flag: string)       // a value flag is the last token
    | InvalidPeek                      // the `--peek` value is not a non-negative 32-bit integer
    | UnknownParameter(token: string)  // a token outside the command's flag set
    | MissingOutput                    // build without a non-empty output file

  /** What a token means to one command. */
  datatype FlagAction<!O> =
    | Switch(toggle: O -> O)
    | TakesValue(assign: (O, string) -> Result<O, ArgError>)
    | NotAFlag

  /**
    The flag loop from index `i`. The guard on a value flag is what keeps the
    index within the arguments: `Scan` is only ever called with `i <= |args|`.
   */
  function Scan<O>(flags: string -> FlagAction<O>, args: seq<string>, i: nat, o: O): Result<O, ArgError>
    requires i <= |args|
    decreases |args| - i
  {
    if i == |args| then Success(o)
    else match flags(args[i])
      case Switch(toggle) => Scan(flags, args, i + 1, toggle(o))
      case TakesValue(assign) =>
        if i + 1 >= |args| then Failure(MissingValue(args[i]))
        else (match assign(o, args[i + 1])
          case Failure(e) => Failure(e)
          case Success(o') => Scan(flags, args, i + 2, o'))
      case NotAFlag => Failure(UnknownParameter(args[i]))
  }

  /** A successful scan of `a` stops exactly at its end, so scanning `a + b` resumes there. */
  lemma {:induction false} ScanAppend<O>(flags: string -> FlagAction<O>, a: seq<string>, b: seq<string>, i: nat, o: O)
    requires i <= |a| && Scan(flags, a, i, o).Success?
    ensures Scan(flags, a + b, i, o) == Scan(flags, a + b, |a|, Scan(flags, a, i, o).value)
    decreases |a| - i
  {
    if i < |a| {
      assert (a + b)[i] == a[i];
      match flags(a[i])
      case Switch(toggle) =>
        ScanAppend(flags, a, b, i + 1, toggle(o));
      case TakesValue(assign) =>
        assert (a + b)[i + 1] == a[i + 1];
        ScanAppend(flags, a, b, i + 2, assign(o, a[i + 1]).value);
      case NotAFlag =>
    }
  }

  /** Appending one switch to a successful scan applies that switch and nothing else. */
  lemma ScanThenSwitch<O>(flags: string -> FlagAction<O>, a: seq<string>, i: nat, o: O, t: string)
    requires i <= |a| && Scan(flags, a, i, o).Success? && flags(t).Switch?
    ensures Scan(flags, a + [t], i, o) == Success(flags(t).toggle(Scan(flags, a, i, o).value))
  {
    ScanAppend(flags, a, [t], i, o);
    assert (a + [t])[|a|] == t;
  }

  /** Appending a value flag and its value to a successful scan assigns that value: the last one wins. */
  lemma ScanThenValue<O>(flags: string -> FlagAction<O>, a: seq<string>, i: nat, o: O, t: string, v: string)
    requires i <= |a| && Scan(flags, a, i, o).Success? && flags(t).TakesValue?
    ensures Scan(flags, a + [t, v], i, o) == flags(t).assign(Scan(flags, a, i, o).value, v)
  {
    ScanAppend(flags, a, [t, v], i, o);
    assert (a + [t, v])[|a|] == t && (a + [t, v])[|a| + 1] == v;
  }

  /** A trailing token that is a value flag, or no flag at all, ends the scan with its error. */
  lemma ScanThenDangling<O>(flags: string -> FlagAction<O>, a: seq<string>, i: nat, o: O, t: string)
    requires i <= |a| && Scan(flags, a, i, o).Success? && !flags(t).Switch?
    ensures flags(t).TakesValue? ==> Scan(flags, a + [t], i, o) == Failure(MissingValue(t))
    ensures flags(t).NotAFlag? ==> Scan(flags, a + [t], i, o) == Failure(UnknownParameter(t))
  {
    ScanAppend(flags, a, [t], i, o);
    assert (a + [t])[|a|] == t;
  }

  /** A token outside the flag set stops the scan with its error, whatever follows it. */
  lemma ScanUnknownStops<O>(flags: string -> FlagAction<O>, a: seq<string>, b: seq<string>, i: nat, o: O, t: string)
    requires i <= |a| && Scan(flags, a, i, o).Success? && flags(t).NotAFlag?
    ensures Scan(flags, a + [t] + b, i, o) == Failure(UnknownParameter(t))
  {
    assert a + [t] + b == a + ([t] + b);
    ScanAppend(flags, a, [t] + b, i, o);
    assert (a + ([t] + b))[|a|] == t;
  }

  /** A value that its flag rejects stops the scan with that error, whatever follows it. */
  lemma ScanRejectedValueStops<O>(flags: string -> FlagAction<O>, a: seq<string>, b: seq<string>, i: nat, o: O, t: string, v: string)
    requires i <= |a| && Scan(flags, a, i, o).Success? && flags(t).TakesValue?
    requires flags(t).assign(Scan(flags, a, i, o).value, v).Failure?
    ensures Scan(flags, a + [t, v] + b, i, o) == Failure(flags(t).assign(Scan(flags, a, i, o).value, v).error)
  {
    assert a + [t, v] + b == a + ([t, v] + b);
    ScanAppend(flags, a, [t, v] + b, i, o);
    assert (a + ([t, v] + b))[|a|] == t && (a + ([t, v] + b))[|a| + 1] == v;
  }

  /** The scan from `i` reads nothing before `i`. */
  lemma {:induction false} ScanReadsOnlyFrom<O>(flags: string -> FlagAction<O>, a: seq<string>, b: seq<string>, i: nat, o: O)
    requires i <= |a| == |b| && a[i..] == b[i..]
    ensures Scan(flags, a, i, o) == Scan(flags, b, i, o)
    decreases |a| - i
  {
    if i < |a| {
      assert a[i] == a[i..][0] == b[i..][0] == b[i];
      assert a[i + 1..] == a[i..][1..] == b[i..][1..] == b[i + 1..];
      if i + 1 < |a| {
        assert a[i + 1] == b[i + 1];
        assert a[i + 2..] == a[i + 1..][1..] == b[i + 1..][1..] == b[i + 2..];
        match flags(a[i])
        case Switch(toggle) => ScanReadsOnlyFrom(flags, a, b, i + 1, toggle(o));
        case TakesValue(assign) =>
          if assign(o, a[i + 1]).Success? {
            ScanReadsOnlyFrom(flags, a, b, i + 2, assign(o, a[i + 1]).value);
          }
        case NotAFlag =>
      } else if flags(a[i]).Switch? {
        ScanReadsOnlyFrom(flags, a, b, i + 1, flags(a[i]).toggle(o));
      }
    }
  }

  /** An invariant of the options that every flag of the table keeps. */
  ghost predicate Keeps<O(!new)>(flags: string -> FlagAction<O>, inv: O -> bool) {
    && (forall t, x :: inv(x) && flags(t).Switch? ==> inv(flags(t).toggle(x)))
    && (forall t, x, v :: inv(x) && flags(t).TakesValue? && flags(t).assign(x, v).Success?
          ==> inv(flags(t).assign(x, v).value))
  }

  lemma {:induction false} ScanKeeps<O(!new)>(flags: string -> FlagAction<O>, inv: O -> bool, args: seq<string>, i: nat, o: O)
    requires i <= |args| && inv(o) && Keeps(flags, inv)
    ensures Scan(flags, args, i, o).Success? ==> inv(Scan(flags, args, i, o).value)
    decreases |args| - i
  {
    if i < |args| {
      match flags(args[i])
      case Switch(toggle) =>
        ScanKeeps(flags, inv, args, i + 1, toggle(o));
      case TakesValue(assign) =>
        if i + 1 < |args| && assign(o, args[i + 1]).Success? {
          ScanKeeps(flags, inv, args, i + 2, assign(o, args[i + 1]).value);
        }
      case NotAFlag =>
    }
  }

  // ---------------------------------------------------------------- dump

  predicate IsOutFlag(t: string) {
    t == "-o" || t == "--out"
  }

  function DumpFlag(t: string): FlagAction<DumpOptions> {
    if IsOutFlag(t) then TakesValue((o: DumpOptions, v: string) => Success(o.(output := Some(v))))
    else if t == "--in" then TakesValue((o: DumpOptions, v: string) => Success(o.(common := o.common.(inPath := Some(v)))))
    else if t == "--pretty" then Switch((o: DumpOptions) => o.(pretty := true))
    else NotAFlag
  }

  /** ParseDumpArguments. */
  function ParseDumpArguments(args: seq<string>): (r: Result<DumpOptions, ArgError>)
    ensures |args| < 2 ==> r == Failure(MissingInput("dump"))
    ensures |args| == 2 ==> r == Success(NewDumpOptions(args[1]))
  {
    if |args| < 2 then Failure(MissingInput("dump"))
    else Scan(DumpFlag, args, 2, NewDumpOptions(args[1]))
  }

  /** A successful dump parse keeps `args[1]` as the input and never sets OutPath. */
  lemma DumpInputIsSecondArgument(args: seq<string>)
    requires ParseDumpArguments(args).Success?
    ensures |args| >= 2
    ensures ParseDumpArguments(args).value.common.input == args[1]
    ensures ParseDumpArguments(args).value.outPath.None?
  {
    var inv := (o: DumpOptions) => o.common.input == args[1] && o.outPath.None?;
    ScanKeeps(DumpFlag, inv, args, 2, NewDumpOptions(args[1]));
  }

  /** `-o v` / `--out v` at the end sets Output to `v` (and so the output path), changing nothing else. */
  lemma DumpOutputLastWins(args: seq<string>, flag: string, v: string)
    requires ParseDumpArguments(args).Success? && IsOutFlag(flag)
    ensures ParseDumpArguments(args + [flag, v]) == Success(ParseDumpArguments(args).value.(output := Some(v)))
    ensures ParseDumpArguments(args + [flag, v]).value.OutputPath() == v
  {
    ScanThenValue(DumpFlag, args, 2, NewDumpOptions(args[1]), flag, v);
    assert (args + [flag, v])[1] == args[1];
    DumpInputIsSecondArgument(args);
  }

  /** `--in v` at the end sets InPath to `v` (and so the input path), changing nothing else. */
  lemma DumpInPathLastWins(args: seq<string>, v: string)
    requires ParseDumpArguments(args).Success?
    ensures ParseDumpArguments(args + ["--in", v])
            == Success(ParseDumpArguments(args).value.(common := ParseDumpArguments(args).value.common.(inPath := Some(v))))
    ensures ParseDumpArguments(args + ["--in", v]).value.common.InputPath() == v
  {
    ScanThenValue(DumpFlag, args, 2, NewDumpOptions(args[1]), "--in", v);
    assert (args + ["--in", v])[1] == args[1];
  }

  /** `--pretty` only sets Pretty. */
  lemma DumpPrettyOnlySetsPretty(args: seq<string>)
    requires ParseDumpArguments(args).Success?
    ensures ParseDumpArguments(args + ["--pretty"]) == Success(ParseDumpArguments(args).value.(pretty := true))
  {
    ScanThenSwitch(DumpFlag, args, 2, NewDumpOptions(args[1]), "--pretty");
    assert (args + ["--pretty"])[1] == args[1];
  }

  /** A trailing value flag lacks its value; a trailing token outside the flag set is unknown. */
  lemma DumpTrailingTokenErrors(args: seq<string>, t: string)
    requires ParseDumpArguments(args).Success? && t != "--pretty"
    ensures IsOutFlag(t) || t == "--in" ==> ParseDumpArguments(args + [t]) == Failure(MissingValue(t))
    ensures !IsOutFlag(t) && t != "--in" ==> ParseDumpArguments(args + [t]) == Failure(UnknownParameter(t))
  {
    ScanThenDangling(DumpFlag, args, 2, NewDumpOptions(args[1]), t);
    assert (args + [t])[1] == args[1];
  }

  /** A token outside the dump flags fails the parse, whatever follows it. */
  lemma DumpUnknownStops(args: seq<string>, t: string, rest: seq<string>)
    requires ParseDumpArguments(args).Success? && !IsOutFlag(t) && t != "--in" && t != "--pretty"
    ensures ParseDumpArguments(args + [t] + rest) == Failure(UnknownParameter(t))
  {
    ScanUnknownStops(DumpFlag, args, rest, 2, NewDumpOptions(args[1]), t);
    assert (args + [t] + rest)[1] == args[1];
  }

  // --------------------------------------------------------------- build

  predicate IsKindFlag(t: string) {
    t == "--gzip" || t == "--zlib" || t == "--deflate" || t == "--plain"
  }

  function KindOfFlag(t: string): (kind: CompressionKind)
    requires IsKindFlag(t)
    ensures kind.IsScheme()
  {
    if t == "--gzip" then GZip
    else if t == "--zlib" then ZLib
    else if t == "--deflate" then Deflate
    else Plain
  }

  function BuildFlag(t: string): FlagAction<BuildOptions> {
    if IsOutFlag(t) then TakesValue((o: BuildOptions, v: string) => Success(o.(output := Some(v))))
    else if t == "--in" then TakesValue((o: BuildOptions, v: string) => Success(o.(common := o.common.(inPath := Some(v)))))
    else if IsKindFlag(t) then Switch((o: BuildOptions) => o.(kind := KindOfFlag(t)))
    else NotAFlag
  }

  /** `string.IsNullOrEmpty`. */
  predicate IsNullOrEmpty(s: Option<string>) {
    s.None? || s.value == ""
  }

  /** The check after the loop: build needs an output file. */
  function RequireOutput(o: BuildOptions): (r: Result<BuildOptions, ArgError>)
    ensures r.Success? <==> !IsNullOrEmpty(o.output) || !IsNullOrEmpty(o.outPath)
    ensures r.Success? ==> r.value == o
  {
    if IsNullOrEmpty(o.output) && IsNullOrEmpty(o.outPath) then Failure(MissingOutput) else Success(o)
  }

  /** The flag loop of build, before the output check. */
  function ScanBuild(args: seq<string>): Result<BuildOptions, ArgError>
    requires |args| >= 2
  {
    Scan(BuildFlag, args, 2, NewBuildOptions(args[1]))
  }

  /** ParseBuildArguments. */
  function ParseBuildArguments(args: seq<string>): (r: Result<BuildOptions, ArgError>)
    ensures |args| < 2 ==> r == Failure(MissingInput("build"))
    ensures |args| == 2 ==> r == Failure(MissingOutput)
  {
    if |args| < 2 then Failure(MissingInput("build"))
    else
      var o :- ScanBuild(args);
      RequireOutput(o)
  }

  lemma BuildScanKeeps(args: seq<string>)
    requires |args| >= 2 && ScanBuild(args).Success?
    ensures ScanBuild(args).value.common.input == args[1]
    ensures ScanBuild(args).value.outPath.None?
    ensures ScanBuild(args).value.kind.IsScheme()
  {
    var inv := (o: BuildOptions) => o.common.input == args[1] && o.outPath.None? && o.kind.IsScheme();
    ScanKeeps(BuildFlag, inv, args, 2, NewBuildOptions(args[1]));
  }

  /** The Output of `o`, if any, is the token after some `-o`/`--out` flag of `args`. */
  ghost predicate OutputFromArgs(args: seq<string>, o: BuildOptions) {
    o.output.None? || exists j :: 2 <= j < |args| - 1 && IsOutFlag(args[j]) && args[j + 1] == o.output.value
  }

  lemma {:induction false} BuildScanOutputFromArgs(args: seq<string>, i: nat, o: BuildOptions)
    requires 2 <= i <= |args| && OutputFromArgs(args, o)
    ensures Scan(BuildFlag, args, i, o).Success? ==> OutputFromArgs(args, Scan(BuildFlag, args, i, o).value)
    decreases |args| - i
  {
    if i < |args| {
      var t := args[i];
      if IsOutFlag(t) {
        if i + 1 < |args| {
          var o' := o.(output := Some(args[i + 1]));
          assert OutputFromArgs(args, o') by {
            assert IsOutFlag(args[i]) && args[i + 1] == o'.output.value;
          }
          BuildScanOutputFromArgs(args, i + 2, o');
        }
      } else if t == "--in" {
        if i + 1 < |args| {
          BuildScanOutputFromArgs(args, i + 2, o.(common := o.common.(inPath := Some(args[i + 1]))));
        }
      } else if IsKindFlag(t) {
        BuildScanOutputFromArgs(args, i + 1, o.(kind := KindOfFlag(t)));
      }
    }
  }

  /**
    A successful build parse has a non-empty Output taken from an `-o`/`--out`
    flag of the arguments, never an OutPath, a real compression scheme, and an
    output path that resolves without error.
   */
  lemma BuildRequiresOutput(args: seq<string>)
    requires ParseBuildArguments(args).Success?
    ensures var o := ParseBuildArguments(args).value;
      && o.common.input == args[1]
      && o.outPath.None? && o.output.Some? && o.output.value != ""
      && (exists j :: 2 <= j < |args| - 1 && IsOutFlag(args[j]) && args[j + 1] == o.output.value)
      && o.kind.IsScheme()
      && o.OutputPath() == Success(o.output.value)
  {
    BuildScanKeeps(args);
    BuildScanOutputFromArgs(args, 2, NewBuildOptions(args[1]));
  }

  /**
    The last of `--gzip`, `--zlib`, `--deflate`, `--plain` decides the kind and
    nothing else changes, wherever it stands relative to `-o`; the output check
    after the loop does not look at the kind.
   */
  lemma BuildKindLastWins(args: seq<string>, flag: string)
    requires |args| >= 2 && ScanBuild(args).Success? && IsKindFlag(flag)
    ensures ScanBuild(args + [flag]) == Success(ScanBuild(args).value.(kind := KindOfFlag(flag)))
    ensures ParseBuildArguments(args).Success?
            ==> ParseBuildArguments(args + [flag]) == Success(ParseBuildArguments(args).value.(kind := KindOfFlag(flag)))
    ensures ParseBuildArguments(args).Failure? ==> ParseBuildArguments(args + [flag]) == ParseBuildArguments(args)
  {
    ScanThenSwitch(BuildFlag, args, 2, NewBuildOptions(args[1]), flag);
    assert (args + [flag])[1] == args[1];
  }

  /** The last `-o`/`--out` decides the output file, and an empty last value fails the parse. */
  lemma BuildOutputLastWins(args: seq<string>, flag: string, v: string)
    requires |args| >= 2 && ScanBuild(args).Success? && IsOutFlag(flag)
    ensures v == "" ==> ParseBuildArguments(args + [flag, v]) == Failure(MissingOutput)
    ensures v != "" ==> ParseBuildArguments(args + [flag, v]) == Success(ScanBuild(args).value.(output := Some(v)))
  {
    ScanThenValue(BuildFlag, args, 2, NewBuildOptions(args[1]), flag, v);
    assert (args + [flag, v])[1] == args[1];
    BuildScanKeeps(args);
  }

  /** A token outside the build flags fails the parse before the output check, whatever follows it. */
  lemma BuildUnknownStops(args: seq<string>, t: string, rest: seq<string>)
    requires |args| >= 2 && ScanBuild(args).Success? && !IsOutFlag(t) && t != "--in" && !IsKindFlag(t)
    ensures ParseBuildArguments(args + [t] + rest) == Failure(UnknownParameter(t))
  {
    ScanUnknownStops(BuildFlag, args, rest, 2, NewBuildOptions(args[1]), t);
    assert (args + [t] + rest)[1] == args[1];
  }

  /** With no kind flag the scheme is GZip. */
  lemma BuildDefaultsToGZip(command: string, input: string, out: string)
    requires out != ""
    ensures ParseBuildArguments([command, input, "-o", out])
            == Success(BuildOptions(InputOptions(input, None), Some(out), None, GZip))
  {
    BuildOutputLastWins([command, input], "-o", out);
    assert [command, input] + ["-o", out] == [command, input, "-o", out];
  }

  // ---------------------------------------------------------------- info

  /** The `--peek` value: a 32-bit integer that is not negative. */
  function PeekValue(o: InfoOptions, v: string): (r: Result<InfoOptions, ArgError>)
    ensures r.Success? <==> TryParseInt32(v).Some? && TryParseInt32(v).value >= 0
    ensures r.Success? ==> r.value == o.(peekLength := TryParseInt32(v))
    ensures r.Failure? ==> r.error == InvalidPeek
  {
    match TryParseInt32(v)
    case Some(n) => if n < 0 then Failure(InvalidPeek) else Success(o.(peekLength := Some(n)))
    case None => Failure(InvalidPeek)
  }

  function InfoFlag(t: string): FlagAction<InfoOptions> {
    if t == "--peek" then TakesValue(PeekValue)
    else if t == "--in" then TakesValue((o: InfoOptions, v: string) => Success(o.(common := o.common.(inPath := Some(v)))))
    else NotAFlag
  }

  /** ParseInfoArguments. */
  function ParseInfoArguments(args: seq<string>): (r: Result<InfoOptions, ArgError>)
    ensures |args| < 2 ==> r == Failure(MissingInput("info"))
    ensures |args| == 2 ==> r == Success(NewInfoOptions(args[1]))
  {
    if |args| < 2 then Failure(MissingInput("info"))
    else Scan(InfoFlag, args, 2, NewInfoOptions(args[1]))
  }

  /** A successful info parse keeps `args[1]` as the input, and any peek length is non-negative. */
  lemma InfoPeekNonNegative(args: seq<string>)
    requires ParseInfoArguments(args).Success?
    ensures |args| >= 2 && ParseInfoArguments(args).value.common.input == args[1]
    ensures ParseInfoArguments(args).value.peekLength.Some? ==> ParseInfoArguments(args).value.peekLength.value >= 0
  {
    var inv := (o: InfoOptions) => o.common.input == args[1] && (o.peekLength.Some? ==> o.peekLength.value >= 0);
    ScanKeeps(InfoFlag, inv, args, 2, NewInfoOptions(args[1]));
  }

  /** `--peek n` at the end sets PeekLength to `n` for every `n` a 32-bit int holds. */
  lemma InfoPeekLastWins(args: seq<string>, n: nat)
    requires ParseInfoArguments(args).Success? && n <= Int32Max
    ensures ParseInfoArguments(args + ["--peek", NatToString(n)])
            == Success(ParseInfoArguments(args).value.(peekLength := Some(n)))
  {
    ScanThenValue(InfoFlag, args, 2, NewInfoOptions(args[1]), "--peek", NatToString(n));
    assert (args + ["--peek", NatToString(n)])[1] == args[1];
    TryParseNatToString(n);
  }

  /** A final `--peek v` is accepted iff `v` parses as a non-negative 32-bit integer; otherwise it is InvalidPeek. */
  lemma InfoPeekAcceptsOnlyNonNegative(args: seq<string>, v: string)
    requires ParseInfoArguments(args).Success?
    ensures ParseInfoArguments(args + ["--peek", v]).Success?
            <==> TryParseInt32(v).Some? && TryParseInt32(v).value >= 0
    ensures ParseInfoArguments(args + ["--peek", v]).Failure?
            ==> ParseInfoArguments(args + ["--peek", v]).error == InvalidPeek
  {
    ScanThenValue(InfoFlag, args, 2, NewInfoOptions(args[1]), "--peek", v);
    assert (args + ["--peek", v])[1] == args[1];
  }

  /** A final `--peek -n` with n > 0 is rejected. */
  lemma InfoPeekRejectsNegative(args: seq<string>, v: string, n: nat)
    requires ParseInfoArguments(args).Success? && 0 < n <= -Int32Min
    requires |v| > 1 && v[0] == '-' && v[1..] == NatToString(n)
    ensures ParseInfoArguments(args + ["--peek", v]) == Failure(InvalidPeek)
  {
    InfoPeekAcceptsOnlyNonNegative(args, v);
    TryParseNegative(v, n);
  }

  /** A `--peek` value that is not a non-negative 32-bit integer fails the parse, whatever follows it. */
  lemma InfoBadPeekStops(args: seq<string>, v: string, rest: seq<string>)
    requires ParseInfoArguments(args).Success?
    requires TryParseInt32(v).None? || TryParseInt32(v).value < 0
    ensures ParseInfoArguments(args + ["--peek", v] + rest) == Failure(InvalidPeek)
  {
    ScanRejectedValueStops(InfoFlag, args, rest, 2, NewInfoOptions(args[1]), "--peek", v);
    assert (args + ["--peek", v] + rest)[1] == args[1];
  }

  /** `--in v` at the end sets InPath to `v` (and so the input path), changing nothing else. */
  lemma InfoInPathLastWins(args: seq<string>, v: string)
    requires ParseInfoArguments(args).Success?
    ensures ParseInfoArguments(args + ["--in", v])
            == Success(ParseInfoArguments(args).value.(common := ParseInfoArguments(args).value.common.(inPath := Some(v))))
    ensures ParseInfoArguments(args + ["--in", v]).value.common.InputPath() == v
  {
    ScanThenValue(InfoFlag, args, 2, NewInfoOptions(args[1]), "--in", v);
    assert (args + ["--in", v])[1] == args[1];
  }

  /** A trailing value flag lacks its value; a trailing token outside the flag set is unknown. */
  lemma InfoTrailingTokenErrors(args: seq<string>, t: string)
    requires ParseInfoArguments(args).Success?
    ensures t == "--peek" || t == "--in" ==> ParseInfoArguments(args + [t]) == Failure(MissingValue(t))
    ensures t != "--peek" && t != "--in" ==> ParseInfoArguments(args + [t]) == Failure(UnknownParameter(t))
  {
    ScanThenDangling(InfoFlag, args, 2, NewInfoOptions(args[1]), t);
    assert (args + [t])[1] == args[1];
  }

  /** A token outside the info flags fails the parse, whatever follows it. */
  lemma InfoUnknownStops(args: seq<string>, t: string, rest: seq<string>)
    requires ParseInfoArguments(args).Success? && t != "--peek" && t != "--in"
    ensures ParseInfoArguments(args + [t] + rest) == Failure(UnknownParameter(t))
  {
    ScanUnknownStops(InfoFlag, args, rest, 2, NewInfoOptions(args[1]), t);
    assert (args + [t] + rest)[1] == args[1];
  }

  // ------------------------------------------------------- all commands

  /** Flag scanning starts at index 2: no parser reads the command word at index 0. */
  lemma ParsersIgnoreCommandWord(args: seq<string>, word: string)
    requires |args| >= 1
    ensures ParseDumpArguments(args[0 := word]) == ParseDumpArguments(args)
    ensures ParseBuildArguments(args[0 := word]) == ParseBuildArguments(args)
    ensures ParseInfoArguments(args[0 := word]) == ParseInfoArguments(args)
  {
    var renamed := args[0 := word];
    if |args| >= 2 {
      assert renamed[1] == args[1];
      assert renamed[2..] == args[2..];
      ScanReadsOnlyFrom(DumpFlag, renamed, args, 2, NewDumpOptions(args[1]));
      ScanReadsOnlyFrom(BuildFlag, renamed, args, 2, NewBuildOptions(args[1]));
      ScanReadsOnlyFrom(InfoFlag, renamed, args, 2, NewInfoOptions(args[1]));
    }
  }
}
