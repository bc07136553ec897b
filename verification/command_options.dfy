/**
  The option records the argument parser fills in, their defaults, and the
  null-coalescing rules that turn them into the paths the commands use.
  The C# base class `BaseCommandOptions` becomes the shared `InputOptions`
  record held by each command's options.
 */
module CommandOptions {
  import opened Results
  import opened CompressionKinds

  /** The positional input and the alternative `--in` path. */
  datatype InputOptions = InputOptions(input: string, inPath: Option<string>) {

    /** GetInputPath: `--in` wins over the positional argument. */
    function InputPath(): (path: string)
      ensures path == input || (inPath.Some? && path == inPath.value)
      ensures inPath.Some? ==> path == inPath.value
    {
      inPath.OrElse(input)
    }
  }

  datatype DumpOptions = DumpOptions(common: InputOptions, output: Option<string>, outPath: Option<string>, pretty: bool) {

    /** GetOutputPath: OutPath, then Output, then "-" (standard output); it never fails. */
    function OutputPath(): (path: string)
      ensures outPath.Some? ==> path == outPath.value
      ensures outPath.None? && output.Some? ==> path == output.value
      ensures path == "-" <==> (outPath.None? || outPath.value == "-") && (outPath.Some? || output.None? || output.value == "-")
    {
      outPath.OrElse(output.OrElse("-"))
    }
  }

  datatype OptionsError = NoOutputFile

  datatype BuildOptions = BuildOptions(common: InputOptions, output: Option<string>, outPath: Option<string>, kind: CompressionKind) {

    /** GetOutputPath: OutPath, then Output; with neither it throws. */
    function OutputPath(): (path: Result<string, OptionsError>)
      ensures path.Failure? <==> outPath.None? && output.None?
      ensures path.Success? ==> path.value == (if outPath.Some? then outPath else output).value
    {
      if outPath.Some? then Success(outPath.value)
      else if output.Some? then Success(output.value)
      else Failure(NoOutputFile)
    }
  }

  datatype InfoOptions = InfoOptions(common: InputOptions, peekLength: Option<int>)

  /** The record `new XOptions { Input = input }` creates: every other property at its default. */
  function NewInputOptions(input: string): InputOptions {
    InputOptions(input, None)
  }

  function NewDumpOptions(input: string): DumpOptions {
    DumpOptions(NewInputOptions(input), None, None, false)
  }

  function NewBuildOptions(input: string): BuildOptions {
    BuildOptions(NewInputOptions(input), None, None, GZip)
  }

  function NewInfoOptions(input: string): InfoOptions {
    InfoOptions(NewInputOptions(input), None)
  }

  /**
    What the defaults resolve to: the input path is the positional argument,
    dump writes to standard output, build has no output file and compresses
    with GZip, info has no peek length.
   */
  lemma DefaultsResolve(input: string)
    ensures NewDumpOptions(input).common.InputPath() == input
    ensures NewDumpOptions(input).OutputPath() == "-" && !NewDumpOptions(input).pretty
    ensures NewBuildOptions(input).OutputPath() == Failure(NoOutputFile)
    ensures NewBuildOptions(input).kind == GZip
    ensures NewInfoOptions(input).common.InputPath() == input && NewInfoOptions(input).peekLength.None?
  {
  }
}
