/** The shell execution engine of Shell.kt: how a command is described in
    the log, how each stream reader collects its lines, and how the exit code
    and the collected text decide between returning the output and failing.
    Spawning the process, the two reader threads and the logging itself are
    not modelled: the finished process is given as its exit code and the
    lines of its two streams, and the two readers run one after the other
    (each touches only its own buffer, so the order between them does not
    change what is collected). */
module Shell {
  import opened Results
  import opened Strings

  /** A line as a stream reader hands it over: without line terminator. */
  type Line = s: string | '\n' !in s && '\r' !in s

  /** turtle's `ShellRunException(exitCode, errorText)`. */
  datatype ShellRunException = ShellRunException(exitCode: int, errorText: string)

  /** The process after it ran: exit code and the lines of standard output
      and standard error in the order they were written. */
  datatype FinishedProcess = FinishedProcess(exitCode: int, stdOut: seq<Line>, stdErr: seq<Line>)

  function Quote(argument: string): string {
    "\"" + argument + "\""
  }

  /** The command description used in the log: the command, one space, then
      every argument in double quotes, separated by single spaces. The
      contract fixes the start and the no-argument case; the rest of the
      text is pinned down, one argument at a time, by `DescriptionOfOneMore`
      (by induction on the arguments, the two determine the whole text). */
  function CommandDescription(command: string, arguments: seq<string>): (r: string)
    ensures |r| > |command| && r[..|command| + 1] == command + " "
    ensures arguments == [] ==> r == command + " "
  {
    command + " " + Join(seq(|arguments|, i requires 0 <= i < |arguments| => Quote(arguments[i])), " ")
  }

  /** One more argument adds a separating space (unless it is the first)
      and the argument in quotes at the end of the description. */
  lemma DescriptionOfOneMore(command: string, arguments: seq<string>, argument: string)
    ensures CommandDescription(command, arguments + [argument])
         == CommandDescription(command, arguments) + (if arguments == [] then "" else " ") + Quote(argument)
  {
    var quoted := seq(|arguments|, i requires 0 <= i < |arguments| => Quote(arguments[i]));
    var more := arguments + [argument];
    assert seq(|more|, i requires 0 <= i < |more| => Quote(more[i])) == quoted + [Quote(argument)];
    JoinSnoc(quoted, Quote(argument), " ");
  }

  /** `retrieveOutputOrThrow`: exit code 0 returns the trimmed standard
      output whatever standard error holds; a non-zero exit fails with the
      exit code and the trimmed standard error only when standard error is
      not blank, and otherwise also returns the trimmed standard output. */
  function RetrieveOutputOrThrow(exitCode: int, collectedStdOut: string, collectedStdErr: string)
    : (r: Result<string, ShellRunException>)
    ensures r.Failure? <==> exitCode != 0 && !IsBlank(collectedStdErr)
    ensures r.Failure? ==> r.error == ShellRunException(exitCode, Trim(collectedStdErr))
    ensures r.Failure? ==> r.error.errorText != [] && NoSurroundingWhitespace(r.error.errorText)
    ensures r.Success? ==> r.value == Trim(collectedStdOut) && NoSurroundingWhitespace(r.value)
  {
    TrimEmptyIffBlank(collectedStdErr);
    var outputText := Trim(collectedStdOut);
    if exitCode != 0 then
      var errorText := Trim(collectedStdErr);
      if errorText != [] then Failure(ShellRunException(exitCode, errorText)) else Success(outputText)
    else Success(outputText)
  }

  /** `LogAndCollectOutputs`: the process callback that collects the lines of
      each stream into its own buffer. */
  class LogAndCollectOutputs {
    const commandDescription: string
    var stdOut: seq<Line>
    var stdErr: seq<Line>

    constructor (commandDescription: string)
      ensures this.commandDescription == commandDescription
      ensures stdOut == [] && stdErr == []
    {
      this.commandDescription := commandDescription;
      stdOut := [];
      stdErr := [];
    }

    /** The standard-output reader: appends every line, in order, to
        `stdOut` and touches nothing else. */
    method ReadStdOut(stream: seq<Line>)
      modifies this`stdOut
      ensures stdOut == old(stdOut) + stream
    {
      for i := 0 to |stream|
        invariant stdOut == old(stdOut) + stream[..i]
      {
        stdOut := stdOut + [stream[i]];
      }
    }

    /** The standard-error reader: appends every line, in order, to
        `stdErr` and touches nothing else. */
    method ReadStdErr(stream: seq<Line>)
      modifies this`stdErr
      ensures stdErr == old(stdErr) + stream
    {
      for i := 0 to |stream|
        invariant stdErr == old(stdErr) + stream[..i]
      {
        stdErr := stdErr + [stream[i]];
      }
    }

    /** `onProcessStart`: drains both streams; returns once both readers are
        done. */
    method OnProcessStart(process: FinishedProcess)
      modifies this
      ensures stdOut == old(stdOut) + process.stdOut
      ensures stdErr == old(stdErr) + process.stdErr
    {
      ReadStdOut(process.stdOut);
      ReadStdErr(process.stdErr);
    }

    /** `collectedStdOut()`: the lines joined with line feeds; splitting it on
        line feeds gives the lines back whenever there is one. */
    function CollectedStdOut(): (r: string)
      reads this
      ensures stdOut == [] ==> r == []
      ensures stdOut != [] ==> Split(r, '\n') == stdOut
    {
      if stdOut == [] then [] else SplitJoin(stdOut, '\n'); Join(stdOut, "\n")
    }

    /** `collectedStdErr()`: as `collectedStdOut()`, for standard error. */
    function CollectedStdErr(): (r: string)
      reads this
      ensures stdErr == [] ==> r == []
      ensures stdErr != [] ==> Split(r, '\n') == stdErr
    {
      if stdErr == [] then [] else SplitJoin(stdErr, '\n'); Join(stdErr, "\n")
    }
  }

  /** `TurtleScript.command` once the process has run: collect both streams,
      then classify. The outcome fails exactly when the exit code is not 0
      and some line of standard error holds a non-whitespace character. */
  method Command(command: string, arguments: seq<string>, process: FinishedProcess)
    returns (r: Result<string, ShellRunException>)
    ensures r.Failure? <==>
      process.exitCode != 0 && exists k :: 0 <= k < |process.stdErr| && !IsBlank(process.stdErr[k])
    ensures r.Failure? ==> r.error == ShellRunException(process.exitCode, Trim(Join(process.stdErr, "\n")))
    ensures r.Success? ==> r.value == Trim(Join(process.stdOut, "\n"))
  {
    var callback := new LogAndCollectOutputs(CommandDescription(command, arguments));
    callback.OnProcessStart(process);
    assert callback.stdOut == process.stdOut && callback.stdErr == process.stdErr;
    var out := callback.CollectedStdOut();
    var err := callback.CollectedStdErr();
    JoinBlankIffAllBlank(process.stdErr, "\n");
    r := RetrieveOutputOrThrow(process.exitCode, out, err);
  }
}
