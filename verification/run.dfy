/**
 * `run` in main.go: start the command with its standard output teed to the
 * terminal and the temporary file, wait for it, and map the way it ended to
 * an exit code and an error. Process spawning is not modelled; the child is
 * an abstract value saying how far it got and what it wrote.
 */
module Run {
  import opened Text
  import opened Wrappers

  /** syscall.WaitStatus of a child that has ended, as on Unix. */
  datatype WaitStatus =
    | Exited(status: byte)  // exited normally with this status
    | NotExited            // killed by a signal (or otherwise not exited)
  {
    /** ExitStatus(): the exit status, or -1 when the child did not exit. */
    function ExitStatus(): (code: int)
      ensures -1 <= code <= 255
      ensures code == -1 <==> NotExited?
    {
      match this
      case Exited(s) => s as int
      case NotExited => -1
    }
  }

  /** The error cmd.Wait returns. */
  datatype WaitResult =
    | Clean                               // nil: the child exited with status 0
    | ExitError(sys: Option<WaitStatus>)  // *exec.ExitError; None when its Sys() is not a syscall.WaitStatus
    | OtherError                          // any other error, such as a failed copy of the output

  /** The child process as the wrapper observes it. */
  datatype Child =
    | NotFound                                   // exec.LookPath fails
    | StartFailed                                // cmd.Start fails
    | Finished(wait: WaitResult, stdout: Bytes)  // it ran, wrote stdout, and Wait returned wait

  /**
   * os/exec returns an *exec.ExitError exactly when the child did not exit
   * with status 0, so an ExitError never carries status 0.
   */
  predicate Plausible(child: Child) {
    !EndedWith(child, Exited(0))
  }

  /** The child ran and Wait reported an *exec.ExitError carrying this wait status. */
  predicate EndedWith(child: Child, ws: WaitStatus) {
    child.Finished? && child.wait == ExitError(Some(ws))
  }

  /** run's two results: the exit code, and whether the error is non-nil. */
  datatype RunResult = RunResult(code: int, failed: bool)

  /** The run succeeded: there was a command, it started, and Wait returned nil. */
  predicate Succeeded(args: seq<Bytes>, child: Child) {
    |args| >= 1 && child.Finished? && child.wait.Clean?
  }

  /** run(args, out): the exit-code mapping. */
  function Run(args: seq<Bytes>, child: Child): (r: RunResult)
    ensures r.failed <==> !Succeeded(args, child)
    ensures !r.failed ==> r.code == 0
    ensures -1 <= r.code <= 255
    ensures r.code == -1 <==> |args| >= 1 && EndedWith(child, NotExited)
    ensures forall s: byte :: |args| >= 1 && EndedWith(child, Exited(s)) ==> r.code == s as int
    ensures r.failed && !(|args| >= 1 && child.Finished? && child.wait.ExitError? && child.wait.sys.Some?) ==> r.code == 1
  {
    if |args| < 1 then RunResult(1, true)  // no command supplied
    else match child
      case NotFound => RunResult(1, true)
      case StartFailed => RunResult(1, true)
      case Finished(wait, _) =>
        match wait
        case Clean => RunResult(0, false)
        case ExitError(Some(ws)) => RunResult(ws.ExitStatus(), true)
        case ExitError(None) => RunResult(1, true)
        case OtherError => RunResult(1, true)
  }

  /** The bytes the child wrote to its standard output, which the tee copies to both destinations. */
  function Captured(args: seq<Bytes>, child: Child): Bytes {
    if |args| >= 1 && child.Finished? then child.stdout else []
  }

  /** A plausible child's run yields code 0 exactly when it succeeded, so main's failure test is run's error test. */
  lemma ZeroOnlyOnSuccess(args: seq<Bytes>, child: Child)
    requires Plausible(child)
    ensures (Run(args, child).failed || Run(args, child).code != 0) <==> !Succeeded(args, child)
  {
  }

  /**
   * The status a Unix parent sees when the wrapper calls os.Exit(code): the
   * low eight bits of the code.
   */
  function ObservedStatus(code: int): (s: int)
    ensures 0 <= s < 256
    ensures 0 <= code < 256 ==> s == code
    ensures (s - code) % 256 == 0
  {
    code % 256
  }

  /**
   * The wrapper's own status mirrors the child's: an exit status is passed
   * through unchanged, and a signal-killed child (ExitStatus -1) shows as 255.
   */
  lemma StatusPropagation(args: seq<Bytes>, child: Child)
    requires |args| >= 1 && child.Finished? && child.wait.ExitError? && child.wait.sys.Some?
    ensures child.wait.sys.value.Exited? ==> ObservedStatus(Run(args, child).code) == child.wait.sys.value.status as int
    ensures child.wait.sys.value.NotExited? ==> ObservedStatus(Run(args, child).code) == 255
  {
  }
}
