/** The exit-code convention of the three subprocess wrappers
    (`kill_screen_session`, `run_cancel_command`, `run_list_command`): whatever
    happens to the external process is turned into a triple
    (return code, stdout, stderr) and no exception reaches the caller. */
module Commands {
  import opened PyText

  /** Which external command a wrapper runs. */
  datatype Command = ScreenQuit | CancelAll | ListOrders

  /** What running the process came to, as the wrapper observes it. */
  datatype Outcome =
    | Exited(returncode: int, stdout: string, stderr: string)
    | TimedOut                  // subprocess.TimeoutExpired
    | NotFound                  // FileNotFoundError: the binary is missing
    | Raised(message: string)   // any other exception, with str(e)

  datatype CommandResult = CommandResult(rc: int, out: string, err: string)

  const TimeoutCode := 124
  const NotFoundCode := 127
  const FailureCode := 1

  function NotFoundMessage(c: Command): string {
    match c
    case ScreenQuit => "screen command not found"
    case CancelAll => "cancel command not found"
    case ListOrders => "list command not found"
  }

  function TimeoutMessage(c: Command): string {
    match c
    case ScreenQuit => "screen quit command timed out"
    case CancelAll => "cancel command timed out"
    case ListOrders => "list command timed out"
  }

  /** The return code a wrapper reports for an outcome. Zero means exactly that
      the process ran and exited with 0. */
  function ReturnCode(o: Outcome): (rc: int)
    ensures rc == 0 <==> o.Exited? && o.returncode == 0
  {
    match o
    case Exited(code, _, _) => code
    case TimedOut => TimeoutCode
    case NotFound => NotFoundCode
    case Raised(_) => FailureCode
  }

  /** The wrapper's result for one outcome. Success (rc 0) means exactly that the
      process ran and exited with 0; the sentinel codes carry no output; the
      output of a process that ran is returned stripped. */
  function Run(c: Command, o: Outcome): (r: CommandResult)
    ensures r.rc == ReturnCode(o)
    ensures o.TimedOut? ==> r.rc == TimeoutCode && r.err == TimeoutMessage(c)
    ensures o.NotFound? ==> r.rc == NotFoundCode && r.err == NotFoundMessage(c)
    ensures o.Raised? ==> r.rc == FailureCode && r.err == o.message
    ensures !o.Exited? ==> r.out == []
    ensures o.Exited? ==> r.rc == o.returncode
  {
    match o
    case Exited(code, out, err) => CommandResult(code, Strip(out), Strip(err))
    case TimedOut => CommandResult(TimeoutCode, "", TimeoutMessage(c))
    case NotFound => CommandResult(NotFoundCode, "", NotFoundMessage(c))
    case Raised(msg) => CommandResult(FailureCode, "", msg)
  }

  /** The output of a process that ran is returned stripped of surrounding whitespace. */
  lemma RunStripsOutput(c: Command, o: Outcome)
    requires o.Exited?
    ensures Run(c, o).out == Strip(o.stdout) && Run(c, o).err == Strip(o.stderr)
    ensures var out := Run(c, o).out; out == [] || (!IsSpace(out[0]) && !IsSpace(out[|out| - 1]))
  {
  }

  predicate Succeeded(o: Outcome) {
    ReturnCode(o) == 0
  }

  /** The sentinel codes are also ordinary exit codes: a process that itself
      exits with 124 or 127 cannot be told apart, by its code, from a timeout or
      a missing binary. */
  lemma SentinelCodesAmbiguous(out: string, err: string)
    ensures ReturnCode(Exited(TimeoutCode, out, err)) == ReturnCode(TimedOut)
    ensures ReturnCode(Exited(NotFoundCode, out, err)) == ReturnCode(NotFound)
  {
  }
}
