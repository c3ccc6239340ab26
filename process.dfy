/**
 * The process boundary of the launcher.  Every external program run
 * (`bluetoothctl ...` or `fzf`) is a `Call`; what it gives back is a
 * `Reply`.  A run of the launcher is fed a script of replies, the k-th reply
 * answering the k-th call; running out of replies is `Starved` (the real
 * program would be waiting on that call).
 */
module Process {
  import opened Wrappers
  import opened PyStr

  /** What one external program run gives back. */
  datatype Reply = Reply(code: int, stdout: string, stderr: string)

  /** One external program run: the argument vector and the text fed to its standard input. */
  datatype Call = Call(argv: seq<string>, input: Option<string>)

  /** The Python exceptions the launcher's code can raise. */
  datatype PyError =
    | CalledProcessError(returncode: int, output: Option<string>, stderr: Option<string>)
    | ValueError             // a listing line did not unpack into three fields
    | KeyError(key: string)  // an action that is not in the command table

  /** How a piece of the launcher ended: a value, an exception, or no reply left to read. */
  datatype Completion<T> = Normal(value: T) | Raised(error: PyError) | Starved

  /**
   * A piece of the launcher that runs external programs: how it ended and
   * the calls it made, in order.  Call k was answered by reply k of the
   * script the piece was given.
   */
  datatype Stage<T> = Stage(result: Completion<T>, calls: seq<Call>)

  /** Which output streams a `subprocess.run` call captures (the rest go to the terminal). */
  datatype Capture = CaptureBoth | CaptureStdout | CaptureNone

  /** `CalledProcessError` as raised by `subprocess.run(..., check=True)` on a non-zero exit. */
  function Failure(r: Reply, cap: Capture): (e: PyError)
    ensures e.CalledProcessError? && e.returncode == r.code
    ensures e.output == (if cap == CaptureNone then None else Some(r.stdout))
    ensures e.stderr == (if cap == CaptureBoth then Some(r.stderr) else None)
  {
    match cap
    case CaptureBoth => CalledProcessError(r.code, Some(r.stdout), Some(r.stderr))
    case CaptureStdout => CalledProcessError(r.code, Some(r.stdout), None)
    case CaptureNone => CalledProcessError(r.code, None, None)
  }

  /**
   * `subprocess.run(call, check=True, ...)` answered by the first reply of
   * `rs`: the completed process on exit status 0, `CalledProcessError`
   * otherwise.
   */
  function Run(call: Call, rs: seq<Reply>, cap: Capture): (s: Stage<Reply>)
    ensures s.result.Starved? <==> rs == []
    ensures s.calls == if rs == [] then [] else [call]
    ensures rs != [] ==> (s.result == Normal(rs[0]) <==> rs[0].code == 0)
    ensures rs != [] && rs[0].code != 0 ==> s.result == Raised(Failure(rs[0], cap))
  {
    if rs == [] then Stage(Starved, [])
    else if rs[0].code != 0 then Stage(Raised(Failure(rs[0], cap)), [call])
    else Stage(Normal(rs[0]), [call])
  }

  /** Exit status with which `fzf` reports that the user closed the menu. */
  const FzfCancelled := 130

  /** The call `spawn_fzf(input)` makes. */
  function FzfCall(input: string): Call {
    Call(["fzf"], Some(input))
  }

  /**
   * The classification at the heart of `spawn_fzf`: a cancelled menu is
   * `None`, a pick is the stripped output, any other exit is an error that
   * carries the exit status and the captured output.
   */
  function ClassifyPick(r: Reply): (c: Completion<Option<string>>)
    ensures c == Normal(None) <==> r.code == FzfCancelled
    ensures c.Normal? && c.value.Some? <==> r.code == 0
    ensures c.Normal? && c.value.Some? ==> c.value.value == Strip(r.stdout) && Trimmed(c.value.value)
    ensures !c.Normal? ==> c == Raised(CalledProcessError(r.code, Some(r.stdout), None))
  {
    if r.code == 0 then Normal(Some(Strip(r.stdout)))
    else if r.code == FzfCancelled then Normal(None)
    else Raised(Failure(r, CaptureStdout))
  }

  /** `spawn_fzf(input)`: one `fzf` run, classified. */
  function SpawnFzf(input: string, rs: seq<Reply>): (s: Stage<Option<string>>)
    ensures s.result.Starved? <==> rs == []
    ensures s.calls == if rs == [] then [] else [FzfCall(input)]
    ensures rs != [] ==> s.result == ClassifyPick(rs[0])
  {
    if rs == [] then Stage(Starved, []) else Stage(ClassifyPick(rs[0]), [FzfCall(input)])
  }

  /**
   * A menu line comes back as it was shown: when `fzf` prints a line that
   * has no whitespace at either end, followed by any whitespace (the
   * newline it writes), and exits with 0, `spawn_fzf` returns that line.
   */
  lemma PickReturnsLine(line: string, trailer: string, stderr: string)
    requires line != [] && Trimmed(line) && AllSpace(trailer)
    ensures ClassifyPick(Reply(0, line + trailer, stderr)) == Normal(Some(line))
  {
    StripUnique([], line, trailer);
    assert [] + line + trailer == line + trailer;
  }
}
