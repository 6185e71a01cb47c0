/**
 A child process as its parent sees it: output read in pieces, an abort that escalates,
 and a last wait. Every operation is a function of the handle and of what the system
 answers while it runs.
 */
module ProcessModel {
  import opened Bytes

  const OUTPUT_MAX := 262144
  const READ_CHUNK := 4096
  const DRAIN_MAX := 65536
  const DELAY_MS := 20
  const ABORT_STATUS := 130
  const ESCALATE_MS := 500
  const WAIT_LIMIT_MS := 1500

  // ---------------------------------------------------------------- what the system answers

  type Piece = t: Text | 1 <= |t| <= READ_CHUNK witness [0]

  /** One read: some bytes, end of file, nothing yet (or interrupted), or an error. */
  datatype Read = Data(piece: Piece) | End | Again | Failed

  /** What a wait without blocking says of the child. */
  datatype Reap = Running | Reaped(status: WaitStatus) | NoChild

  datatype WaitStatus = Exited(code: int) | Signalled(signal: int) | Unknown

  /** The answers to one turn of the poll loop; the abort flag is looked at after a wait. */
  datatype Moment = Moment(read: Read, reap: Reap, abort: bool)

  type Schedule = nat -> Moment

  datatype Signal = Term | Kill

  datatype Handle = Handle(output: Text, truncated: bool, eofSeen: bool, aborted: bool, reaped: bool, stdin: bool,
                           waitStatus: WaitStatus, signals: seq<Signal>)

  function Begin(stdin: bool): Handle {
    Handle([], false, false, false, false, stdin, Exited(0), [])
  }

  // ---------------------------------------------------------------- poll

  function AbortCheck(h: Handle, triggered: bool): Handle {
    if triggered && !h.aborted then h.(aborted := true, signals := h.signals + [Term]) else h
  }

  function Stash(h: Handle, piece: Text): Handle {
    if |h.output| >= OUTPUT_MAX then h.(truncated := true)
    else if |h.output| + |piece| > OUTPUT_MAX then
      h.(truncated := true, output := h.output + piece[..OUTPUT_MAX - |h.output|])
    else h.(output := h.output + piece)
  }

  /** Reads go on while they bring bytes and the cap is not reached. The last component
      counts the reads. */
  function Drain(h: Handle, env: Schedule, k: nat, drained: Text): (r: (Handle, Text, nat))
    requires env(k).read.Data? && |drained| < DRAIN_MAX
    ensures |r.1| < DRAIN_MAX + READ_CHUNK && r.2 > k
    decreases DRAIN_MAX - |drained|
  {
    var stashed, more := Stash(h, env(k).read.piece), drained + env(k).read.piece;
    if |more| >= DRAIN_MAX then (stashed, more, k + 1)
    else if !env(k + 1).read.Data? then (stashed, more, k + 2)
    else Drain(stashed, env, k + 1, more)
  }

  function TryReap(h: Handle, reap: Reap): Handle {
    if h.reaped then h
    else
      match reap
      case Running => h
      case Reaped(status) => h.(reaped := true, waitStatus := status)
      case NoChild => h.(reaped := true)
  }

  datatype Answer = Chunk(bytes: Text) | Nothing | Finished

  datatype Polled = Polled(handle: Handle, answer: Answer, used: nat, waited: nat)

  function Least(a: int, b: int): int {
    if a < b then a else b
  }

  function PollFrom(h: Handle, env: Schedule, k: nat, timeout: int, waited: nat): (r: Polled)
    ensures r.used > k
    decreases timeout - waited
  {
    match env(k).read
    case Data(_) =>
      var (drained, bytes, next) := Drain(h, env, k, []);
      Polled(drained, Chunk(bytes), next, waited)
    case End => Polled(h.(eofSeen := true), Finished, k + 1, waited)
    case Failed => Polled(h.(eofSeen := true), Finished, k + 1, waited)
    case Again =>
      var tried := TryReap(h, env(k).reap);
      var step := Least(DELAY_MS, timeout - waited);
      if tried.reaped || tried.aborted then Polled(tried.(eofSeen := true), Finished, k + 1, waited)
      else if timeout <= 0 || step <= 0 then Polled(tried, Nothing, k + 1, waited)
      else PollFrom(AbortCheck(tried, env(k).abort), env, k + 1, timeout, waited + step)
  }

  function Poll(h: Handle, env: Schedule, abort: bool, timeout: int): Polled {
    PollFrom(AbortCheck(h, abort), env, 0, timeout, 0)
  }

  // ---------------------------------------------------------------- write

  /** One try to write: the abort flag first, then what the system accepts. */
  datatype Try = Try(abort: bool, outcome: Outcome)
  datatype Outcome = Accepted(n: nat) | Interrupted | WouldBlock | Broken

  /** How a write ended; with no more tries to look at it is still going on. */
  datatype Written = Done | Error | Blocked

  function Write(h: Handle, tries: seq<Try>, len: nat, written: nat): (Handle, Written)
    decreases |tries|
  {
    if written >= len then (h, Done)
    else if tries == [] then (h, Blocked)
    else if tries[0].abort && !h.aborted then (AbortCheck(h, true), Error)
    else
      match tries[0].outcome
      case Accepted(n) => if n == 0 then (h, Error) else Write(h, tries[1..], len, written + n)
      case Interrupted => Write(h, tries[1..], len, written)
      case WouldBlock => Write(h, tries[1..], len, written)
      case Broken => (h, Error)
  }

  /** One write that never waits; second comes whether it succeeded and the bytes taken. */
  function TryWrite(h: Handle, try_: Try, len: nat): (Handle, bool, nat) {
    if !h.stdin then (h, false, 0)
    else if len == 0 then (h, true, 0)
    else if try_.abort && !h.aborted then (AbortCheck(h, true), false, 0)
    else
      match try_.outcome
      case Accepted(n) => (h, n > 0, n)
      case Interrupted => (h, true, 0)
      case WouldBlock => (h, true, 0)
      case Broken => (h, false, 0)
  }

  // ---------------------------------------------------------------- finish

  /** One turn of the last wait. */
  datatype Tick = Tick(reap: Reap, abort: bool)

  /** The signals of one turn in which the child still runs: SIGTERM when the abort is first
      seen, SIGKILL once, when the abort has taken too long. */
  function TurnSignals(h: Handle, abort: bool, i: nat, killed: bool): seq<Signal> {
    (if abort && !h.aborted then [Term] else []) + (if Kills(h, abort, i, killed) then [Kill] else [])
  }

  predicate Kills(h: Handle, abort: bool, i: nat, killed: bool) {
    (h.aborted || abort) && !killed && i * DELAY_MS >= ESCALATE_MS
  }

  /** The handle and, once the wait is over, how many turns it took. */
  datatype Left = Left(handle: Handle, turns: Option<nat>)

  function Wait(h: Handle, ticks: seq<Tick>, i: nat, killed: bool, last: Reap): Left
    requires i <= |ticks|
    decreases |ticks| - i
  {
    if i == |ticks| then Left(h, None)
    else if !ticks[i].reap.Running? then Left(TryReap(h.(reaped := false), ticks[i].reap), Some(i + 1))
    else
      var abort := ticks[i].abort;
      var sent := h.(aborted := h.aborted || abort, signals := h.signals + TurnSignals(h, abort, i, killed));
      if sent.aborted && i * DELAY_MS >= WAIT_LIMIT_MS then
        Left(TryReap(sent.(reaped := false), last).(reaped := true), Some(i + 1))
      else Wait(sent, ticks, i + 1, killed || Kills(h, abort, i, killed), last)
  }

  function Finish(h: Handle, ticks: seq<Tick>, last: Reap): Left {
    if h.reaped then Left(h.(stdin := false), Some(0)) else Wait(h.(stdin := false), ticks, 0, false, last)
  }

  function ExitStatus(h: Handle): int {
    if h.aborted then ABORT_STATUS
    else
      match h.waitStatus
      case Exited(code) => code
      case Signalled(signal) => 128 + signal
      case Unknown => -1
  }

  // ---------------------------------------------------------------- runs

  datatype Op =
    | PollOp(env: Schedule, abort: bool, timeout: int)
    | WriteOp(tries: seq<Try>, len: nat)
    | TryWriteOp(try_: Try, len: nat)
    | CloseStdin

  function Apply(h: Handle, op: Op): Handle {
    match op
    case PollOp(env, abort, timeout) => Poll(h, env, abort, timeout).handle
    case WriteOp(tries, len) => if h.stdin then Write(h, tries, len, 0).0 else h
    case TryWriteOp(try_, len) => TryWrite(h, try_, len).0
    case CloseStdin => h.(stdin := false)
  }

  function Run(h: Handle, ops: seq<Op>): Handle
    decreases |ops|
  {
    if ops == [] then h else Run(Apply(h, ops[0]), ops[1..])
  }
}
