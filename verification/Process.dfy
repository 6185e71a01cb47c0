/**
 The process handle and the loops that poll it, write to it and wait for it at the end.
 */
module Process {
  import opened Bytes
  import opened Seqs
  import opened StrBufs
  import opened ProcessModel

  method CopyTo(a: array<Byte>, k: nat, piece: Text)
    requires k + |piece| <= a.Length
    modifies a
    ensures a[..k + |piece|] == old(a[..k]) + piece
  {
    ghost var before := a[..k];
    forall i | 0 <= i < |piece| {
      a[k + i] := piece[i];
    }
    Filled(a[..], before, piece);
  }

  class ProcessHandle {
    const output: StrBuf
    var truncated: bool
    var eofSeen: bool
    var aborted: bool
    var reaped: bool
    var stdin: bool
    var waitStatus: WaitStatus
    var signals: seq<Signal>

    ghost predicate Valid()
      reads this, output, output.data
    {
      output.Valid()
    }

    ghost function View(): Handle
      reads this, output, output.data
      requires Valid()
    {
      Handle(output.Contents(), truncated, eofSeen, aborted, reaped, stdin, waitStatus, signals)
    }

    constructor (stdin: bool)
      ensures Valid() && View() == Begin(stdin) && fresh(output) && output.data == null
    {
      output := new StrBuf();
      truncated, eofSeen, aborted, reaped := false, false, false, false;
      waitStatus, signals := Exited(0), [];
      this.stdin := stdin;
    }

    method Kill(signal: Signal)
      modifies `signals
      ensures signals == old(signals) + [signal]
    {
      signals := signals + [signal];
    }

    method CheckAbort(triggered: bool)
      requires Valid()
      modifies `aborted, `signals
      ensures Valid() && View() == AbortCheck(old(View()), triggered)
    {
      if triggered && !aborted {
        aborted := true;
        Kill(Term);
      }
    }

    method Reap(reap: Reap) returns (r: bool)
      requires Valid()
      modifies `reaped, `waitStatus
      ensures Valid() && View() == TryReap(old(View()), reap) && r == reaped
    {
      if !reaped {
        match reap {
          case Running =>
          case Reaped(status) =>
            waitStatus, reaped := status, true;
          case NoChild =>
            reaped := true;
        }
      }
      r := reaped;
    }

    /** Retains a piece of output, up to the limit. */
    method Retain(piece: Piece)
      requires Valid()
      modifies `truncated, output, output.data
      ensures Valid() && View() == Stash(old(View()), piece)
      ensures output.data == old(output.data) || fresh(output.data)
    {
      if output.length < OUTPUT_MAX {
        var toCopy := |piece|;
        if output.length + toCopy > OUTPUT_MAX {
          truncated := true;
          toCopy := OUTPUT_MAX - output.length;
        }
        assert piece[..|piece|] == piece;
        output.Append(piece[..toCopy]);
      } else {
        truncated := true;
      }
    }

    /** Reads on while the pipe has bytes, into one allocation that is never overrun. */
    method DrainPipe(env: Schedule, k: nat) returns (chunk: Text, used: nat)
      requires Valid() && env(k).read.Data?
      modifies `truncated, output, output.data
      ensures Valid() && (View(), chunk, used) == Drain(old(View()), env, k, [])
      ensures output.data == old(output.data) || fresh(output.data)
    {
      hide Stash, Drain;
      var acc := new Byte[DRAIN_MAX + READ_CHUNK + 1](i => 0);
      var drained, more := 0, true;
      ghost var result := Drain(View(), env, k, []);
      used := k;
      while more
        invariant Valid() && (output.data == old(output.data) || fresh(output.data)) && fresh(acc)
        invariant acc != output.data && acc.Length == DRAIN_MAX + READ_CHUNK + 1
        invariant 0 <= drained < DRAIN_MAX + READ_CHUNK
        invariant more ==> env(used).read.Data? && drained < DRAIN_MAX
                           && Drain(View(), env, used, acc[..drained]) == result
        invariant !more ==> (View(), acc[..drained], used) == result
        decreases if more then 1 else 0, DRAIN_MAX - drained
      {
        var piece := env(used).read.piece;
        ghost var before := acc[..drained];
        DrainNext(View(), env, used, before);
        CopyTo(acc, drained, piece);
        Retain(piece);
        drained := drained + |piece|;
        if drained >= DRAIN_MAX {
          more := false;
          used := used + 1;
        } else if env(used + 1).read.Data? {
          used := used + 1;
        } else {
          more := false;
          used := used + 2;
        }
      }
      acc[drained] := 0;
      chunk := acc[..drained];
    }

    /** The answer code of poll: 1 with a chunk, 0 when there is nothing yet, 2 at the end. */
    method PollPipe(env: Schedule, abort: bool, timeout: int) returns (code: int, chunk: Text, used: nat, waited: nat)
      requires Valid()
      modifies this, output, output.data
      ensures Valid()
      ensures var r := Poll(old(View()), env, abort, timeout);
              && View() == r.handle && used == r.used && waited == r.waited
              && code == (match r.answer case Chunk(_) => 1 case Nothing => 0 case Finished => 2)
              && chunk == (if r.answer.Chunk? then r.answer.bytes else [])
    {
      hide Drain, TryReap, AbortCheck;
      CheckAbort(abort);
      ghost var result := PollFrom(View(), env, 0, timeout, 0);
      used, waited := 0, 0;
      while true
        invariant Valid() && output.data == old(output.data)
        invariant PollFrom(View(), env, used, timeout, waited) == result
        decreases timeout - waited
      {
        match env(used).read {
          case Data(_) =>
            code := 1;
            chunk, used := DrainPipe(env, used);
            return;
          case End =>
            eofSeen := true;
            return 2, [], used + 1, waited;
          case Failed =>
            eofSeen := true;
            return 2, [], used + 1, waited;
          case Again =>
            var over, answer, step := TryLater(env(used), timeout, waited);
            if over {
              return answer, [], used + 1, waited;
            }
            waited := waited + step;
            used := used + 1;
        }
      }
    }

    /** Nothing to read yet: the end, if the child is gone or aborted; otherwise a wait as
        long as the timeout still allows, and a look at the abort flag. */
    method TryLater(now: Moment, timeout: int, waited: nat) returns (over: bool, answer: int, step: nat)
      requires Valid()
      modifies this
      ensures Valid()
      ensures var tried := TryReap(old(View()), now.reap);
              var left := Least(DELAY_MS, timeout - waited);
              if tried.reaped || tried.aborted then over && answer == 2 && View() == tried.(eofSeen := true)
              else if timeout <= 0 || left <= 0 then over && answer == 0 && View() == tried
              else !over && step == left && View() == AbortCheck(tried, now.abort)
    {
      hide TryReap, AbortCheck;
      over, answer, step := true, 2, 0;
      var gone := Reap(now.reap);
      if gone || aborted {
        eofSeen := true;
        return;
      }
      answer := 0;
      if timeout <= 0 {
        return;
      }
      step := DELAY_MS;
      if timeout - waited < DELAY_MS {
        if timeout - waited <= 0 {
          step := 0;
          return;
        }
        step := timeout - waited;
      }
      over := false;
      CheckAbort(now.abort);
    }

    /** Writes all bytes; with no more answers to look at it would still be trying. */
    method WriteAll(tries: seq<Try>, len: nat) returns (r: Written)
      requires Valid()
      modifies `aborted, `signals
      ensures Valid()
      ensures (View(), r) == if old(stdin) then Write(old(View()), tries, len, 0) else (old(View()), Error)
    {
      if !stdin {
        return Error;
      }
      var written, i := 0, 0;
      assert tries[0..] == tries;
      while written < len
        invariant Valid() && 0 <= i <= |tries| && View() == old(View()) && written >= 0
        invariant Write(View(), tries[i..], len, written) == Write(View(), tries, len, 0)
        decreases |tries| - i
      {
        if i == |tries| {
          return Blocked;
        }
        DropDrop(tries, i, 1);
        if tries[i].abort && !aborted {
          CheckAbort(true);
          return Error;
        }
        match tries[i].outcome {
          case Accepted(n) =>
            if n == 0 {
              return Error;
            }
            written := written + n;
          case Interrupted =>
          case WouldBlock =>
          case Broken =>
            return Error;
        }
        i := i + 1;
      }
      r := Done;
    }

    method TryToWrite(try_: Try, len: nat) returns (ok: bool, n: nat)
      requires Valid()
      modifies `aborted, `signals
      ensures Valid() && (View(), ok, n) == TryWrite(old(View()), try_, len)
      ensures ok <==> old(stdin) && (len == 0 || (!(try_.abort && !old(aborted))
                                                  && try_.outcome != Broken && try_.outcome != Accepted(0)))
      ensures n > 0 ==> ok && try_.outcome == Accepted(n)
      ensures ok && len > 0 && try_.outcome.Accepted? ==> n == try_.outcome.n
      ensures aborted <==> old(aborted) || (old(stdin) && len > 0 && try_.abort)
    {
      if !stdin {
        return false, 0;
      }
      if len == 0 {
        return true, 0;
      }
      if try_.abort && !aborted {
        CheckAbort(true);
        return false, 0;
      }
      match try_.outcome {
        case Accepted(taken) =>
          return taken > 0, taken;
        case Interrupted =>
          return true, 0;
        case WouldBlock =>
          return true, 0;
        case Broken =>
          return false, 0;
      }
    }

    /** Looks at the abort flag once more, and at how long an abort has taken. */
    method Escalate(abort: bool, ghost i: nat, waited: int, killed: bool) returns (nowKilled: bool)
      requires Valid() && waited == i * DELAY_MS
      modifies `aborted, `signals
      ensures Valid()
      ensures var h := old(View());
              View() == h.(aborted := h.aborted || abort, signals := h.signals + TurnSignals(h, abort, i, killed))
      ensures nowKilled == (killed || Kills(old(View()), abort, i, killed))
    {
      CheckAbort(abort);
      nowKilled := killed;
      if aborted && !killed && waited >= ESCALATE_MS {
        Kill(Signal.Kill);
        nowKilled := true;
      }
      OneTurn(old(View()), View(), abort, i, killed);
    }

    method WaitForChild(ticks: seq<Tick>, last: Reap) returns (turns: Option<nat>)
      requires Valid() && !reaped
      modifies `aborted, `signals, `reaped, `waitStatus
      ensures Valid() && Left(View(), turns) == Wait(old(View()), ticks, 0, false, last)
    {
      hide Kills, TurnSignals;
      var waited, i, killed := 0, 0, false;
      ghost var result := Wait(View(), ticks, 0, false, last);
      while i < |ticks|
        invariant Valid() && 0 <= i <= |ticks| && waited == i * DELAY_MS && !reaped
        invariant Wait(View(), ticks, i, killed, last) == result
        decreases |ticks| - i
      {
        if !ticks[i].reap.Running? {
          var _ := Reap(ticks[i].reap);
          return Some(i + 1);
        }
        killed := Escalate(ticks[i].abort, i, waited, killed);
        if aborted && waited >= WAIT_LIMIT_MS {
          var _ := Reap(last);
          reaped := true;
          return Some(i + 1);
        }
        waited := waited + DELAY_MS;
        i := i + 1;
      }
      turns := None;
    }

    /** Ends the handle: the last wait, then the status and the retained output. */
    method FinishChild(ticks: seq<Tick>, last: Reap) returns (turns: Option<nat>, status: int, text: Text)
      requires Valid()
      modifies this
      ensures Valid() && Left(View(), turns) == Finish(old(View()), ticks, last)
      ensures status == ExitStatus(View()) && text == old(View()).output
    {
      stdin := false;
      turns := Some(0);
      if !reaped {
        turns := WaitForChild(ticks, last);
      }
      if aborted {
        status := ABORT_STATUS;
      } else {
        match waitStatus {
          case Exited(code) =>
            status := code;
          case Signalled(signal) =>
            status := 128 + signal;
          case Unknown =>
            status := -1;
        }
      }
      text := if output.data == null then [] else output.data[..output.length];
    }
  }

  lemma DrainNext(h: Handle, env: Schedule, k: nat, drained: Text)
    requires env(k).read.Data? && |drained| < DRAIN_MAX
    ensures var stashed, more := Stash(h, env(k).read.piece), drained + env(k).read.piece;
            Drain(h, env, k, drained) ==
            if |more| >= DRAIN_MAX then (stashed, more, k + 1)
            else if !env(k + 1).read.Data? then (stashed, more, k + 2)
            else Drain(stashed, env, k + 1, more)
  {
    hide Stash;
  }

  lemma Filled(all: Text, before: Text, piece: Text)
    requires |before| + |piece| <= |all| && all[..|before|] == before
    requires forall i :: 0 <= i < |piece| ==> all[|before| + i] == piece[i]
    ensures all[..|before| + |piece|] == before + piece
  {
  }

  lemma OneTurn(before: Handle, now: Handle, abort: bool, i: nat, killed: bool)
    requires now == AbortCheck(before, abort).(signals := now.signals)
    requires now.signals == AbortCheck(before, abort).signals
                            + if Kills(before, abort, i, killed) then [Signal.Kill] else []
    ensures now == before.(aborted := before.aborted || abort,
                           signals := before.signals + TurnSignals(before, abort, i, killed))
  {
  }
}
