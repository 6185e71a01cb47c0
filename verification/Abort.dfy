/**
 How an abort is carried out: at most one SIGTERM, then at most one SIGKILL, and a bound on
 how long the last wait can take.
 */
module Abort {
  import opened Bytes
  import opened Seqs
  import opened ProcessModel

  /** While the handle lives, it was asked to terminate once if it was aborted, and never else. */
  predicate AskedOnce(h: Handle) {
    h.signals == if h.aborted then [Term] else []
  }

  lemma {:induction false} DrainSendsNothing(h: Handle, env: Schedule, k: nat, drained: Text)
    requires env(k).read.Data? && |drained| < DRAIN_MAX
    ensures var r := Drain(h, env, k, drained).0; r.signals == h.signals && r.aborted == h.aborted
    decreases DRAIN_MAX - |drained|
  {
    var stashed, more := Stash(h, env(k).read.piece), drained + env(k).read.piece;
    if |more| < DRAIN_MAX && env(k + 1).read.Data? {
      DrainSendsNothing(stashed, env, k + 1, more);
    }
  }

  lemma {:induction false} PollAsksOnce(h: Handle, env: Schedule, k: nat, timeout: int, waited: nat)
    requires AskedOnce(h)
    ensures AskedOnce(PollFrom(h, env, k, timeout, waited).handle)
    decreases timeout - waited
  {
    hide Drain;
    if env(k).read.Data? {
      DrainSendsNothing(h, env, k, []);
    } else if env(k).read.Again? {
      var tried := TryReap(h, env(k).reap);
      var step := Least(DELAY_MS, timeout - waited);
      if !tried.reaped && !tried.aborted && timeout > 0 && step > 0 {
        PollAsksOnce(AbortCheck(tried, env(k).abort), env, k + 1, timeout, waited + step);
      }
    }
  }

  lemma {:induction false} WriteAsksOnce(h: Handle, tries: seq<Try>, len: nat, written: nat)
    requires AskedOnce(h)
    ensures AskedOnce(Write(h, tries, len, written).0)
    decreases |tries|
  {
    if written < len && tries != [] && !(tries[0].abort && !h.aborted) {
      match tries[0].outcome {
        case Accepted(n) => WriteAsksOnce(h, tries[1..], len, written + n);
        case Interrupted => WriteAsksOnce(h, tries[1..], len, written);
        case WouldBlock => WriteAsksOnce(h, tries[1..], len, written);
        case Broken =>
      }
    }
  }

  lemma {:induction false} RunAsksOnce(h: Handle, ops: seq<Op>)
    requires AskedOnce(h)
    ensures AskedOnce(Run(h, ops))
    decreases |ops|
  {
    if ops != [] {
      match ops[0] {
        case PollOp(env, abort, timeout) => PollAsksOnce(AbortCheck(h, abort), env, 0, timeout, 0);
        case WriteOp(tries, len) => WriteAsksOnce(h, tries, len, 0);
        case TryWriteOp(_, _) =>
        case CloseStdin =>
      }
      RunAsksOnce(Apply(h, ops[0]), ops[1..]);
    }
  }

  // ---------------------------------------------------------------- the last wait

  /** The first turn from i at which the child is gone, or the number of turns. */
  function FirstExit(ticks: seq<Tick>, i: nat): (e: nat)
    requires i <= |ticks|
    ensures i <= e <= |ticks|
    ensures e < |ticks| ==> !ticks[e].reap.Running?
    ensures forall j :: i <= j < e ==> ticks[j].reap.Running?
    decreases |ticks| - i
  {
    if i == |ticks| || !ticks[i].reap.Running? then i else FirstExit(ticks, i + 1)
  }

  /** The first turn from i that finds the abort flag set, or the number of turns. */
  function FirstAbort(ticks: seq<Tick>, i: nat): (a: nat)
    requires i <= |ticks|
    ensures i <= a <= |ticks|
    ensures a < |ticks| ==> ticks[a].abort
    ensures forall j :: i <= j < a ==> !ticks[j].abort
    decreases |ticks| - i
  {
    if i == |ticks| || ticks[i].abort then i else FirstAbort(ticks, i + 1)
  }

  const ESCALATE_TURN: nat := 25
  const LIMIT_TURN: nat := 75

  function Later(a: nat, b: nat): nat {
    if a < b then b else a
  }

  function AbortTurn(aborted: bool, ticks: seq<Tick>, i: nat): nat
    requires i <= |ticks|
  {
    if aborted then i else FirstAbort(ticks, i)
  }

  /** The turn in which the wait ends. */
  function LastTurn(aborted: bool, ticks: seq<Tick>, i: nat): nat
    requires i <= |ticks|
  {
    var e, limit := FirstExit(ticks, i), Later(LIMIT_TURN, AbortTurn(aborted, ticks, i));
    if e < limit then e else limit
  }

  lemma LastTurnNext(aborted: bool, ticks: seq<Tick>, i: nat)
    requires i < |ticks|
    ensures var abort := ticks[i].abort;
            var over := !ticks[i].reap.Running? || ((aborted || abort) && i >= LIMIT_TURN);
            && LastTurn(aborted, ticks, i) == (if over then i else LastTurn(aborted || abort, ticks, i + 1))
            && (ticks[i].reap.Running? && !aborted ==>
                  (AbortTurn(aborted, ticks, i) < FirstExit(ticks, i)
                   <==> abort || AbortTurn(aborted, ticks, i + 1) < FirstExit(ticks, i + 1)))
            && (!ticks[i].reap.Running? ==> !(AbortTurn(aborted, ticks, i) < FirstExit(ticks, i)))
  {
  }

  lemma NoTurnLeft(aborted: bool, ticks: seq<Tick>)
    ensures LastTurn(aborted, ticks, |ticks|) == |ticks|
    ensures FirstExit(ticks, |ticks|) == |ticks| == AbortTurn(aborted, ticks, |ticks|)
  {
  }

  /** One turn of the wait in which the child still runs and it is not given up. */
  lemma WaitNext(h: Handle, ticks: seq<Tick>, i: nat, killed: bool, last: Reap)
    requires i < |ticks| && ticks[i].reap.Running?
    ensures var abort := ticks[i].abort;
            var sent := h.(aborted := h.aborted || abort, signals := h.signals + TurnSignals(h, abort, i, killed));
            if sent.aborted && i >= LIMIT_TURN
            then Wait(h, ticks, i, killed, last).turns == Some(i + 1)
                 && Wait(h, ticks, i, killed, last).handle.aborted
                 && Wait(h, ticks, i, killed, last).handle.signals == sent.signals
            else Wait(h, ticks, i, killed, last)
                 == Wait(sent, ticks, i + 1, killed || Kills(h, abort, i, killed), last)
  {
    hide TurnSignals, Kills;
  }

  lemma WaitOver(h: Handle, ticks: seq<Tick>, i: nat, killed: bool, last: Reap)
    requires i <= |ticks| && (i < |ticks| ==> !ticks[i].reap.Running?)
    ensures var r := Wait(h, ticks, i, killed, last);
            && r.turns == (if i < |ticks| then Some(i + 1) else None)
            && r.handle.aborted == h.aborted && r.handle.signals == h.signals
  {
  }

  /** The wait ends when the child is gone, or in turn 76 or the turn of the abort if that is
      later; and then the handle is aborted if it was before, or the abort came first. */
  lemma {:induction false} WaitLasts(h: Handle, ticks: seq<Tick>, i: nat, killed: bool, last: Reap)
    requires i <= |ticks|
    ensures var r := Wait(h, ticks, i, killed, last);
            var turn := LastTurn(h.aborted, ticks, i);
            && r.turns == (if turn < |ticks| then Some(turn + 1) else None)
            && r.handle.aborted == (h.aborted || AbortTurn(h.aborted, ticks, i) < FirstExit(ticks, i))
    decreases |ticks| - i
  {
    hide TurnSignals, Kills, Wait, LastTurn, AbortTurn, FirstExit;
    if i < |ticks| {
      LastTurnNext(h.aborted, ticks, i);
    } else {
      NoTurnLeft(h.aborted, ticks);
    }
    if i < |ticks| && ticks[i].reap.Running? {
      var abort := ticks[i].abort;
      var sent := h.(aborted := h.aborted || abort, signals := h.signals + TurnSignals(h, abort, i, killed));
      WaitNext(h, ticks, i, killed, last);
      if !(sent.aborted && i >= LIMIT_TURN) {
        WaitLasts(sent, ticks, i + 1, killed || Kills(h, abort, i, killed), last);
      }
    } else {
      WaitOver(h, ticks, i, killed, last);
    }
  }

  function Sent(aborted: bool, ticks: seq<Tick>, i: nat, killed: bool): seq<Signal>
    requires i <= |ticks|
  {
    var e, a := FirstExit(ticks, i), AbortTurn(aborted, ticks, i);
    (if !aborted && a < e then [Term] else []) + (if !killed && Later(ESCALATE_TURN, a) < e then [Kill] else [])
  }

  lemma SentNext(h: Handle, ticks: seq<Tick>, i: nat, killed: bool)
    requires i < |ticks| && ticks[i].reap.Running? && (killed ==> h.aborted)
    ensures var abort := ticks[i].abort;
            Sent(h.aborted, ticks, i, killed) ==
            TurnSignals(h, abort, i, killed)
            + Sent(h.aborted || abort, ticks, i + 1, killed || Kills(h, abort, i, killed))
  {
  }

  lemma SentAfterLimit(h: Handle, ticks: seq<Tick>, i: nat, killed: bool)
    requires i < |ticks| && (h.aborted || ticks[i].abort) && i >= LIMIT_TURN
    ensures Sent(true, ticks, i + 1, killed || Kills(h, ticks[i].abort, i, killed)) == []
  {
  }

  lemma SentAtEnd(h: Handle, ticks: seq<Tick>, i: nat, killed: bool)
    requires i <= |ticks| && (i < |ticks| ==> !ticks[i].reap.Running?)
    ensures Sent(h.aborted, ticks, i, killed) == []
  {
  }

  /** SIGTERM goes out in the turn of the abort and SIGKILL in turn 26 or the turn of the
      abort if that is later, each only while the child still runs. */
  lemma {:induction false} WaitSends(h: Handle, ticks: seq<Tick>, i: nat, killed: bool, last: Reap)
    requires i <= |ticks| && (killed ==> h.aborted)
    ensures Wait(h, ticks, i, killed, last).handle.signals == h.signals + Sent(h.aborted, ticks, i, killed)
    decreases |ticks| - i
  {
    hide Sent, TurnSignals, Wait;
    if i < |ticks| && ticks[i].reap.Running? {
      var abort := ticks[i].abort;
      var now, next := TurnSignals(h, abort, i, killed), killed || Kills(h, abort, i, killed);
      var sent := h.(aborted := h.aborted || abort, signals := h.signals + now);
      SentNext(h, ticks, i, killed);
      WaitNext(h, ticks, i, killed, last);
      Assoc(h.signals, now, Sent(sent.aborted, ticks, i + 1, next));
      if sent.aborted && i >= LIMIT_TURN {
        SentAfterLimit(h, ticks, i, killed);
        EmptyBack(sent.signals, []);
      } else {
        WaitSends(sent, ticks, i + 1, next, last);
      }
    } else {
      SentAtEnd(h, ticks, i, killed);
      WaitOver(h, ticks, i, killed, last);
      EmptyBack(h.signals, []);
    }
  }

  /** No explicit terminate: whatever is polled, written and waited for, the child group gets
      no signal unless it was aborted, then one SIGTERM, and after it at most one SIGKILL. */
  lemma AtMostOneOfEach(stdin: bool, ops: seq<Op>, ticks: seq<Tick>, last: Reap)
    ensures var h := Finish(Run(Begin(stdin), ops), ticks, last).handle;
            if h.aborted then h.signals == [Term] || h.signals == [Term, Kill] else h.signals == []
    ensures AskedOnce(Run(Begin(stdin), ops))
  {
    hide Run, Wait;
    var h := Run(Begin(stdin), ops);
    RunAsksOnce(Begin(stdin), ops);
    if !h.reaped {
      WaitLasts(h.(stdin := false), ticks, 0, false, last);
      WaitSends(h.(stdin := false), ticks, 0, false, last);
    }
  }

  /** The bound on an aborted wait: if the abort is seen by turn a, then the wait is over by
      turn 76 or turn a, whichever is later. */
  lemma AbortedWaitEnds(h: Handle, ticks: seq<Tick>, last: Reap, a: nat)
    requires !h.reaped && a < |ticks| && 75 < |ticks|
    requires h.aborted || ticks[a].abort
    ensures var turns := Finish(h, ticks, last).turns;
            turns.Some? && turns.value <= (if h.aborted || a <= 75 then 75 else a) + 1
  {
    WaitLasts(h.(stdin := false), ticks, 0, false, last);
  }

  /** Without an abort, the wait lasts as long as the child. */
  lemma UnabortedWaitLasts(h: Handle, ticks: seq<Tick>, last: Reap)
    requires !h.reaped && !h.aborted
    requires forall j :: 0 <= j < |ticks| ==> ticks[j].reap.Running? && !ticks[j].abort
    ensures Finish(h, ticks, last).turns == None && Finish(h, ticks, last).handle.signals == h.signals
  {
    WaitLasts(h.(stdin := false), ticks, 0, false, last);
    WaitSends(h.(stdin := false), ticks, 0, false, last);
    EmptyBack(h.signals, []);
  }

  /** What the wait reports of the child: what it said when it went, or what was known. */
  function Reported(h: Handle, ticks: seq<Tick>): WaitStatus {
    var e := FirstExit(ticks, 0);
    if !h.reaped && e < |ticks| && ticks[e].reap.Reaped? then ticks[e].reap.status else h.waitStatus
  }

  lemma {:induction false} WaitReports(h: Handle, ticks: seq<Tick>, i: nat, killed: bool, last: Reap)
    requires i <= |ticks| && !h.reaped
    ensures var r := Wait(h, ticks, i, killed, last);
            var e := FirstExit(ticks, i);
            r.turns.Some? && !r.handle.aborted ==>
              && e < |ticks|
              && r.handle.waitStatus == if ticks[e].reap.Reaped? then ticks[e].reap.status else h.waitStatus
    decreases |ticks| - i
  {
    hide TurnSignals, Kills;
    if i < |ticks| && ticks[i].reap.Running? {
      var abort := ticks[i].abort;
      var sent := h.(aborted := h.aborted || abort, signals := h.signals + TurnSignals(h, abort, i, killed));
      WaitNext(h, ticks, i, killed, last);
      if !(sent.aborted && i >= LIMIT_TURN) {
        WaitReports(sent, ticks, i + 1, killed || Kills(h, abort, i, killed), last);
      }
    }
  }

  /** Over a whole run: once finish returns, the status is 130 if and only if the group was
      sent a SIGTERM before the wait, or the abort was seen in the wait before the child was
      gone, or the child exited with 130 or was killed by SIGINT. */
  lemma StatusTellsAbort(stdin: bool, ops: seq<Op>, ticks: seq<Tick>, last: Reap)
    ensures var h := Run(Begin(stdin), ops);
            var f := Finish(h, ticks, last);
            f.turns.Some? ==>
              (ExitStatus(f.handle) == 130 <==>
                 || h.signals == [Term]
                 || (!h.reaped && FirstAbort(ticks, 0) < FirstExit(ticks, 0))
                 || Reported(h, ticks) == Exited(130) || Reported(h, ticks) == Signalled(2))
  {
    hide Run, Wait, FirstExit, FirstAbort;
    var h := Run(Begin(stdin), ops);
    RunAsksOnce(Begin(stdin), ops);
    if !h.reaped {
      WaitLasts(h.(stdin := false), ticks, 0, false, last);
      WaitReports(h.(stdin := false), ticks, 0, false, last);
    }
  }

  /** The status in full: what the child said when it went, -1 when that says nothing, 128 more
      than the number of a signal, and 130 once the handle is aborted. */
  lemma StatusReported(h: Handle, ticks: seq<Tick>, last: Reap)
    ensures var f := Finish(h, ticks, last);
            f.turns.Some? ==>
              ExitStatus(f.handle) ==
              if h.aborted || (!h.reaped && FirstAbort(ticks, 0) < FirstExit(ticks, 0)) then 130
              else match Reported(h, ticks)
                case Exited(code) => code
                case Signalled(signal) => 128 + signal
                case Unknown => -1
  {
    hide Wait, FirstExit, FirstAbort;
    if !h.reaped {
      WaitLasts(h.(stdin := false), ticks, 0, false, last);
      WaitReports(h.(stdin := false), ticks, 0, false, last);
    }
  }

  /** What finish sends: SIGTERM if it sees the abort before the child is gone, and SIGKILL if
      the child is still there in turn 26 and in the turn of the abort. */
  lemma FinishSends(h: Handle, ticks: seq<Tick>, last: Reap)
    requires !h.reaped
    ensures var e, a := FirstExit(ticks, 0), if h.aborted then 0 else FirstAbort(ticks, 0);
            Finish(h, ticks, last).handle.signals ==
            h.signals + ((if !h.aborted && a < e then [Term] else []) + (if 25 < e && a < e then [Kill] else []))
  {
    hide Wait, FirstExit, FirstAbort;
    WaitSends(h.(stdin := false), ticks, 0, false, last);
  }

  /** SIGKILL can follow SIGTERM at once: the time it is given counts from the start of the
      wait, so an abort that is seen in turn 26 or later leaves none. */
  lemma KilledAtOnce(h: Handle, ticks: seq<Tick>, last: Reap)
    requires !h.reaped && !h.aborted && |ticks| > 25
    requires forall j :: 0 <= j < |ticks| ==> ticks[j].reap.Running? && (ticks[j].abort <==> j == |ticks| - 1)
    ensures Finish(h, ticks[..|ticks| - 1], last).handle.signals == h.signals
    ensures Finish(h, ticks, last).handle.signals == h.signals + [Term, Kill]
  {
    hide Finish;
    assert ticks[|ticks| - 1].abort;
    FinishSends(h, ticks[..|ticks| - 1], last);
    FinishSends(h, ticks, last);
    EmptyBack(h.signals, []);
    assert [Term] + [Kill] == [Term, Kill];
  }

  /** A child that exits with 130 is not told apart from an aborted one. */
  lemma StatusIsAmbiguous()
    ensures var h := Finish(Begin(false), [Tick(Reaped(Exited(130)), false)], Running).handle;
            !h.aborted && ExitStatus(h) == 130
  {
  }
}
