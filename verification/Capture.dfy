/**
 Nothing that was read is lost or invented: the chunks handed out are the bytes read, and
 the retained output is their beginning.
 */
module Capture {
  import opened Bytes
  import opened Seqs
  import opened ProcessModel

  /** What a read brings. */
  function Brought(read: Read): Text {
    if read.Data? then read.piece else []
  }

  /** All bytes that the reads from the i-th up to the k-th bring. */
  function BytesIn(env: Schedule, i: nat, k: nat): Text
    requires i <= k
    decreases k - i
  {
    if i == k then [] else Brought(env(i).read) + BytesIn(env, i + 1, k)
  }

  /** What an answer hands out. */
  function HandedOut(a: Answer): Text {
    if a.Chunk? then a.bytes else []
  }

  function First(t: Text): Text {
    if |t| <= OUTPUT_MAX then t else t[..OUTPUT_MAX]
  }

  /** The retained output, given everything received so far. */
  predicate Captured(h: Handle, received: Text) {
    h.output == First(received) && (h.truncated <==> |received| > OUTPUT_MAX)
  }

  lemma StashCaptures(h: Handle, received: Text, piece: Piece)
    requires Captured(h, received)
    ensures Captured(Stash(h, piece), received + piece)
  {
    if |received| + |piece| > OUTPUT_MAX && |received| < OUTPUT_MAX {
      assert (received + piece)[..OUTPUT_MAX] == received + piece[..OUTPUT_MAX - |received|];
    } else if |received| >= OUTPUT_MAX {
      assert (received + piece)[..OUTPUT_MAX] == received[..OUTPUT_MAX];
    }
  }

  lemma OneRead(env: Schedule, k: nat)
    ensures BytesIn(env, k, k + 1) == Brought(env(k).read)
  {
    EmptyBack(Brought(env(k).read), []);
  }

  lemma {:induction false} DrainCaptures(h: Handle, env: Schedule, k: nat, drained: Text, received: Text)
    requires env(k).read.Data? && |drained| < DRAIN_MAX && Captured(h, received)
    ensures var r := Drain(h, env, k, drained);
            var bytes := BytesIn(env, k, r.2);
            r.1 == drained + bytes && Captured(r.0, received + bytes)
    decreases DRAIN_MAX - |drained|
  {
    hide Captured, Stash;
    var piece := env(k).read.piece;
    StashCaptures(h, received, piece);
    var stashed, more := Stash(h, piece), drained + piece;
    if |more| >= DRAIN_MAX {
      OneRead(env, k);
    } else if !env(k + 1).read.Data? {
      OneRead(env, k + 1);
      EmptyBack(piece, []);
    } else {
      DrainCaptures(stashed, env, k + 1, more, received + piece);
      var rest := BytesIn(env, k + 1, Drain(stashed, env, k + 1, more).2);
      Assoc(drained, piece, rest);
      Assoc(received, piece, rest);
    }
  }

  lemma CapturedByOutput(a: Handle, b: Handle, received: Text)
    requires Captured(a, received) && a.output == b.output && a.truncated == b.truncated
    ensures Captured(b, received)
  {
  }

  lemma {:induction false} PollFromCaptures(h: Handle, env: Schedule, k: nat, timeout: int, waited: nat,
                                            received: Text)
    requires Captured(h, received)
    ensures var r := PollFrom(h, env, k, timeout, waited);
            var bytes := BytesIn(env, k, r.used);
            HandedOut(r.answer) == bytes && Captured(r.handle, received + bytes)
    decreases timeout - waited
  {
    hide Captured, Drain, First;
    OneRead(env, k);
    EmptyBack(received, []);
    match env(k).read {
      case Data(_) =>
        DrainCaptures(h, env, k, [], received);
        EmptyFront([], BytesIn(env, k, Drain(h, env, k, []).2));
      case End => CapturedByOutput(h, h.(eofSeen := true), received);
      case Failed => CapturedByOutput(h, h.(eofSeen := true), received);
      case Again =>
        var tried := TryReap(h, env(k).reap);
        var step := Least(DELAY_MS, timeout - waited);
        CapturedByOutput(h, tried, received);
        if tried.reaped || tried.aborted {
          CapturedByOutput(h, tried.(eofSeen := true), received);
        } else if timeout > 0 && step > 0 {
          var next := AbortCheck(tried, env(k).abort);
          CapturedByOutput(h, next, received);
          PollFromCaptures(next, env, k + 1, timeout, waited + step, received);
          EmptyFront([], BytesIn(env, k + 1, PollFrom(next, env, k + 1, timeout, waited + step).used));
        }
    }
  }

  /** One poll hands out exactly the bytes it read, and retains them up to the limit. */
  lemma PollCaptures(h: Handle, env: Schedule, abort: bool, timeout: int, received: Text)
    requires Captured(h, received)
    ensures var r := Poll(h, env, abort, timeout);
            var bytes := BytesIn(env, 0, r.used);
            HandedOut(r.answer) == bytes && Captured(r.handle, received + bytes)
  {
    CapturedByOutput(h, AbortCheck(h, abort), received);
    PollFromCaptures(AbortCheck(h, abort), env, 0, timeout, 0, received);
  }

  /** The waiting charged to a poll never exceeds its timeout. */
  lemma {:induction false} WaitingBounded(h: Handle, env: Schedule, k: nat, timeout: int, waited: nat)
    requires waited == 0 || waited <= timeout
    ensures var r := PollFrom(h, env, k, timeout, waited); waited <= r.waited && (r.waited == 0 || r.waited <= timeout)
    ensures PollFrom(h, env, k, timeout, waited).answer == Nothing && timeout > 0 ==>
              PollFrom(h, env, k, timeout, waited).waited == timeout
    decreases timeout - waited
  {
    hide Drain;
    var tried := TryReap(h, env(k).reap);
    var step := Least(DELAY_MS, timeout - waited);
    if env(k).read.Again? && !tried.reaped && !tried.aborted && timeout > 0 && step > 0 {
      WaitingBounded(AbortCheck(tried, env(k).abort), env, k + 1, timeout, waited + step);
    }
  }

  // ---------------------------------------------------------------- whole runs

  /** The bytes that one operation reads, and those that it hands out. */
  function Reads(h: Handle, op: Op): Text {
    if op.PollOp? then BytesIn(op.env, 0, Poll(h, op.env, op.abort, op.timeout).used) else []
  }

  function Delivers(h: Handle, op: Op): Text {
    if op.PollOp? then HandedOut(Poll(h, op.env, op.abort, op.timeout).answer) else []
  }

  function AllRead(h: Handle, ops: seq<Op>): Text
    decreases |ops|
  {
    if ops == [] then [] else Reads(h, ops[0]) + AllRead(Apply(h, ops[0]), ops[1..])
  }

  function AllDelivered(h: Handle, ops: seq<Op>): Text
    decreases |ops|
  {
    if ops == [] then [] else Delivers(h, ops[0]) + AllDelivered(Apply(h, ops[0]), ops[1..])
  }

  lemma {:induction false} WriteKeepsOutput(h: Handle, tries: seq<Try>, len: nat, written: nat)
    ensures var r := Write(h, tries, len, written).0; r.output == h.output && r.truncated == h.truncated
    decreases |tries|
  {
    if written < len && tries != [] && !(tries[0].abort && !h.aborted) {
      match tries[0].outcome {
        case Accepted(n) => WriteKeepsOutput(h, tries[1..], len, written + n);
        case Interrupted => WriteKeepsOutput(h, tries[1..], len, written);
        case WouldBlock => WriteKeepsOutput(h, tries[1..], len, written);
        case Broken =>
      }
    }
  }

  lemma ApplyCaptures(h: Handle, op: Op, received: Text)
    requires Captured(h, received)
    ensures Delivers(h, op) == Reads(h, op) && Captured(Apply(h, op), received + Reads(h, op))
  {
    hide Captured, Poll, Write;
    EmptyBack(received, []);
    match op {
      case PollOp(env, abort, timeout) => PollCaptures(h, env, abort, timeout, received);
      case WriteOp(tries, len) =>
        WriteKeepsOutput(h, tries, len, 0);
        CapturedByOutput(h, Apply(h, op), received);
      case TryWriteOp(_, _) => CapturedByOutput(h, Apply(h, op), received);
      case CloseStdin => CapturedByOutput(h, Apply(h, op), received);
    }
  }

  lemma {:induction false} RunCapturesFrom(h: Handle, ops: seq<Op>, received: Text)
    requires Captured(h, received)
    ensures AllDelivered(h, ops) == AllRead(h, ops)
    ensures Captured(Run(h, ops), received + AllRead(h, ops))
    decreases |ops|
  {
    hide Captured, Apply, Reads, Delivers;
    if ops == [] {
      EmptyBack(received, []);
    } else {
      ApplyCaptures(h, ops[0], received);
      RunCapturesFrom(Apply(h, ops[0]), ops[1..], received + Reads(h, ops[0]));
      Assoc(received, Reads(h, ops[0]), AllRead(Apply(h, ops[0]), ops[1..]));
    }
  }

  /** Over a whole run of a handle, whatever the system answers: the chunks handed out make
      up all bytes read, the retained output is their beginning, and it counts as
      truncated exactly when there was more. */
  lemma RunCaptures(stdin: bool, ops: seq<Op>)
    ensures var h, all := Run(Begin(stdin), ops), AllRead(Begin(stdin), ops);
            && AllDelivered(Begin(stdin), ops) == all
            && h.output == (if |all| <= 262144 then all else all[..262144])
            && (h.truncated <==> |all| > 262144)
  {
    RunCapturesFrom(Begin(stdin), ops, []);
    EmptyFront([], AllRead(Begin(stdin), ops));
  }
}
