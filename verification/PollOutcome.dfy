/**
 How a poll and a write end, from what the system answers alone: which answer decides, and
 what it makes of the handle.
 */
module PollOutcome {
  import opened Bytes
  import opened Seqs
  import opened ProcessModel
  import opened Capture

  // ---------------------------------------------------------------- the turn that decides

  /** The child is found gone in this turn, or was before. */
  predicate Gone(h: Handle, env: Schedule, i: nat) {
    h.reaped || !env(i).reap.Running?
  }

  /** The abort was seen before the read of this turn. */
  ghost predicate AbortSeen(h: Handle, env: Schedule, abort: bool, i: nat) {
    h.aborted || abort || exists k: nat :: k < i && env(k).abort
  }

  /** A turn ends the poll if its read brings anything but a later, if the child is gone or the
      handle aborted, or if the timeout is used up, 20 ms a turn. */
  ghost predicate Ends(h: Handle, env: Schedule, abort: bool, timeout: int, i: nat) {
    !env(i).read.Again? || Gone(h, env, i) || AbortSeen(h, env, abort, i) || 20 * i >= timeout
  }

  ghost predicate FirstEnd(h: Handle, env: Schedule, abort: bool, timeout: int, j: nat) {
    Ends(h, env, abort, timeout, j) && forall i: nat :: i < j ==> !Ends(h, env, abort, timeout, i)
  }

  lemma {:induction false} FindEnd(h: Handle, env: Schedule, abort: bool, timeout: int, i: nat) returns (j: nat)
    requires forall k: nat :: k < i ==> !Ends(h, env, abort, timeout, k)
    ensures FirstEnd(h, env, abort, timeout, j)
    decreases timeout - 20 * i
  {
    hide Gone, AbortSeen;
    j := i;
    if !Ends(h, env, abort, timeout, i) {
      j := FindEnd(h, env, abort, timeout, i + 1);
    }
  }

  /** Every poll has such a turn. */
  lemma PollEnds(h: Handle, env: Schedule, abort: bool, timeout: int) returns (j: nat)
    ensures FirstEnd(h, env, abort, timeout, j)
  {
    j := FindEnd(h, env, abort, timeout, 0);
  }

  // ---------------------------------------------------------------- what it decides

  /** Bytes make a chunk; end of file and errors finish; so does a later from a child that is
      gone or aborted; and any other later is the timeout. */
  ghost predicate Decides(h: Handle, env: Schedule, abort: bool, timeout: int, j: nat, r: Polled) {
    && (r.answer.Chunk? <==> env(j).read.Data?)
    && (r.answer.Chunk? ==> r.answer.bytes != [] && r.used > j)
    && (r.answer == Finished <==>
          || env(j).read.End? || env(j).read.Failed?
          || (env(j).read.Again? && (Gone(h, env, j) || AbortSeen(h, env, abort, j))))
    && (r.answer == Nothing ==> r.waited == if timeout <= 0 then 0 else timeout)
    && (!r.answer.Chunk? ==> r.used == j + 1)
    && r.waited == if timeout <= 0 then 0 else if 20 * j < timeout then 20 * j else timeout
  }

  ghost predicate Leaves(h: Handle, env: Schedule, abort: bool, j: nat, r: Polled) {
    && r.handle.eofSeen == (h.eofSeen || r.answer == Finished)
    && r.handle.aborted == AbortSeen(h, env, abort, j)
    && r.handle.signals == h.signals + (if AbortSeen(h, env, abort, j) && !h.aborted then [Term] else [])
    && r.handle.reaped == (h.reaped || (env(j).read.Again? && Gone(h, env, j)))
    && r.handle.waitStatus == (if !h.reaped && env(j).read.Again? && env(j).reap.Reaped? then env(j).reap.status
                               else h.waitStatus)
    && r.handle.stdin == h.stdin
  }

  lemma {:induction false} DrainLeaves(h: Handle, env: Schedule, k: nat, drained: Text)
    requires env(k).read.Data? && |drained| < DRAIN_MAX
    ensures var r := Drain(h, env, k, drained);
            && r.0 == h.(output := r.0.output, truncated := r.0.truncated)
            && drained < r.1 && r.2 > k
    decreases DRAIN_MAX - |drained|
  {
    var stashed, more := Stash(h, env(k).read.piece), drained + env(k).read.piece;
    if |more| < DRAIN_MAX && env(k + 1).read.Data? {
      DrainLeaves(stashed, env, k + 1, more);
    }
  }

  /** The handle as the loop has it in turn k. */
  ghost predicate Reached(h: Handle, env: Schedule, abort: bool, timeout: int, k: nat, now: Handle, waited: nat) {
    && now.aborted == AbortSeen(h, env, abort, k)
    && now == h.(aborted := now.aborted,
                 signals := h.signals + if now.aborted && !h.aborted then [Term] else [])
    && waited == (if timeout <= 0 then 0 else if 20 * k < timeout then 20 * k else timeout)
  }

  lemma Rereached(h: Handle, env: Schedule, abort: bool, timeout: int, k: nat, now: Handle, waited: nat)
    requires Reached(h, env, abort, timeout, k, now, waited) && !Ends(h, env, abort, timeout, k)
    ensures TryReap(now, env(k).reap) == now && timeout > 0 && Least(DELAY_MS, timeout - waited) > 0
    ensures Reached(h, env, abort, timeout, k + 1, AbortCheck(now, env(k).abort),
                    waited + Least(DELAY_MS, timeout - waited))
  {
    var next := AbortCheck(now, env(k).abort);
    SeenNext(h, env, abort, k);
    EmptyBack(h.signals, []);
  }

  lemma SeenNext(h: Handle, env: Schedule, abort: bool, k: nat)
    ensures AbortSeen(h, env, abort, k + 1) <==> AbortSeen(h, env, abort, k) || env(k).abort
  {
  }

  lemma LastTurn(h: Handle, env: Schedule, abort: bool, timeout: int, j: nat, now: Handle, waited: nat)
    requires Reached(h, env, abort, timeout, j, now, waited) && Ends(h, env, abort, timeout, j)
    ensures Decides(h, env, abort, timeout, j, PollFrom(now, env, j, timeout, waited))
    ensures Leaves(h, env, abort, j, PollFrom(now, env, j, timeout, waited))
  {
    hide AbortSeen;
    if env(j).read.Data? {
      DrainLeaves(now, env, j, []);
    }
  }

  lemma {:induction false} PollFromDecides(h: Handle, env: Schedule, abort: bool, timeout: int, j: nat,
                                           k: nat, now: Handle, waited: nat)
    requires FirstEnd(h, env, abort, timeout, j) && k <= j
    requires Reached(h, env, abort, timeout, k, now, waited)
    ensures Decides(h, env, abort, timeout, j, PollFrom(now, env, k, timeout, waited))
    ensures Leaves(h, env, abort, j, PollFrom(now, env, k, timeout, waited))
    decreases j - k
  {
    hide Reached, Gone, AbortSeen, Decides, Leaves, Least, AbortCheck, TryReap;
    if k == j {
      LastTurn(h, env, abort, timeout, j, now, waited);
    } else {
      Rereached(h, env, abort, timeout, k, now, waited);
      ReachedIdle(h, env, abort, timeout, k, now, waited);
      PollFromDecides(h, env, abort, timeout, j, k + 1, AbortCheck(now, env(k).abort),
                      waited + Least(DELAY_MS, timeout - waited));
    }
  }

  lemma ReachedIdle(h: Handle, env: Schedule, abort: bool, timeout: int, k: nat, now: Handle, waited: nat)
    requires Reached(h, env, abort, timeout, k, now, waited) && !Ends(h, env, abort, timeout, k)
    ensures !now.reaped && !now.aborted
  {
  }

  /** The first turn that ends the poll decides its answer, its waiting and its handle. */
  lemma PollDecided(h: Handle, env: Schedule, abort: bool, timeout: int, j: nat)
    requires FirstEnd(h, env, abort, timeout, j)
    ensures Decides(h, env, abort, timeout, j, Poll(h, env, abort, timeout))
    ensures Leaves(h, env, abort, j, Poll(h, env, abort, timeout))
  {
    hide FirstEnd, Decides, Leaves;
    EmptyBack(h.signals, []);
    PollFromDecides(h, env, abort, timeout, j, 0, AbortCheck(h, abort), 0);
  }

  /** A child that writes and exits right after a read that found nothing. */
  function WritesLate(k: nat): Moment {
    if k == 0 then Moment(Again, Reaped(Exited(0)), false) else Moment(Data([0x61]), Running, false)
  }

  /** Its output is never handed out: the poll says it is over. */
  lemma OutputMissed(timeout: int)
    ensures var r := Poll(Begin(false), WritesLate, false, timeout);
            r.answer == Finished && r.used == 1 && WritesLate(r.used).read.Data?
  {
    PollDecided(Begin(false), WritesLate, false, timeout, 0);
  }

  // ---------------------------------------------------------------- how much a chunk takes

  /** A chunk goes on, read after read, until one brings no bytes or 65536 are reached. */
  lemma {:induction false} DrainStops(h: Handle, env: Schedule, k: nat, drained: Text)
    requires env(k).read.Data? && |drained| < 65536
    ensures var r := Drain(h, env, k, drained);
            var last := r.2 - 1;
            && last >= k
            && (forall i :: k <= i < last ==> env(i).read.Data?)
            && (if env(last).read.Data?
                then |r.1| >= 65536 && |r.1| - |env(last).read.piece| < 65536
                else |r.1| < 65536)
    decreases DRAIN_MAX - |drained|
  {
    hide Stash;
    var stashed, more := Stash(h, env(k).read.piece), drained + env(k).read.piece;
    if |more| < DRAIN_MAX && env(k + 1).read.Data? {
      DrainStops(stashed, env, k + 1, more);
    }
  }

  /** Over a whole poll: the chunk is what all reads from the deciding one on bring, up to the
      first that brings nothing, or the first that makes it 65536 bytes or more. */
  lemma ChunkTakes(h: Handle, env: Schedule, abort: bool, timeout: int, j: nat)
    requires FirstEnd(h, env, abort, timeout, j) && env(j).read.Data?
    ensures var r := Poll(h, env, abort, timeout);
            && r.answer.Chunk? && r.used > j
            && r.answer.bytes == BytesIn(env, j, r.used)
            && (forall i :: j <= i < r.used - 1 ==> env(i).read.Data?)
            && (if env(r.used - 1).read.Data?
                then |r.answer.bytes| >= 65536 && |r.answer.bytes| - |env(r.used - 1).read.piece| < 65536
                else |r.answer.bytes| < 65536)
  {
    EmptyBack(h.signals, []);
    ChunkFrom(h, env, abort, timeout, j, 0, AbortCheck(h, abort), 0);
  }

  lemma {:induction false} ChunkFrom(h: Handle, env: Schedule, abort: bool, timeout: int, j: nat,
                                     k: nat, now: Handle, waited: nat)
    requires FirstEnd(h, env, abort, timeout, j) && env(j).read.Data? && k <= j
    requires Reached(h, env, abort, timeout, k, now, waited)
    ensures var r := PollFrom(now, env, k, timeout, waited);
            && r.answer.Chunk? && r.used > j
            && r.answer.bytes == BytesIn(env, j, r.used)
            && (forall i :: j <= i < r.used - 1 ==> env(i).read.Data?)
            && (if env(r.used - 1).read.Data?
                then |r.answer.bytes| >= 65536 && |r.answer.bytes| - |env(r.used - 1).read.piece| < 65536
                else |r.answer.bytes| < 65536)
    decreases j - k
  {
    hide Reached, Gone, AbortSeen, Least, AbortCheck, TryReap, Drain;
    if k == j {
      DrainStops(now, env, j, []);
      DrainBytes(now, env, j);
    } else {
      Rereached(h, env, abort, timeout, k, now, waited);
      ReachedIdle(h, env, abort, timeout, k, now, waited);
      ChunkFrom(h, env, abort, timeout, j, k + 1, AbortCheck(now, env(k).abort),
                waited + Least(DELAY_MS, timeout - waited));
    }
  }

  lemma {:induction false} DrainAll(h: Handle, env: Schedule, k: nat, drained: Text)
    requires env(k).read.Data? && |drained| < DRAIN_MAX
    ensures var r := Drain(h, env, k, drained); r.1 == drained + BytesIn(env, k, r.2)
    decreases DRAIN_MAX - |drained|
  {
    hide Stash;
    var stashed, more := Stash(h, env(k).read.piece), drained + env(k).read.piece;
    if |more| >= DRAIN_MAX {
      OneRead(env, k);
    } else if !env(k + 1).read.Data? {
      OneRead(env, k + 1);
      EmptyBack(env(k).read.piece, []);
    } else {
      DrainAll(stashed, env, k + 1, more);
      Assoc(drained, env(k).read.piece, BytesIn(env, k + 1, Drain(stashed, env, k + 1, more).2));
    }
  }

  lemma DrainBytes(h: Handle, env: Schedule, k: nat)
    requires env(k).read.Data?
    ensures var r := Drain(h, env, k, []); r.1 == BytesIn(env, k, r.2)
  {
    DrainAll(h, env, k, []);
    EmptyFront([], BytesIn(env, k, Drain(h, env, k, []).2));
  }

  // ---------------------------------------------------------------- writing

  /** The bytes that the first i tries get rid of. */
  function Taken(tries: seq<Try>, i: nat): nat
    requires i <= |tries|
  {
    if i == 0 then 0
    else Taken(tries, i - 1) + match tries[i - 1].outcome case Accepted(n) => n case _ => 0
  }

  /** A write ends before a try once all bytes are gone or no answer is left, and in a try that
      sees a new abort, that fails, or that takes nothing. */
  predicate WriteEnds(h: Handle, tries: seq<Try>, len: nat, i: nat)
    requires i <= |tries|
  {
    || Taken(tries, i) >= len || i == |tries|
    || (tries[i].abort && !h.aborted)
    || tries[i].outcome == Broken || tries[i].outcome == Accepted(0)
  }

  lemma {:induction false} WriteFrom(h: Handle, tries: seq<Try>, len: nat, i: nat, j: nat)
    requires i <= j <= |tries| && WriteEnds(h, tries, len, j)
    requires forall k :: i <= k < j ==> !WriteEnds(h, tries, len, k)
    ensures Write(h, tries[i..], len, Taken(tries, i)) ==
            if Taken(tries, j) >= len then (h, Done)
            else if j == |tries| then (h, Blocked)
            else if tries[j].abort && !h.aborted then (h.(aborted := true, signals := h.signals + [Term]), Error)
            else (h, Error)
    decreases j - i
  {
    if i < j {
      DropDrop(tries, i, 1);
      assert !WriteEnds(h, tries, len, i);
      WriteFrom(h, tries, len, i + 1, j);
    } else if j < |tries| {
      assert tries[i..][0] == tries[i];
    }
  }

  /** A write is done exactly when what the tries take reaches the length before one of them
      ends it; a new abort sends SIGTERM and is an error, like a failure. */
  lemma WriteDecided(h: Handle, tries: seq<Try>, len: nat, j: nat)
    requires j <= |tries| && WriteEnds(h, tries, len, j)
    requires forall k :: 0 <= k < j ==> !WriteEnds(h, tries, len, k)
    ensures Write(h, tries, len, 0) ==
            if Taken(tries, j) >= len then (h, Done)
            else if j == |tries| then (h, Blocked)
            else if tries[j].abort && !h.aborted then (h.(aborted := true, signals := h.signals + [Term]), Error)
            else (h, Error)
  {
    assert tries[0..] == tries;
    WriteFrom(h, tries, len, 0, j);
  }
}
