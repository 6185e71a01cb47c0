/**
 The chunk queue between the transfer thread and the caller of poll, one function for
 each critical section, and the two threads as a transition system.
 */
module HttpQueue {
  import opened Bytes
  import opened Seqs

  const TOTAL_MAX := 64 * 1024 * 1024
  const QUEUE_MAX := 4 * 1024 * 1024
  const SIZE_MAX := 0xffff_ffff_ffff_ffff

  /** The fields guarded by the mutex; the list as the data of its nodes. */
  datatype Queue = Queue(chunks: seq<Text>, bytes: nat, total: nat, done: bool, failed: bool)

  function Join(chunks: seq<Text>): Text {
    if chunks == [] then [] else chunks[0] + Join(chunks[1..])
  }

  lemma {:induction false} JoinAppend(a: seq<Text>, b: seq<Text>)
    ensures Join(a + b) == Join(a) + Join(b)
  {
    if a == [] {
      EmptyFront(a, b);
    } else {
      ConsAppend(a, b);
      JoinAppend(a[1..], b);
      Assoc(a[0], Join(a[1..]), Join(b));
    }
  }

  lemma JoinOne(data: Text)
    ensures Join([data]) == data
  {
    assert [data][1..] == [];
    EmptyBack(data, []);
  }

  // ---------------------------------------------------------------- critical sections

  predicate WouldExceedLimits(q: Queue, len: nat) {
    || len > TOTAL_MAX || q.total > TOTAL_MAX - len
    || len > QUEUE_MAX || q.bytes > QUEUE_MAX - len
  }

  predicate Rejects(q: Queue, len: nat) {
    q.failed || WouldExceedLimits(q, len)
  }

  function Reserve(q: Queue, len: nat): Queue {
    if Rejects(q, len) then q.(failed := true) else q.(total := q.total + len, bytes := q.bytes + len)
  }

  function Link(q: Queue, data: Text): Queue {
    q.(chunks := q.chunks + [data])
  }

  function Fail(q: Queue): Queue {
    q.(failed := true)
  }

  function Detach(q: Queue): Queue {
    q.(chunks := [], bytes := 0)
  }

  function Requeue(q: Queue, chunks: seq<Text>, bytes: nat): Queue {
    q.(chunks := chunks + q.chunks, bytes := q.bytes + bytes)
  }

  function Complete(q: Queue): Queue {
    q.(done := true)
  }

  /** What poll answers, decided in the same critical section as the detach. */
  function PollResult(q: Queue): nat {
    if q.chunks != [] then 1 else if q.done then 2 else 0
  }

  // ---------------------------------------------------------------- the two threads

  /** The transfer thread between critical sections: a reserved chunk is being copied,
      or its copy could not be allocated and the failure is still to be latched. */
  datatype Producer = Idle | Reserved(data: Text) | Failing | Finished

  /** The polling thread: it holds a detached list, or the part of one that it is about
      to put back. */
  datatype Consumer = Resting | Holding(chunks: seq<Text>) | Returning(chunks: seq<Text>)

  /** The rest is history: the bytes the callback was given, those it accepted, those
      poll handed out, whether a callback ended short or a list was put back; the size of
      the chunk that was in flight at the last poll, and the reserved sizes that were given
      up since. */
  datatype System = System(
    queue: Queue, producer: Producer, consumer: Consumer,
    offered: Text, accepted: Text, delivered: Text,
    short: bool, requeued: bool, transferOk: bool,
    uncounted: nat, lost: nat)

  datatype Action =
    | CallbackEmpty
    | CallbackOverflow
    | CallbackReserve(data: Text)
    | AllocationFails
    | LatchFailure
    | LinkChunk
    | TransferEnds(ok: bool)
    | Poll(result: nat)
    | JoinDone
    | JoinFails
    | PutBack

  ghost predicate Initial(s: System) {
    s == System(Queue([], 0, 0, false, false), Idle, Resting, [], [], [], false, false, false, 0, 0)
  }

  ghost predicate Step(s: System, a: Action, t: System) {
    match a
    case CallbackEmpty => s.producer == Idle && t == s
    case CallbackOverflow => s.producer == Idle && t == s.(producer := Failing)
    case CallbackReserve(data) =>
      && s.producer == Idle && data != []
      && t == s.(queue := Reserve(s.queue, |data|),
                 offered := s.offered + data,
                 short := s.short || Rejects(s.queue, |data|),
                 producer := if Rejects(s.queue, |data|) then Idle else Reserved(data))
    case AllocationFails =>
      s.producer.Reserved? && t == s.(producer := Failing, lost := s.lost + |s.producer.data|)
    case LatchFailure =>
      s.producer == Failing && t == s.(queue := Fail(s.queue), producer := Idle, short := true)
    case LinkChunk =>
      && s.producer.Reserved?
      && t == s.(queue := Link(s.queue, s.producer.data),
                 accepted := s.accepted + s.producer.data,
                 producer := Idle)
    // libcurl reports failure after a callback that took fewer bytes than it was given
    case TransferEnds(ok) =>
      && s.producer == Idle && (s.short ==> !ok)
      && t == s.(queue := Complete(s.queue), producer := Finished, transferOk := ok)
    case Poll(result) =>
      && s.consumer == Resting && result == PollResult(s.queue)
      && t == s.(queue := Detach(s.queue),
                 uncounted := |InFlight(s.producer)|, lost := 0,
                 consumer := if s.queue.chunks == [] then Resting else Holding(s.queue.chunks))
    case JoinDone =>
      && s.consumer.Holding?
      && t == s.(delivered := s.delivered + Join(s.consumer.chunks), consumer := Resting)
    case JoinFails =>
      && s.consumer.Holding? && |s.consumer.chunks| > 1
      && t == s.(delivered := s.delivered + s.consumer.chunks[0], consumer := Returning(s.consumer.chunks[1..]))
    case PutBack =>
      && s.consumer.Returning?
      && t == s.(queue := Requeue(s.queue, s.consumer.chunks, |Join(s.consumer.chunks)|),
                 consumer := Resting, requeued := true)
  }

  function InFlight(p: Producer): Text {
    if p.Reserved? then p.data else []
  }

  function Held(c: Consumer): Text {
    if c.Resting? then [] else Join(c.chunks)
  }

  // ---------------------------------------------------------------- conservation

  /** Every accepted byte is delivered, detached or linked, once and in order; and what
      was accepted is what was offered, up to the point where a callback fell short. */
  ghost predicate Conserves(s: System) {
    && s.delivered + Held(s.consumer) + Join(s.queue.chunks) == s.accepted
    && s.accepted <= s.offered
    && (s.short || s.producer.Failing? || s.accepted + InFlight(s.producer) == s.offered)
    && (s.short ==> s.queue.failed && !s.producer.Reserved?)
    && (s.queue.done <==> s.producer.Finished?)
    && (s.transferOk ==> s.producer.Finished? && !s.short)
    && (forall c :: c in s.queue.chunks ==> c != [])
    && (s.consumer.Returning? ==> s.consumer.chunks != [])
    && (s.consumer.Holding? ==> s.consumer.chunks != [])
    && (!s.consumer.Resting? ==> forall c :: c in s.consumer.chunks ==> c != [])
    && (s.producer.Reserved? ==> s.producer.data != [])
  }

  lemma ProducerConserves(s: System, a: Action, t: System)
    requires Conserves(s) && Step(s, a, t)
    requires a.CallbackReserve? || a.LinkChunk? || a.AllocationFails? || a.CallbackOverflow? || a.LatchFailure?
    ensures Conserves(t)
  {
    match a
    case LinkChunk =>
      JoinAppend(s.queue.chunks, [s.producer.data]);
      JoinOne(s.producer.data);
      Assoc(s.delivered + Held(s.consumer), Join(s.queue.chunks), s.producer.data);
      assert s.accepted + s.producer.data == s.offered;
      EmptyBack(t.accepted, []);
    case CallbackReserve(data) =>
      assert s.accepted <= s.offered + data;
      EmptyBack(s.accepted, []);
    case _ =>
  }

  lemma ConsumerConserves(s: System, a: Action, t: System)
    requires Conserves(s) && Step(s, a, t)
    requires a.Poll? || a.JoinDone? || a.JoinFails? || a.PutBack?
    ensures Conserves(t)
  {
    match a
    case Poll(_) =>
      EmptyBack(s.delivered, []);
      EmptyBack(s.delivered + Held(t.consumer), []);
    case JoinFails =>
      var chunks := s.consumer.chunks;
      Assoc(s.delivered, chunks[0], Join(chunks[1..]));
      assert forall c :: c in chunks[1..] ==> c in chunks;
    case PutBack =>
      JoinAppend(s.consumer.chunks, s.queue.chunks);
      Assoc(s.delivered, Held(s.consumer), Join(s.queue.chunks));
      EmptyBack(s.delivered, []);
    case _ =>
      EmptyBack(t.delivered, []);
  }

  lemma StepConserves(s: System, a: Action, t: System)
    requires Conserves(s) && Step(s, a, t)
    ensures Conserves(t)
  {
    if a.Poll? || a.JoinDone? || a.JoinFails? || a.PutBack? {
      ConsumerConserves(s, a, t);
    } else if !(a.CallbackEmpty? || a.TransferEnds?) {
      ProducerConserves(s, a, t);
    }
  }

  // ---------------------------------------------------------------- bounds

  /** Detaching zeroes the byte count even while a chunk is reserved, so the count is not
      the size of the list. These are the bounds that do hold. */
  ghost predicate Bounded(s: System) {
    var linked, held, reserved := |Join(s.queue.chunks)|, |Held(s.consumer)|, |InFlight(s.producer)|;
    && s.queue.total <= TOTAL_MAX
    && linked + held + reserved <= s.queue.total
    && s.queue.bytes + held <= s.queue.total
    && reserved <= QUEUE_MAX
    && linked + reserved <= s.queue.bytes + QUEUE_MAX
    && (!s.requeued ==> s.queue.bytes <= QUEUE_MAX)
  }

  lemma ReserveBounded(s: System, data: Text, t: System)
    requires Bounded(s) && Step(s, CallbackReserve(data), t)
    ensures Bounded(t)
  {
    hide Join;
  }

  lemma StepBounded(s: System, a: Action, t: System)
    requires Bounded(s) && Step(s, a, t)
    ensures Bounded(t)
  {
    hide Rejects;
    match a
    case CallbackReserve(data) => ReserveBounded(s, data, t);
    case LinkChunk =>
      JoinAppend(s.queue.chunks, [s.producer.data]);
      JoinOne(s.producer.data);
    case PutBack =>
      JoinAppend(s.consumer.chunks, s.queue.chunks);
    case _ =>
  }

  // ---------------------------------------------------------------- whole runs

  ghost predicate IsRun(states: seq<System>, actions: seq<Action>) {
    && |states| == |actions| + 1
    && Initial(states[0])
    && forall i :: 0 <= i < |actions| ==> Step(states[i], actions[i], states[i + 1])
  }

  lemma {:induction false} RunInvariant(states: seq<System>, actions: seq<Action>, k: nat)
    requires IsRun(states, actions) && k < |states|
    ensures Conserves(states[k]) && Bounded(states[k])
  {
    hide Conserves, Bounded, Step;
    if k == 0 {
      InitialFine(states[0]);
    } else {
      RunInvariant(states, actions, k - 1);
      assert Step(states[k - 1], actions[k - 1], states[k - 1 + 1]);
      StepConserves(states[k - 1], actions[k - 1], states[k]);
      StepBounded(states[k - 1], actions[k - 1], states[k]);
    }
  }

  lemma InitialFine(s: System)
    requires Initial(s)
    ensures Conserves(s) && Bounded(s)
  {
  }

  /** Conservation in every interleaving: nothing accepted is lost, doubled or reordered,
      even when an allocation fails on either side. */
  lemma StreamConserved(states: seq<System>, actions: seq<Action>, k: nat)
    requires IsRun(states, actions) && k < |states|
    ensures var s := states[k];
            && s.delivered + Held(s.consumer) + Join(s.queue.chunks) == s.accepted
            && s.accepted <= s.offered
            && (!s.short && !s.producer.Failing? ==> s.accepted + InFlight(s.producer) == s.offered)
  {
    RunInvariant(states, actions, k);
  }

  /** Bounds in every interleaving, in bytes. */
  lemma QueueBounded(states: seq<System>, actions: seq<Action>, k: nat)
    requires IsRun(states, actions) && k < |states|
    ensures var s := states[k];
            var linked, held, reserved := |Join(s.queue.chunks)|, |Held(s.consumer)|, |InFlight(s.producer)|;
            && linked + held + reserved <= s.queue.total <= TOTAL_MAX
            && s.queue.bytes + held <= TOTAL_MAX < SIZE_MAX
            && linked + reserved <= s.queue.bytes + QUEUE_MAX
            && (!s.requeued ==> linked + reserved <= 2 * QUEUE_MAX)
  {
    RunInvariant(states, actions, k);
  }

  // ---------------------------------------------------------------- what is accepted

  /** As long as nothing failed, all that was offered is counted. */
  ghost predicate AllCounted(s: System) {
    !s.queue.failed ==> s.queue.total == |s.offered|
  }

  lemma {:induction false} OfferedCounted(states: seq<System>, actions: seq<Action>, k: nat)
    requires IsRun(states, actions) && k < |states|
    ensures AllCounted(states[k])
  {
    if k > 0 {
      OfferedCounted(states, actions, k - 1);
      assert Step(states[k - 1], actions[k - 1], states[k - 1 + 1]);
    }
  }

  /** A callback gets its chunk reserved if and only if no failure is latched, no more than 64
      MiB are offered in all and no more than 4 MiB are queued; otherwise it ends short. */
  lemma AcceptedIff(states: seq<System>, actions: seq<Action>, i: nat)
    requires IsRun(states, actions) && i < |actions| && actions[i].CallbackReserve?
    ensures var s, t, data := states[i], states[i + 1], actions[i].data;
            if !s.queue.failed && |s.offered| + |data| <= 67108864 && s.queue.bytes + |data| <= 4194304
            then t.producer == Reserved(data) && !t.queue.failed && t.short == s.short
            else t.producer == Idle && t.queue.failed && t.short
  {
    OfferedCounted(states, actions, i);
    assert Step(states[i], actions[i], states[i + 1]);
  }

  /** What makes a stream fail: no memory, a size that overflows, or too much. */
  ghost predicate Cause(s: System, a: Action) {
    || a == AllocationFails || a == CallbackOverflow
    || (a.CallbackReserve? && (|s.offered| + |a.data| > 67108864 || s.queue.bytes + |a.data| > 4194304))
  }

  ghost predicate Failed(s: System) {
    s.short || s.queue.failed || s.producer == Failing
  }

  lemma FailureStarts(s: System, a: Action, t: System)
    requires Step(s, a, t) && AllCounted(s) && Failed(t) && !Failed(s)
    ensures Cause(s, a)
  {
  }

  /** No callback ends short, and no failure is latched, without such a cause. */
  lemma {:induction false} FailureHasCause(states: seq<System>, actions: seq<Action>, k: nat) returns (i: nat)
    requires IsRun(states, actions) && k < |states|
    requires states[k].short || states[k].queue.failed || states[k].producer == Failing
    ensures i < k && Cause(states[i], actions[i])
  {
    hide Step, Cause, AllCounted;
    assert !Failed(states[0]);
    i := k - 1;
    if Failed(states[k - 1]) {
      i := FailureHasCause(states, actions, k - 1);
    } else {
      OfferedCounted(states, actions, k - 1);
      assert Step(states[k - 1], actions[k - 1], states[k - 1 + 1]);
      FailureStarts(states[k - 1], actions[k - 1], states[k]);
    }
  }

  lemma CauseFails(s: System, a: Action, t: System)
    requires Step(s, a, t) && AllCounted(s) && (Failed(s) || Cause(s, a))
    ensures Failed(t)
  {
  }

  lemma FailedEndsShort(s: System, a: Action, t: System)
    requires Step(s, a, t) && Failed(s) && (s.short ==> s.queue.failed)
    ensures a.CallbackReserve? ==> t.short
  {
  }

  /** And every such cause is a failure: the next callback, if there is one, ends short. */
  lemma {:induction false} CauseIsFailure(states: seq<System>, actions: seq<Action>, i: nat, k: nat)
    requires IsRun(states, actions) && i < k < |states| && Cause(states[i], actions[i])
    ensures states[k].short || states[k].queue.failed || states[k].producer == Failing
    ensures k < |actions| && actions[k].CallbackReserve? ==> states[k + 1].short
    decreases k
  {
    hide Step, Cause, AllCounted, Conserves;
    OfferedCounted(states, actions, k - 1);
    assert Step(states[k - 1], actions[k - 1], states[k - 1 + 1]);
    if i < k - 1 {
      CauseIsFailure(states, actions, i, k - 1);
    }
    CauseFails(states[k - 1], actions[k - 1], states[k]);
    if k < |actions| {
      RunInvariant(states, actions, k);
      ShortIsFailed(states[k]);
      assert Step(states[k], actions[k], states[k + 1]);
      FailedEndsShort(states[k], actions[k], states[k + 1]);
    }
  }

  lemma ShortIsFailed(s: System)
    requires Conserves(s)
    ensures s.short ==> s.queue.failed
  {
  }

  // ---------------------------------------------------------------- the byte count

  /** What the byte count counts: a chunk in flight at the last poll is linked uncounted,
      and one that was given up since stays counted. */
  ghost predicate Counted(s: System) {
    s.queue.bytes + s.uncounted == |Join(s.queue.chunks)| + |InFlight(s.producer)| + s.lost
  }

  lemma LinkCounted(s: System, t: System)
    requires Counted(s) && Step(s, LinkChunk, t)
    ensures Counted(t)
  {
    hide Join;
    JoinAppend(s.queue.chunks, [s.producer.data]);
    JoinOne(s.producer.data);
  }

  lemma PutBackCounted(s: System, t: System)
    requires Counted(s) && Step(s, PutBack, t)
    ensures Counted(t)
  {
    hide Join;
    JoinAppend(s.consumer.chunks, s.queue.chunks);
  }

  lemma StepCounted(s: System, a: Action, t: System)
    requires Counted(s) && Step(s, a, t)
    ensures Counted(t)
  {
    match a
    case LinkChunk => LinkCounted(s, t);
    case PutBack => PutBackCounted(s, t);
    case _ =>
  }

  /** The exact byte count in every interleaving. It is the size of the list and of the
      chunk in flight if and only if as much was given up since the last poll as was in
      flight then. */
  lemma {:induction false} CountExactly(states: seq<System>, actions: seq<Action>, k: nat)
    requires IsRun(states, actions) && k < |states|
    ensures var s := states[k];
            var size := |Join(s.queue.chunks)| + |InFlight(s.producer)|;
            && s.queue.bytes + s.uncounted == size + s.lost
            && (s.queue.bytes == size <==> s.uncounted == s.lost)
  {
    hide Step, Join, InFlight;
    if k == 0 {
      NothingCounted(states[0]);
    } else {
      CountExactly(states, actions, k - 1);
      assert Step(states[k - 1], actions[k - 1], states[k - 1 + 1]);
      StepCounted(states[k - 1], actions[k - 1], states[k]);
    }
  }

  lemma NothingCounted(s: System)
    requires Initial(s)
    ensures Counted(s)
  {
  }

  const ONE: Text := [0]

  /** One byte is reserved, the queue is polled, the byte is linked. */
  function Race(k: nat): System {
    var start := System(Queue([], 0, 0, false, false), Idle, Resting, [], [], [], false, false, false, 0, 0);
    match k
    case 0 => start
    case 1 => start.(queue := Queue([], 1, 1, false, false), producer := Reserved(ONE), offered := ONE)
    case 2 =>
      start.(queue := Queue([], 0, 1, false, false), producer := Reserved(ONE), offered := ONE, uncounted := 1)
    case _ => start.(queue := Queue([ONE], 0, 1, false, false), offered := ONE, accepted := ONE, uncounted := 1)
  }

  lemma RaceSteps()
    ensures Step(Race(0), CallbackReserve(ONE), Race(1))
    ensures Step(Race(1), Poll(0), Race(2))
    ensures Step(Race(2), LinkChunk, Race(3))
  {
    EmptyFront([], ONE);
    EmptyFront([], [ONE]);
  }

  /** The byte count is not the size of the list: a detach between reserving and linking
      leaves a linked chunk that is not counted. */
  lemma CountIsNotSize()
    ensures exists states: seq<System>, actions: seq<Action> ::
              && IsRun(states, actions)
              && states[|actions|].queue.bytes == 0 && |Join(states[|actions|].queue.chunks)| == 1
  {
    hide Step, Race, Join;
    var states, actions := [Race(0), Race(1), Race(2), Race(3)], [CallbackReserve(ONE), Poll(0), LinkChunk];
    RaceSteps();
    RaceEnds();
    JoinOne(ONE);
    assert IsRun(states, actions);
    assert states[|actions|] == Race(3);
  }

  lemma RaceEnds()
    ensures Initial(Race(0)) && Race(3).queue.bytes == 0 && Race(3).queue.chunks == [ONE]
  {
  }

  /** The stream is over: the helper is done and everything accepted was delivered. */
  ghost predicate Over(s: System) {
    s.queue.done && s.queue.chunks == [] && s.consumer == Resting && s.delivered == s.accepted
  }

  lemma OverStays(s: System, a: Action, t: System)
    requires Conserves(s) && Over(s) && Step(s, a, t)
    ensures Over(t) && t.delivered == s.delivered && (a.Poll? ==> a.result == 2)
  {
  }

  lemma {:induction false} OverFromHere(states: seq<System>, actions: seq<Action>, i: nat, j: nat)
    requires IsRun(states, actions) && i <= j < |states| && Over(states[i])
    ensures Over(states[j]) && states[j].delivered == states[i].delivered
    decreases j
  {
    hide Over, Step, Conserves;
    if i < j {
      OverFromHere(states, actions, i, j - 1);
      RunInvariant(states, actions, j - 1);
      assert Step(states[j - 1], actions[j - 1], states[j - 1 + 1]);
      OverStays(states[j - 1], actions[j - 1], states[j]);
    }
  }

  /** Poll answers 2 only when the helper is done and everything accepted was delivered,
      and from then on it answers 2 forever and delivers nothing more. */
  lemma DoneIsFinal(states: seq<System>, actions: seq<Action>, i: nat, j: nat)
    requires IsRun(states, actions) && i <= j < |actions|
    requires actions[i] == Poll(2)
    ensures states[i].queue.done && states[i].delivered == states[i].accepted
    ensures states[j + 1].delivered == states[j + 1].accepted == states[i].accepted
    ensures actions[j].Poll? ==> actions[j].result == 2
  {
    RunInvariant(states, actions, i);
    assert Step(states[i], actions[i], states[i + 1]);
    EmptyBack(states[i].delivered, []);
    EmptyBack(states[i].delivered + [], []);
    assert Over(states[i]);
    OverFromHere(states, actions, i, j);
    OverFromHere(states, actions, i, j + 1);
    RunInvariant(states, actions, j);
    assert Step(states[j], actions[j], states[j + 1]);
    OverStays(states[j], actions[j], states[j + 1]);
  }

  function Remaining(s: System): nat {
    |Join(s.queue.chunks)| + |Held(s.consumer)|
  }

  /** Once the helper is done, every handed-out buffer brings the end nearer, even when
      joining keeps failing. */
  lemma DrainProgresses(s: System, a: Action, t: System)
    requires Conserves(s) && s.queue.done && Step(s, a, t)
    ensures t.queue.done && Remaining(t) <= Remaining(s)
    ensures a.JoinDone? || a.JoinFails? ==> Remaining(t) < Remaining(s)
    ensures Remaining(s) == 0 && a.Poll? ==> a.result == 2
  {
    if s.queue.chunks != [] {
      assert s.queue.chunks[0] in s.queue.chunks;
    }
    if !s.consumer.Resting? {
      assert s.consumer.chunks[0] in s.consumer.chunks;
      JoinAppend(s.consumer.chunks, s.queue.chunks);
    }
  }

  /** The polls among the actions from the i-th up to the j-th that give a certain answer. */
  function Answers(actions: seq<Action>, i: nat, j: nat, result: nat): nat
    requires i <= j <= |actions|
    decreases j
  {
    if i == j then 0 else Answers(actions, i, j - 1, result) + if actions[j - 1] == Poll(result) then 1 else 0
  }

  /** What can still be handed out by polls to come. */
  function Potential(s: System): nat
    requires Conserves(s)
  {
    if s.consumer.Holding? then HeldSomething(s); Remaining(s) - 1 else Remaining(s)
  }

  lemma HeldSomething(s: System)
    requires Conserves(s) && s.consumer.Holding?
    ensures Remaining(s) > 0
  {
    assert s.consumer.chunks[0] in s.consumer.chunks;
  }

  lemma PollUsesUp(s: System, a: Action, t: System)
    requires Conserves(s) && Conserves(t) && s.queue.done && Step(s, a, t)
    ensures a.Poll? ==> a.result == 1 || a.result == 2
    ensures Potential(t) + (if a == Poll(1) then 1 else 0) <= Potential(s)
  {
    DrainProgresses(s, a, t);
    if a == Poll(1) {
      assert s.queue.chunks[0] in s.queue.chunks;
    }
  }

  lemma {:induction false} PollsUseUp(states: seq<System>, actions: seq<Action>, i: nat, j: nat)
    requires IsRun(states, actions) && i <= j <= |actions| && states[i].queue.done
    ensures states[j].queue.done && Conserves(states[i]) && Conserves(states[j])
    ensures Answers(actions, i, j, 1) + Potential(states[j]) <= Potential(states[i])
    decreases j
  {
    hide Conserves, Step, Potential;
    RunInvariant(states, actions, j);
    RunInvariant(states, actions, i);
    if i < j {
      PollsUseUp(states, actions, i, j - 1);
      assert Step(states[j - 1], actions[j - 1], states[j - 1 + 1]);
      DrainProgresses(states[j - 1], actions[j - 1], states[j]);
      PollUsesUp(states[j - 1], actions[j - 1], states[j]);
    }
  }

  /** A caller that keeps polling gets its 2: once the helper is done, every poll answers 1
      or 2, and no more polls answer 1 than bytes are left. */
  lemma PollingEnds(states: seq<System>, actions: seq<Action>, i: nat, j: nat)
    requires IsRun(states, actions) && i <= j <= |actions| && states[i].queue.done
    ensures Answers(actions, i, j, 1) <= Remaining(states[i])
    ensures j < |actions| && actions[j].Poll? ==> actions[j].result == 1 || actions[j].result == 2
  {
    hide Step;
    PollsUseUp(states, actions, i, j);
    if j < |actions| {
      assert Step(states[j], actions[j], states[j + 1]);
      RunInvariant(states, actions, j + 1);
      PollUsesUp(states[j], actions[j], states[j + 1]);
    }
  }

  /** finish reports an HTTP status only for a transfer without a short callback; if poll
      has answered 2, the caller then has the whole body. */
  function FinishStatus(s: System, httpStatus: nat): int {
    if s.transferOk then httpStatus else -1
  }

  lemma FinishMeansComplete(states: seq<System>, actions: seq<Action>, i: nat, httpStatus: nat)
    requires IsRun(states, actions) && i < |actions| && actions[i] == Poll(2)
    requires FinishStatus(states[|actions|], httpStatus) >= 0
    ensures states[|actions|].delivered == states[|actions|].offered
  {
    var last := |actions|;
    RunInvariant(states, actions, last);
    DoneIsFinal(states, actions, i, last - 1);
    EmptyBack(states[last].accepted, []);
  }

  /** A status is reported if and only if libcurl ended the transfer well, and otherwise -1. */
  lemma {:induction false} StatusIffEnded(states: seq<System>, actions: seq<Action>, k: nat, httpStatus: nat)
    requires IsRun(states, actions) && k < |states|
    ensures FinishStatus(states[k], httpStatus) ==
            if exists i :: 0 <= i < k && actions[i] == TransferEnds(true) then httpStatus as int else -1
  {
    if k > 0 {
      StatusIffEnded(states, actions, k - 1, httpStatus);
      RunInvariant(states, actions, k - 1);
      assert Step(states[k - 1], actions[k - 1], states[k - 1 + 1]);
    }
  }
}
