/**
 The stream object itself: a linked list of chunk nodes on the heap. Each method is one
 critical section (or the code between two) and is proved against HttpQueue.
 */
module HttpStream {
  import opened Bytes
  import opened Seqs
  import opened HttpQueue

  class ChunkNode {
    const data: Text
    var next: ChunkNode?

    constructor (data: Text)
      ensures this.data == data && next == null
    {
      this.data := data;
      next := null;
    }
  }

  ghost predicate Distinct(nodes: seq<ChunkNode>) {
    forall i, j :: 0 <= i < j < |nodes| ==> nodes[i] != nodes[j]
  }

  lemma DistinctAppend(a: seq<ChunkNode>, b: seq<ChunkNode>)
    requires Distinct(a) && Distinct(b) && forall n :: n in a ==> n !in b
    ensures Distinct(a + b)
  {
    forall i, j | 0 <= i < j < |a + b|
      ensures (a + b)[i] != (a + b)[j]
    {
      if i < |a| <= j {
        assert a[i] in a && b[j - |a|] in b;
      }
    }
  }

  lemma AfterAppend(a: seq<ChunkNode>, b: seq<ChunkNode>)
    ensures forall i :: 0 <= i < |a| - 1 ==> After(a + b, i) == After(a, i)
    ensures a != [] ==> After(a + b, |a| - 1) == if b == [] then null else b[0]
    ensures forall i :: |a| <= i < |a| + |b| ==> After(a + b, i) == After(b, i - |a|)
  {
  }

  /** nodes is the list that starts at head. */
  ghost predicate IsList(head: ChunkNode?, nodes: seq<ChunkNode>)
    reads nodes
  {
    && (head == null <==> nodes == [])
    && (nodes != [] ==> head == nodes[0])
    && Distinct(nodes)
    && (forall i :: 0 <= i < |nodes| ==> nodes[i].next == After(nodes, i))
  }

  /** The node that follows position i. */
  function After(nodes: seq<ChunkNode>, i: nat): ChunkNode? {
    if i + 1 < |nodes| then nodes[i + 1] else null
  }

  function Chunks(nodes: seq<ChunkNode>): (chunks: seq<Text>)
    ensures |chunks| == |nodes|
    ensures forall i :: 0 <= i < |nodes| ==> chunks[i] == nodes[i].data
  {
    seq(|nodes|, i requires 0 <= i < |nodes| => nodes[i].data)
  }

  /** Every node but the last points to the next one. */
  ghost predicate Linked(nodes: seq<ChunkNode>)
    reads nodes
  {
    forall i :: 0 <= i < |nodes| - 1 ==> nodes[i].next == nodes[i + 1]
  }

  lemma ListLinks(head: ChunkNode?, nodes: seq<ChunkNode>)
    requires IsList(head, nodes)
    ensures Linked(nodes) && (nodes != [] ==> nodes[|nodes| - 1].next == null)
  {
    forall i | 0 <= i < |nodes|
      ensures nodes[i].next == After(nodes, i)
    {
    }
  }

  lemma SingleNode(node: ChunkNode)
    ensures Distinct([node]) && Linked([node]) && Chunks([node]) == [node.data]
    ensures node.next == null ==> IsList(node, [node])
  {
  }

  lemma LinksBefore(list: seq<ChunkNode>)
    requires Distinct(list) && list != []
    ensures forall i :: 0 <= i < |list| - 1 ==> list[i] != list[|list| - 1]
  {
  }

  lemma RejoinedIsList(list: seq<ChunkNode>, rest: seq<ChunkNode>)
    requires list != [] && Distinct(list + rest)
    requires Linked(list) && list[|list| - 1].next == (if rest == [] then null else rest[0])
    requires Linked(rest) && (rest != [] ==> rest[|rest| - 1].next == null)
    ensures IsList(list[0], list + rest)
  {
    var nodes := list + rest;
    AfterAppend(list, rest);
    forall i | 0 <= i < |nodes|
      ensures nodes[i].next == After(nodes, i)
    {
      if i < |list| - 1 {
        assert list[i].next == list[i + 1];
      } else if |list| <= i < |nodes| - 1 {
        assert rest[i - |list|].next == rest[i - |list| + 1];
      }
    }
  }

  lemma ChunksAppend(a: seq<ChunkNode>, b: seq<ChunkNode>)
    ensures Chunks(a + b) == Chunks(a) + Chunks(b)
  {
  }

  /** A list that the consumer holds, apart from the nodes of the queue. */
  ghost predicate HeldApart(head: ChunkNode?, held: seq<ChunkNode>, nodes: seq<ChunkNode>)
    reads held
  {
    IsList(head, held) && forall n :: n in held ==> n !in nodes
  }

  class Stream {
    var queueHead: ChunkNode?
    var queueTail: ChunkNode?
    var queueBytes: nat
    var totalBytes: nat
    var done: bool
    var writeFailed: bool
    ghost var nodes: seq<ChunkNode>

    ghost predicate Valid()
      reads this, nodes
    {
      && IsList(queueHead, nodes)
      && queueTail == (if nodes == [] then null else nodes[|nodes| - 1])
    }

    ghost function View(): Queue
      reads this, nodes
    {
      Queue(Chunks(nodes), queueBytes, totalBytes, done, writeFailed)
    }

    constructor ()
      ensures Valid() && View() == Queue([], 0, 0, false, false) && nodes == []
    {
      queueHead, queueTail, queueBytes, totalBytes := null, null, 0, 0;
      done, writeFailed, nodes := false, false, [];
    }

    predicate WouldExceed(len: nat)
      reads this
    {
      if len > TOTAL_MAX then true
      else if totalBytes > TOTAL_MAX - len then true
      else if len > QUEUE_MAX then true
      else queueBytes > QUEUE_MAX - len
    }

    /** First critical section of a push. */
    method ReserveLocked(len: nat) returns (ok: bool)
      requires Valid()
      modifies `queueBytes, `totalBytes, `writeFailed
      ensures Valid() && nodes == old(nodes)
      ensures View() == Reserve(old(View()), len) && ok == !Rejects(old(View()), len)
      ensures ok <==> !old(writeFailed) && old(totalBytes) + len <= 67108864 && old(queueBytes) + len <= 4194304
      ensures writeFailed <==> !ok
      ensures ok ==> totalBytes == old(totalBytes) + len && queueBytes == old(queueBytes) + len
    {
      if writeFailed || WouldExceed(len) {
        writeFailed := true;
        return false;
      }
      totalBytes := totalBytes + len;
      queueBytes := queueBytes + len;
      return true;
    }

    /** Second critical section of a push. A list that the consumer has detached meanwhile
        stays a list of its own. */
    method LinkLocked(node: ChunkNode, ghost head: ChunkNode?, ghost held: seq<ChunkNode>)
      requires Valid() && node !in nodes && node.next == null
      requires HeldApart(head, held, nodes) && node !in held
      modifies `queueHead, `queueTail, `nodes, nodes
      ensures Valid() && nodes == old(nodes) + [node] && HeldApart(head, held, nodes)
      ensures View() == Link(old(View()), node.data)
    {
      hide Distinct, Chunks, After;
      ghost var before := nodes;
      SingleNode(node);
      ChunksAppend(before, [node]);
      ListLinks(queueHead, before);
      if queueTail == null {
        EmptyFront(before, [node]);
        queueHead := node;
      } else {
        DistinctAppend(before, [node]);
        LinksBefore(before);
        queueTail.next := node;
        RejoinedIsList(before, [node]);
      }
      queueTail := node;
      nodes := before + [node];
      forall i | 0 <= i < |held|
        ensures held[i].next == old(held[i].next)
      {
        assert held[i] in held;
      }
    }

    method PushFailLocked()
      requires Valid()
      modifies `writeFailed
      ensures Valid() && View() == Fail(old(View())) && nodes == old(nodes)
    {
      writeFailed := true;
    }

    /** A push that nothing interrupts. Between its critical sections another thread may
        run; HttpQueue.Step has the sections as separate actions. */
    method Push(data: Text, gotBuffer: bool, ghost head: ChunkNode?, ghost held: seq<ChunkNode>) returns (ok: bool)
      requires Valid() && HeldApart(head, held, nodes)
      modifies `queueHead, `queueTail, `queueBytes, `totalBytes, `writeFailed, `nodes, nodes
      ensures Valid() && HeldApart(head, held, nodes)
      ensures ok == (data == [] || (gotBuffer && !Rejects(old(View()), |data|)))
      ensures data != [] ==>
                (ok <==> gotBuffer && !old(writeFailed)
                         && old(totalBytes) + |data| <= 67108864 && old(queueBytes) + |data| <= 4194304)
      ensures ok ==> Chunks(nodes) == old(Chunks(nodes)) + (if data == [] then [] else [data])
      ensures !ok ==> writeFailed && nodes == old(nodes)
      ensures View() == if data == [] then old(View())
                        else if Rejects(old(View()), |data|) then Fail(old(View()))
                        else if gotBuffer then Link(Reserve(old(View()), |data|), data)
                        else Fail(Reserve(old(View()), |data|))
    {
      if |data| == 0 {
        return true;
      }
      ok := ReserveLocked(|data|);
      if !ok {
        return false;
      }
      if !gotBuffer {
        PushFailLocked();
        return false;
      }
      var node := new ChunkNode(data);
      LinkLocked(node, head, held);
      return true;
    }

    /** The libcurl write callback: anything but size * nmemb tells libcurl to fail. */
    method WriteCallback(data: Text, size: nat, nmemb: nat, gotBuffer: bool,
                         ghost head: ChunkNode?, ghost held: seq<ChunkNode>) returns (count: nat)
      requires Valid() && size * nmemb == |data| && HeldApart(head, held, nodes)
      modifies `queueHead, `queueTail, `queueBytes, `totalBytes, `writeFailed, `nodes, nodes
      ensures Valid() && HeldApart(head, held, nodes)
      ensures count == |data| || (count == 0 && writeFailed)
      ensures count == |data| > 0 ==> View() == Link(Reserve(old(View()), |data|), data)
      ensures gotBuffer && |data| > 0 ==>
                (count == |data| <==> !old(writeFailed) && old(totalBytes) + |data| <= 67108864
                                      && old(queueBytes) + |data| <= 4194304)
      ensures |data| > SIZE_MAX ==> count == 0 && View() == Fail(old(View()))
    {
      hide Chunks, IsList;
      if size != 0 && nmemb > SIZE_MAX / size {
        ProductOverflows(size, nmemb);
        PushFailLocked();
        return 0;
      }
      if size != 0 {
        ProductFits(size, nmemb);
      }
      var ok := Push(data, gotBuffer, head, held);
      count := if ok then size * nmemb else 0;
    }

    method CompleteLocked()
      requires Valid()
      modifies `done
      ensures Valid() && View() == Complete(old(View())) && nodes == old(nodes)
    {
      done := true;
    }

    method DetachLocked() returns (head: ChunkNode?, ghost list: seq<ChunkNode>)
      requires Valid()
      modifies `queueHead, `queueTail, `queueBytes, `nodes
      ensures Valid() && View() == Detach(old(View())) && nodes == []
      ensures list == old(nodes) && HeldApart(head, list, nodes)
    {
      head, list := queueHead, nodes;
      queueHead := null;
      queueTail := null;
      queueBytes := 0;
      nodes := [];
    }

    /** The critical section of poll. */
    method PollLocked() returns (result: nat, head: ChunkNode?, ghost list: seq<ChunkNode>)
      requires Valid()
      modifies `queueHead, `queueTail, `queueBytes, `nodes
      ensures Valid() && View() == Detach(old(View())) && nodes == []
      ensures list == old(nodes) && HeldApart(head, list, nodes)
      ensures result == PollResult(old(View()))
      ensures result == if list != [] then 1 else if old(done) then 2 else 0
      ensures queueBytes == 0 && totalBytes == old(totalBytes)
    {
      head, list := DetachLocked();
      result := if head != null then 1 else if done then 2 else 0;
    }

    /** The critical section of a re-queue; tail is the last node of the list. */
    method RequeueLocked(head: ChunkNode, tail: ChunkNode, bytes: nat, ghost list: seq<ChunkNode>)
      requires Valid() && IsList(head, list) && tail == list[|list| - 1]
      requires forall n :: n in list ==> n !in nodes
      modifies `queueHead, `queueTail, `queueBytes, `nodes, tail
      ensures Valid() && nodes == list + old(nodes)
      ensures View() == Requeue(old(View()), Chunks(list), bytes)
    {
      hide Distinct, Chunks, After;
      ghost var rest := nodes;
      DistinctAppend(list, rest);
      ChunksAppend(list, rest);
      ListLinks(head, list);
      ListLinks(queueHead, rest);
      assert rest != [] ==> rest[|rest| - 1] in rest;
      LinksBefore(list);
      tail.next := queueHead;
      assert Linked(rest);
      RejoinedIsList(list, rest);
      queueHead := head;
      if queueTail == null {
        queueTail := tail;
      }
      queueBytes := queueBytes + bytes;
      nodes := list + rest;
    }

    /** Puts a detached list back in front of what was linked meanwhile. */
    method RequeueFront(head: ChunkNode?, bytes: nat, ghost list: seq<ChunkNode>)
      requires Valid() && HeldApart(head, list, nodes)
      modifies `queueHead, `queueTail, `queueBytes, `nodes, list
      ensures Valid() && nodes == list + old(nodes)
      ensures head != null ==> View() == Requeue(old(View()), Chunks(list), bytes)
      ensures head == null ==> View() == old(View())
    {
      hide Distinct, Chunks, After;
      if head == null {
        EmptyFront(list, nodes);
        return;
      }
      var tail := LastNode(head, list);
      RequeueLocked(head, tail, bytes, list);
    }

    /** Joins a detached list into one buffer, or, if there is no memory for it, hands out
        the first chunk and puts the others back. */
    method ChunkListJoin(head: ChunkNode, gotBuffer: bool, ghost list: seq<ChunkNode>) returns (out: Text)
      requires Valid() && HeldApart(head, list, nodes)
      modifies `queueHead, `queueTail, `queueBytes, `nodes, list
      ensures Valid()
      ensures gotBuffer || |list| == 1 ==> out == Join(Chunks(list)) && View() == old(View()) && nodes == old(nodes)
      ensures !gotBuffer && |list| > 1 ==>
                && out == Chunks(list)[0]
                && nodes == list[1..] + old(nodes)
                && View() == Requeue(old(View()), Chunks(list)[1..], |Join(Chunks(list)[1..])|)
    {
      assert list[0].next == After(list, 0);
      if head.next == null {
        JoinOne(head.data);
        assert Chunks(list) == [head.data];
        return head.data;
      }
      var total := ListBytes(head, list);
      if !gotBuffer {
        var restBytes := total - |head.data|;
        assert Chunks(list)[1..] == Chunks(list[1..]);
        TailIsList(head, list);
        RequeueFront(head.next, restBytes, list[1..]);
        return head.data;
      }
      out := CopyList(head, list);
    }
  }

  /** The division test of the callback lets no product through that does not fit. */
  lemma ProductFits(size: nat, nmemb: nat)
    requires size != 0 && nmemb <= SIZE_MAX / size
    ensures size * nmemb <= SIZE_MAX
  {
    assert size * nmemb <= size * (SIZE_MAX / size);
  }

  lemma ProductOverflows(size: nat, nmemb: nat)
    requires size != 0 && nmemb > SIZE_MAX / size
    ensures size * nmemb > SIZE_MAX
  {
    var q := SIZE_MAX / size;
    assert size * nmemb >= size * (q + 1);
    assert SIZE_MAX < size * q + size;
  }

  /** Walks to the end of a list. */
  method LastNode(head: ChunkNode, ghost list: seq<ChunkNode>) returns (tail: ChunkNode)
    requires IsList(head, list)
    ensures tail == list[|list| - 1] && tail.next == null
  {
    tail := head;
    ghost var k := 0;
    assert list[0].next == After(list, 0);
    while tail.next != null
      invariant 0 <= k < |list| && tail == list[k] && tail.next == After(list, k)
      decreases |list| - k
    {
      k := k + 1;
      tail := tail.next;
      assert list[k].next == After(list, k);
    }
  }

  lemma TailIsList(head: ChunkNode, list: seq<ChunkNode>)
    requires IsList(head, list) && |list| > 1
    ensures IsList(head.next, list[1..])
  {
    var tail := list[1..];
    assert list[0].next == After(list, 0);
    forall i | 0 <= i < |tail|
      ensures tail[i].next == After(tail, i)
    {
      assert list[i + 1].next == After(list, i + 1);
    }
  }

  /** Sums the lengths of a list. */
  method ListBytes(head: ChunkNode, ghost list: seq<ChunkNode>) returns (total: nat)
    requires IsList(head, list)
    ensures total == |Join(Chunks(list))|
  {
    total := 0;
    var node: ChunkNode? := head;
    ghost var k := 0;
    while node != null
      invariant 0 <= k <= |list| && node == (if k < |list| then list[k] else null)
      invariant |Join(Chunks(list))| == total + |Join(Chunks(list)[k..])|
      decreases |list| - k
    {
      assert Chunks(list)[k..][1..] == Chunks(list)[k + 1..];
      assert list[k].next == After(list, k);
      total := total + |node.data|;
      node := node.next;
      k := k + 1;
    }
  }

  /** Copies a list into one buffer, node after node. */
  method CopyList(head: ChunkNode, ghost list: seq<ChunkNode>) returns (out: Text)
    requires IsList(head, list)
    ensures out == Join(Chunks(list))
  {
    out := [];
    var node: ChunkNode? := head;
    ghost var k := 0;
    EmptyFront([], Join(Chunks(list)));
    while node != null
      invariant 0 <= k <= |list| && node == (if k < |list| then list[k] else null)
      invariant Join(Chunks(list)) == out + Join(Chunks(list)[k..])
      decreases |list| - k
    {
      assert Chunks(list)[k..][1..] == Chunks(list)[k + 1..];
      assert list[k].next == After(list, k);
      Assoc(out, node.data, Join(Chunks(list)[k + 1..]));
      out := out + node.data;
      node := node.next;
      k := k + 1;
    }
    EmptyBack(out, []);
  }
}
