/** Whole runs of pushes, deletions and reads: the byte queue is a store of byte strings. */
module StoreRuns {
  import opened Options
  import opened Bytes
  import opened Regions
  import opened FreeLists
  import opened Arena
  import opened Queues

  /** Deletions and reads name an entry by the number of pushes before its own. */
  datatype Op = PushOp(data: seq<byte>) | DeleteOp(k: nat) | GetOp(k: nat)

  datatype Out = Accepted(index: int) | Full | Deleted | Found(data: seq<byte>) | Missing

  datatype Event = Event(op: Op, out: Out)

  /** Operations so far and their outcomes. */
  type History = seq<Event>

  ghost function Pushes(h: History): nat {
    if h == [] then 0 else Pushes(h[..|h| - 1]) + if h[|h| - 1].op.PushOp? then 1 else 0
  }

  /** An entry, and where it is. */
  datatype Slot = Slot(index: int, data: seq<byte>)

  /** What the k-th push stored and where, if it was accepted and has not been deleted since. */
  ghost function Held(h: History, k: nat): Option<Slot> {
    if h == [] then None
    else
      var before, e := h[..|h| - 1], h[|h| - 1];
      if e.op.PushOp? && k == Pushes(before) then (if e.out.Accepted? then Some(Slot(e.out.index, e.op.data)) else None)
      else if e == Event(DeleteOp(k), Deleted) then None
      else Held(before, k)
  }

  /** The entry can be read and deleted: only an empty one at the very end of the arena cannot. */
  ghost predicate Reachable(slot: Option<Slot>, q: State) {
    slot.Some? && (slot.value.data != [] || slot.value.index + HEADER < |q.bytes|)
  }

  /** One operation after a history, on a queue that was never popped. */
  ghost predicate StoreStep(h: History, q: State, op: Op, out: Out, q': State, maxCapacity: int)
  {
    match op
    case PushOp(data) =>
      if Refuses(q, HEADER + |data|, maxCapacity) then out == Full && q' == q
      else
        && out.Accepted? && Pushed(q, data, out.index, q')
        && |q'.bytes| == CapacityAfter(q, HEADER + |data|, maxCapacity)
    case DeleteOp(k) =>
      if Reachable(Held(h, k), q) then
        var index := Held(h, k).value.index;
        out == Deleted && index in q.tiles && q' == q.(tiles := DeletedTiles(q.tiles, index))
      else out == Missing && q' == q
    case GetOp(k) =>
      q' == q && out == if Reachable(Held(h, k), q) then Found(Held(h, k).value.data) else Missing
  }

  /** The entries of the store are those that the history left, each at its own address. */
  ghost predicate Mirrors(h: History, at: map<nat, int>, entries: map<int, seq<byte>>)
  {
    && (forall k: nat :: k in at <==> Held(h, k).Some?)
    && (forall k: nat :: k in at ==>
      at[k] == Held(h, k).value.index && at[k] in entries && entries[at[k]] == Held(h, k).value.data)
    && (forall j: nat, k: nat :: j in at && k in at && at[j] == at[k] ==> j == k)
    && |at| == |entries|
  }

  lemma HeldThen(h: History, op: Op, out: Out, k: nat)
    ensures Pushes(h + [Event(op, out)]) == Pushes(h) + if op.PushOp? then 1 else 0
    ensures Held(h + [Event(op, out)], k) ==
      if op.PushOp? && k == Pushes(h) then (if out.Accepted? then Some(Slot(out.index, op.data)) else None)
      else if op == DeleteOp(k) && out == Deleted then None
      else Held(h, k)
  {
    assert (h + [Event(op, out)])[..|h|] == h;
  }

  lemma {:induction false} HeldPushed(h: History, k: nat)
    requires Held(h, k).Some?
    ensures k < Pushes(h)
    decreases |h|
  {
    if !h[|h| - 1].op.PushOp? || k != Pushes(h[..|h| - 1]) {
      HeldPushed(h[..|h| - 1], k);
    }
  }

  lemma PushMirrors(h: History, at: map<nat, int>, entries: map<int, seq<byte>>, data: seq<byte>, index: int)
    requires Mirrors(h, at, entries) && index !in entries
    ensures Mirrors(h + [Event(PushOp(data), Accepted(index))], at[Pushes(h) := index], entries[index := data])
  {
    hide Held; hide Pushes;
    var n := Pushes(h);
    if n in at {
      HeldPushed(h, n);
    }
    forall k: nat {
      HeldThen(h, PushOp(data), Accepted(index), k);
    }
  }

  lemma DeleteMirrors(h: History, at: map<nat, int>, entries: map<int, seq<byte>>, k: nat)
    requires Mirrors(h, at, entries) && k in at
    ensures Mirrors(h + [Event(DeleteOp(k), Deleted)], at - {k}, entries - {at[k]})
  {
    hide Held; hide Pushes;
    forall j: nat {
      HeldThen(h, DeleteOp(k), Deleted, j);
    }
  }

  /** A refused push, a read, and a deletion of what cannot be reached change nothing. */
  lemma IdleMirrors(h: History, at: map<nat, int>, entries: map<int, seq<byte>>, op: Op, out: Out)
    requires Mirrors(h, at, entries) && !out.Accepted? && out != Deleted
    ensures Mirrors(h + [Event(op, out)], at, entries)
  {
    hide Held; hide Pushes;
    var n := Pushes(h);
    if n in at {
      HeldPushed(h, n);
    }
    forall k: nat {
      HeldThen(h, op, out, k);
    }
  }

  lemma MirroredAt(h: History, at: map<nat, int>, entries: map<int, seq<byte>>, k: nat)
    requires Mirrors(h, at, entries)
    ensures k in at <==> Held(h, k).Some?
    ensures k in at ==> Held(h, k) == Some(Slot(at[k], Held(h, k).value.data)) && at[k] in entries
    ensures k in at ==> entries[at[k]] == Held(h, k).value.data
  {
  }

  // ---------------------------------------------------------------- the queue as a store

  /** A queue that was never popped. */
  ghost predicate Unpopped(q: State) {
    Sound(q) && q.head == LEFT_MARGIN
  }

  /** Without pops the head stays at the left margin, so nothing wraps and nothing is turned round. */
  lemma PushStore(q: State, data: seq<byte>, index: int, q': State)
    requires Unpopped(q) && Pushed(q, data, index, q')
    ensures q'.head == LEFT_MARGIN && index !in LiveIn(q.tiles) && LiveIn(q'.tiles) == LiveIn(q.tiles)[index := data]
  {
    hide Tiling; hide Stored; hide NoneFits; hide LiveIn; hide IdleIn; hide LostIn;
  }

  method Push(queue: BytesQueue, data: seq<byte>) returns (out: Out)
    requires queue.Valid() && Unpopped(queue.St()) && |data| < TWO_32
    modifies queue.Repr()
    ensures queue.Valid() && Unpopped(queue.St()) && fresh(queue.Repr() - old(queue.Repr()))
    ensures if Refuses(old(queue.St()), HEADER + |data|, queue.maxCapacity) then
        out == Full && queue.St() == old(queue.St())
      else
        && out.Accepted? && Pushed(old(queue.St()), data, out.index, queue.St())
        && |queue.St().bytes| == CapacityAfter(old(queue.St()), HEADER + |data|, queue.maxCapacity)
    ensures out == Full ==> queue.Entries() == old(queue.Entries())
    ensures out.Accepted? ==>
      out.index !in old(queue.Entries()) && queue.Entries() == old(queue.Entries())[out.index := data]
  {
    hide Tiling; hide Stored; hide FreeList.Valid; hide FreeList.Free; hide LiveIn; hide IdleIn; hide MustGrow;
    hide Pushed;
    hide Queued; hide Refuses;
    ghost var q := queue.St();
    var index, ok := queue.Push(data);
    if ok {
      PushStore(q, data, index, queue.St());
      out := Accepted(index);
    } else {
      out := Full;
    }
  }

  method Delete(queue: BytesQueue, index: int) returns (out: Out)
    requires queue.Valid() && Unpopped(queue.St()) && index in queue.Entries()
    modifies queue.Repr()
    ensures queue.Valid() && Unpopped(queue.St()) && fresh(queue.Repr() - old(queue.Repr()))
    ensures var q := old(queue.St());
      if Reachable(Some(Slot(index, old(queue.Entries()[index]))), q) then
        && out == Deleted && index in q.tiles && queue.St() == q.(tiles := DeletedTiles(q.tiles, index))
        && queue.Entries() == old(queue.Entries()) - {index}
      else out == Missing && queue.St() == q && queue.Entries() == old(queue.Entries())
  {
    hide Sound; hide FreeList.Valid; hide FreeList.Free; hide DeletedTiles; hide LiveIn; hide IdleIn;
    queue.PeekEntry(index);
    LiveInTiles(queue.tiles, index);
    var ok := queue.Delete(index);
    out := if ok then Deleted else Missing;
  }

  method Get(queue: BytesQueue, index: int) returns (out: Out)
    requires queue.Valid() && index in queue.Entries()
    ensures out ==
      if Reachable(Some(Slot(index, queue.Entries()[index])), queue.St()) then Found(queue.Entries()[index])
      else Missing
  {
    hide Sound; hide FreeList.Valid; hide FreeList.Free; hide BytesQueue.Entries; hide BytesQueue.Valid;
    hide BytesQueue.Peek;
    queue.PeekEntry(index);
    var w := queue.Get(index);
    if w.Window? {
      return Found(queue.arena[w.start..w.start + w.size]);
    }
    return Missing;
  }

  /** One operation after a history; at holds the address of each entry, n the number of pushes. */
  method Step(queue: BytesQueue, op: Op, at: map<nat, int>, n: nat, ghost h: History)
    returns (out: Out, at': map<nat, int>, n': nat)
    requires queue.Valid() && Unpopped(queue.St()) && (op.PushOp? ==> |op.data| < TWO_32)
    requires Mirrors(h, at, queue.Entries()) && n == Pushes(h)
    modifies queue.Repr()
    ensures queue.Valid() && Unpopped(queue.St()) && fresh(queue.Repr() - old(queue.Repr()))
    ensures StoreStep(h, old(queue.St()), op, out, queue.St(), queue.maxCapacity)
    ensures Mirrors(h + [Event(op, out)], at', queue.Entries()) && n' == Pushes(h + [Event(op, out)])
  {
    hide Mirrors; hide Held; hide BytesQueue.Valid; hide BytesQueue.Entries; hide BytesQueue.St; hide Pushes;
    hide Unpopped;
    hide Refuses; hide Pushed; hide DeletedTiles; hide Reachable;
    n', at' := if op.PushOp? then n + 1 else n, at;
    if op.PushOp? {
      out := Push(queue, op.data);
      HeldThen(h, op, out, 0);
      if out.Accepted? {
        PushMirrors(h, at, old(queue.Entries()), op.data, out.index);
        at' := at[n := out.index];
      } else {
        IdleMirrors(h, at, queue.Entries(), op, out);
      }
      return;
    }
    MirroredAt(h, at, queue.Entries(), op.k);
    Unreached(queue.St());
    if op.k !in at {
      out := Missing;
    } else if op.GetOp? {
      out := Get(queue, at[op.k]);
    } else {
      out := Delete(queue, at[op.k]);
      if out == Deleted {
        DeleteMirrors(h, at, old(queue.Entries()), op.k);
        at' := at - {op.k};
      }
    }
    HeldThen(h, op, out, 0);
    if out != Deleted {
      IdleMirrors(h, at, queue.Entries(), op, out);
    }
  }

  lemma Unreached(q: State)
    ensures !Reachable(None, q)
  {
  }

  // ---------------------------------------------------------------- whole runs

  /** qs are the states between the operations. */
  ghost predicate Explains(qs: seq<State>, h: History, maxCapacity: int) {
    && |qs| == |h| + 1 && qs[0].tiles == map[]
    && (forall i :: 0 <= i < |qs| ==> Unpopped(qs[i]))
    && forall i :: 0 <= i < |h| ==> StoreStep(h[..i], qs[i], h[i].op, h[i].out, qs[i + 1], maxCapacity)
  }

  lemma OneMore(qs: seq<State>, h: History, maxCapacity: int, e: Event, q: State)
    requires Explains(qs, h, maxCapacity) && Unpopped(q) && StoreStep(h, qs[|h|], e.op, e.out, q, maxCapacity)
    ensures Explains(qs + [q], h + [e], maxCapacity)
  {
    hide StoreStep; hide Unpopped;
    var h', qs' := h + [e], qs + [q];
    forall i | 0 <= i < |h'| ensures StoreStep(h'[..i], qs'[i], h'[i].op, h'[i].out, qs'[i + 1], maxCapacity) {
      assert h'[..i] == h[..i];
      assert h[..|h|] == h;
    }
  }

  /** A run on queue has come as far as h. */
  ghost predicate Underway(queue: BytesQueue, qs: seq<State>, h: History, at: map<nat, int>, n: nat)
    reads queue, queue.arena, queue.freelist, queue.freelist.at.Keys
  {
    && queue.Valid() && Explains(qs, h, queue.maxCapacity) && qs[|h|] == queue.St()
    && Mirrors(h, at, queue.Entries()) && n == Pushes(h)
  }

  method Advance(queue: BytesQueue, op: Op, at: map<nat, int>, n: nat, ghost qs: seq<State>, ghost h: History)
    returns (out: Out, at': map<nat, int>, n': nat)
    requires Underway(queue, qs, h, at, n) && (op.PushOp? ==> |op.data| < TWO_32)
    modifies queue.Repr()
    ensures fresh(queue.Repr() - old(queue.Repr()))
    ensures Underway(queue, qs + [queue.St()], h + [Event(op, out)], at', n')
  {
    hide Mirrors; hide Held; hide BytesQueue.Valid; hide BytesQueue.Entries; hide BytesQueue.St; hide Pushes;
    hide Unpopped;
    hide StoreStep;
    out, at', n' := Step(queue, op, at, n, h);
    OneMore(qs, h, queue.maxCapacity, Event(op, out), queue.St());
  }

  function Zip(ops: seq<Op>, outs: seq<Out>): (h: History)
    requires |ops| == |outs|
    ensures |h| == |ops| && forall i :: 0 <= i < |h| ==> h[i] == Event(ops[i], outs[i])
  {
    seq(|ops|, i requires 0 <= i < |ops| => Event(ops[i], outs[i]))
  }

  /** qs explains a history on a new queue, and at the end the store holds what the history left. */
  ghost predicate Shows(qs: seq<State>, at: map<nat, int>, h: History, initialCapacity: nat, maxCapacity: int) {
    Explains(qs, h, maxCapacity) && |qs[0].bytes| == initialCapacity && Mirrors(h, at, LiveIn(qs[|h|].tiles))
  }

  /** Every run on a new queue, with or without a limit, answers as its history and the state of the queue say. */
  method Run(ops: seq<Op>, initialCapacity: nat, maxCapacity: int) returns (outs: seq<Out>)
    requires forall i :: 0 <= i < |ops| && ops[i].PushOp? ==> |ops[i].data| < TWO_32
    ensures |outs| == |ops| && exists qs, at :: Shows(qs, at, Zip(ops, outs), initialCapacity, maxCapacity)
  {
    hide Underway; hide Mirrors; hide StoreStep; hide Unpopped; hide BytesQueue.Valid; hide BytesQueue.St;
    hide Explains;
    var queue := new BytesQueue(initialCapacity, maxCapacity);
    outs := [];
    ghost var h: History, qs := [], [queue.St()];
    NewStore(queue);
    var index: map<nat, int>, n := map[], 0;
    while |outs| < |ops|
      invariant |outs| == |h| <= |ops| && forall i :: 0 <= i < |outs| ==> h[i] == Event(ops[i], outs[i])
      invariant Underway(queue, qs, h, index, n) && fresh(queue.Repr())
      invariant |qs| > 0 && |qs[0].bytes| == initialCapacity && queue.maxCapacity == maxCapacity
    {
      var op, out := ops[|outs|], Missing;
      out, index, n := Advance(queue, op, index, n, qs, h);
      outs, h, qs := outs + [out], h + [Event(op, out)], qs + [queue.St()];
    }
    assert h == Zip(ops, outs);
    Finish(queue, qs, h, index, n);
    assert Shows(qs, index, Zip(ops, outs), initialCapacity, maxCapacity);
  }

  lemma NewStore(queue: BytesQueue)
    requires queue.Valid() && queue.tiles == map[] && queue.head == LEFT_MARGIN
    ensures Underway(queue, [queue.St()], [], map[], 0) && |queue.St().bytes| == queue.capacity
  {
    hide Sound; hide FreeList.Valid; hide FreeList.Free;
  }

  lemma Finish(queue: BytesQueue, qs: seq<State>, h: History, at: map<nat, int>, n: nat)
    requires Underway(queue, qs, h, at, n) && |qs| > 0
    ensures Shows(qs, at, h, |qs[0].bytes|, queue.maxCapacity)
  {
    hide Mirrors; hide StoreStep; hide Unpopped; hide BytesQueue.Valid;
  }

  /** In every state of every run, live, free and lost bytes are all the bytes between the left margin and the tail. */
  lemma Accounted(qs: seq<State>, h: History, maxCapacity: int, i: nat)
    requires Explains(qs, h, maxCapacity) && i < |qs|
    ensures var q := qs[i];
      && q.tail >= LEFT_MARGIN
      && Total(LiveExtents(q.tiles)) + Total(IdleIn(q.tiles)) + Total(LostIn(q.tiles)) == q.tail - LEFT_MARGIN
  {
    hide Tiling; hide Stored; hide Total; hide StoreStep;
    Conservation(qs[i]);
  }

  /** The arena never grows past the larger of its first capacity and a positive limit. */
  lemma {:induction false} CapacityBounded(qs: seq<State>, h: History, maxCapacity: int, i: nat)
    requires Explains(qs, h, maxCapacity) && maxCapacity > 0 && i < |qs|
    ensures |qs[i].bytes| <= if |qs[0].bytes| < maxCapacity then maxCapacity else |qs[0].bytes|
  {
    hide Unpopped; hide Held; hide Pushed; hide NoneFits; hide DeletedTiles;
    if i > 0 {
      CapacityBounded(qs, h, maxCapacity, i - 1);
      assert StoreStep(h[..i - 1], qs[i - 1], h[i - 1].op, h[i - 1].out, qs[i], maxCapacity);
    }
  }

  /** What a push stored is held until it is deleted. */
  lemma {:induction false} HeldSince(h: History, i: nat, j: nat)
    requires i < j <= |h| && h[i].op.PushOp? && h[i].out.Accepted?
    requires forall m :: i < m < j ==> h[m] != Event(DeleteOp(Pushes(h[..i])), Deleted)
    ensures Held(h[..j], Pushes(h[..i])) == Some(Slot(h[i].out.index, h[i].op.data))
    ensures Pushes(h[..i]) < Pushes(h[..j])
  {
    hide Held; hide Pushes;
    var k := Pushes(h[..i]);
    assert h[..j] == h[..j - 1] + [Event(h[j - 1].op, h[j - 1].out)];
    HeldThen(h[..j - 1], h[j - 1].op, h[j - 1].out, k);
    if i + 1 < j {
      HeldSince(h, i, j - 1);
    }
  }

  /** Data that is not empty is found, by every read, from its push up to its deletion, whatever happens to the arena
      in between. */
  lemma ReadBack(qs: seq<State>, h: History, maxCapacity: int, i: nat, j: nat)
    requires Explains(qs, h, maxCapacity) && i < j < |h|
    requires h[i].op.PushOp? && h[i].op.data != [] && h[i].out.Accepted? && h[j].op == GetOp(Pushes(h[..i]))
    requires forall m :: i < m < j ==> h[m] != Event(DeleteOp(Pushes(h[..i])), Deleted)
    ensures h[j].out == Found(h[i].op.data)
  {
    hide Unpopped; hide Held; hide Pushes; hide Pushed; hide MustGrow;
    HeldSince(h, i, j);
    assert StoreStep(h[..j], qs[j], h[j].op, h[j].out, qs[j + 1], maxCapacity);
  }

  /** What is deleted stays deleted. */
  lemma {:induction false} GoneSince(h: History, i: nat, j: nat, k: nat)
    requires i < j <= |h| && h[i] == Event(DeleteOp(k), Deleted) && k < Pushes(h[..i])
    ensures Held(h[..j], k) == None && k < Pushes(h[..j])
  {
    hide Held; hide Pushes;
    assert h[..j] == h[..j - 1] + [Event(h[j - 1].op, h[j - 1].out)];
    HeldThen(h[..j - 1], h[j - 1].op, h[j - 1].out, k);
    if i + 1 < j {
      GoneSince(h, i, j - 1, k);
    }
  }

  /** After its deletion, nothing reads or deletes an entry again, though its bytes may hold other entries. */
  lemma GoneForGood(qs: seq<State>, h: History, maxCapacity: int, i: nat, j: nat, k: nat)
    requires Explains(qs, h, maxCapacity) && i < j < |h| && h[i] == Event(DeleteOp(k), Deleted)
    requires h[j].op == GetOp(k) || h[j].op == DeleteOp(k)
    ensures h[j].out == Missing
  {
    hide Unpopped; hide Held; hide Pushes; hide Pushed; hide MustGrow; hide DeletedTiles;
    assert StoreStep(h[..i], qs[i], h[i].op, h[i].out, qs[i + 1], maxCapacity);
    HeldPushed(h[..i], k);
    GoneSince(h, i, j, k);
    assert StoreStep(h[..j], qs[j], h[j].op, h[j].out, qs[j + 1], maxCapacity);
  }
}
