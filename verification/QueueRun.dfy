/** Whole runs of pushes and pops: the byte queue is a sequence, first in, first out, until it grows while wrapped. */
module QueueRuns {
  import opened Bytes
  import opened Regions
  import opened FreeLists
  import opened Arena
  import opened Queues

  datatype RingOp = PushOp(data: seq<byte>) | PopOp

  datatype RingOut = Accepted(index: int) | Full | Front(data: seq<byte>) | Empty

  /** A queue that holds entries only, all of them in the sequence, and some on each side when it is wrapped. */
  ghost predicate Counted(q: State) {
    && Sound(q) && AllLive(q.tiles) && |LiveIn(q.tiles)| == |Ring(q)|
    && (q.tail < q.head ==> LEFT_MARGIN < q.tail)
  }

  /** The newer entries, from the k-th on, in front of the older ones, with n zeros between. */
  ghost function TurnedRound(queue: seq<seq<byte>>, k: nat, n: nat): seq<seq<byte>>
    requires k <= |queue|
  {
    queue[k..] + [Zeros(n)] + queue[..k]
  }

  /** The number of entries of a wrapped queue that are at its right end. */
  ghost function Older(q: State): nat {
    |Walk(q.tiles, q.head, q.right)|
  }

  /** A push appends; if the queue has to grow while it is wrapped, it is turned round first, where it wraps, and at
      least one entry is on each side. */
  ghost predicate Appends(q: State, data: seq<byte>, q': State) {
    if Rotates(q, HEADER + |data|) then
      && 0 < Older(q) < |Ring(q)| && 32 <= q.head - q.tail - HEADER
      && Ring(q') == TurnedRound(Ring(q), Older(q), q.head - q.tail - HEADER) + [data]
    else Ring(q') == Ring(q) + [data]
  }

  ghost predicate Accepts(q: State, data: seq<byte>, index: int, q': State, maxCapacity: int) {
    && Pushed(q, data, index, q') && Appends(q, data, q')
    && |q'.bytes| == CapacityAfter(q, HEADER + |data|, maxCapacity)
  }

  /** A pop takes the front; an empty entry that ends at the end of the arena cannot be taken. */
  ghost predicate Takes(q: State, out: RingOut, q': State) {
    if Ring(q) != [] && q.head + HEADER < |q.bytes| then
      && out.Front? && Ring(q) == [out.data] + Ring(q')
      && q.head in q.tiles && q' == Popped(q) && q.tiles[q.head] == Live(out.data)
    else out == Empty && q' == q && (Ring(q) == [] || Ring(q)[0] == [])
  }

  ghost predicate RingStep(q: State, op: RingOp, out: RingOut, q': State, maxCapacity: int) {
    match op
    case PushOp(data) =>
      if Refuses(q, HEADER + |data|, maxCapacity) then out == Full && q' == q
      else out.Accepted? && Accepts(q, data, out.index, q', maxCapacity)
    case PopOp => Takes(q, out, q')
  }

  /** A wrapped queue has entries on both sides. */
  lemma WrappedBoth(q: State)
    requires Counted(q) && q.tail < q.head
    ensures 0 < Older(q) < |Ring(q)|
  {
    hide Tiling; hide Stored;
    var s := RunsNotEmpty(q);
    HeadTile(q, s);
    LeftTile(q);
    WalkStep(q.tiles, q.head, q.right);
    WalkStep(q.tiles, LEFT_MARGIN, q.tail);
  }

  /** A wrapped queue is turned round at the place where it wraps. */
  lemma RotatedTurnsRound(q: State)
    requires Counted(q) && q.tail < q.head
    ensures 0 < Older(q) < |Ring(q)| && 32 <= q.head - q.tail - HEADER
    ensures Rotated(q) == TurnedRound(Ring(q), Older(q), q.head - q.tail - HEADER)
  {
    hide Tiling; hide Stored; hide Walk;
    WrappedBoth(q);
    var older, newer := Walk(q.tiles, q.head, q.right), Walk(q.tiles, LEFT_MARGIN, q.tail);
    assert Ring(q)[|older|..] == newer && Ring(q)[..|older|] == older;
  }

  lemma PushRing(q: State, data: seq<byte>, index: int, q': State)
    requires Counted(q) && Sound(q') && q.head - q.tail < TWO_32
    requires Pushed(q, data, index, q') && Queued(q, data, q')
    ensures Counted(q') && Appends(q, data, q')
  {
    hide Ring; hide AllLive; hide TurnedRound; hide MustGrow; hide Rotated; hide Tiling; hide Stored; hide Pushed;
    hide LiveIn; hide Older;
    PushCount(q, data, index, q');
    PushWraps(q, data, index, q');
    if Rotates(q, HEADER + |data|) {
      TurnsWrapped(q, HEADER + |data|);
      RotatedTurnsRound(q);
    }
  }

  lemma TurnsWrapped(q: State, n: int)
    requires Rotates(q, n)
    ensures q.tail < q.head
  {
  }

  /** A push that wraps writes at the left margin. */
  lemma PushWraps(q: State, data: seq<byte>, index: int, q': State)
    requires Counted(q) && Pushed(q, data, index, q')
    ensures q'.tail < q'.head ==> LEFT_MARGIN < q'.tail
    ensures q.head == LEFT_MARGIN <= q.tail || Rotates(q, HEADER + |data|) ==> q'.head == LEFT_MARGIN <= q'.tail
  {
    hide Tiling; hide Stored; hide NoneFits; hide LiveIn; hide IdleIn; hide LostIn; hide Ring; hide Base; hide Taken;
  }

  /** The number of entries goes up by one, and by one more for the zeros when the queue is turned round. */
  lemma PushCount(q: State, data: seq<byte>, index: int, q': State)
    requires Counted(q) && q.head - q.tail < TWO_32
    requires Pushed(q, data, index, q') && Queued(q, data, q')
    ensures |LiveIn(q'.tiles)| == |Ring(q')|
  {
    hide Sound; hide AllLive; hide MustGrow; hide LiveIn; hide IdleIn; hide LostIn; hide Walk; hide Placed;
    if Rotates(q, HEADER + |data|) {
      Bridge(q);
      LiveInTiles(q.tiles, q.tail);
    }
  }

  /** The front of the queue is the entry at its head. */
  lemma FrontEntry(q: State)
    requires Counted(q) && |LiveIn(q.tiles)| > 0
    ensures q.head in LiveIn(q.tiles) && q.head in q.tiles && q.tiles[q.head] == Live(LiveIn(q.tiles)[q.head])
    ensures Ring(q) == [LiveIn(q.tiles)[q.head]] + Ring(Popped(q))
    ensures Counted(Popped(q))
  {
    hide Tiling; hide Stored; hide IdleIn; hide LostIn; hide Walk;
    if q.head == q.tail {
      WalkEmpty(q.tiles, q.head);
      assert false;
    }
    var s := RunsNotEmpty(q);
    HeadTile(q, s);
    LiveTile(q.tiles, q.head);
    RingPop(q);
    PopFront(q);
  }

  lemma NoEntries(q: State)
    requires Counted(q)
    ensures Ring(q) == [] <==> |LiveIn(q.tiles)| == 0
    ensures Layout(q)
  {
  }

  method Push(queue: BytesQueue, data: seq<byte>) returns (out: RingOut)
    requires queue.Valid() && Counted(queue.St()) && |data| < TWO_32 && queue.head - queue.tail < TWO_32
    modifies queue.Repr()
    ensures queue.Valid() && Counted(queue.St()) && fresh(queue.Repr() - old(queue.Repr()))
    ensures RingStep(old(queue.St()), PushOp(data), out, queue.St(), queue.maxCapacity)
  {
    hide Counted; hide Ring; hide Tiling; hide Stored; hide FreeList.Valid; hide FreeList.Free; hide Refuses;
    hide Pushed; hide Queued; hide Appends; hide LiveIn; hide IdleIn; hide Grown;
    ghost var q := queue.St();
    var index, ok := queue.Push(data);
    if ok {
      PushRing(q, data, index, queue.St());
      out := Accepted(index);
    } else {
      out := Full;
    }
  }

  method Pop(queue: BytesQueue) returns (out: RingOut)
    requires queue.Valid() && Counted(queue.St())
    modifies queue
    ensures queue.Valid() && Counted(queue.St())
    ensures queue.arena == old(queue.arena) && queue.capacity == old(queue.capacity)
    ensures RingStep(old(queue.St()), PopOp, out, queue.St(), queue.maxCapacity)
  {
    hide Counted; hide Ring; hide Sound; hide FreeList.Valid; hide FreeList.Free; hide LiveIn; hide IdleIn;
    hide Arena.Popped; hide AllLive;
    ghost var q := queue.St();
    NoEntries(q);
    if queue.count > 0 {
      FrontEntry(q);
      queue.PeekEntry(queue.head);
    }
    var data, ok := queue.Pop();
    out := if ok then Front(data) else Empty;
  }

  /** qs are the states between the operations, starting with an empty queue. */
  ghost predicate Explains(qs: seq<State>, ops: seq<RingOp>, outs: seq<RingOut>, maxCapacity: int) {
    && |outs| <= |ops| && |qs| == |outs| + 1
    && Ring(qs[0]) == [] && qs[0].head == LEFT_MARGIN && qs[0].tail == LEFT_MARGIN
    && (forall i :: 0 <= i < |qs| ==> Counted(qs[i]))
    && forall i :: 0 <= i < |outs| ==> RingStep(qs[i], ops[i], outs[i], qs[i + 1], maxCapacity)
  }

  lemma OneMore(qs: seq<State>, ops: seq<RingOp>, outs: seq<RingOut>, maxCapacity: int, out: RingOut, q: State)
    requires Explains(qs, ops, outs, maxCapacity) && |outs| < |ops| && Counted(q)
    requires RingStep(qs[|outs|], ops[|outs|], out, q, maxCapacity)
    ensures Explains(qs + [q], ops, outs + [out], maxCapacity)
  {
    hide RingStep; hide Counted; hide Ring;
  }

  /** qs explains the outcomes of a run on a new queue, which stops early only before a push while the gap of the
      wrapped queue is too large for a length of 32 bits. */
  ghost predicate Shows(qs: seq<State>, ops: seq<RingOp>, outs: seq<RingOut>, initialCapacity: nat, maxCapacity: int) {
    && Explains(qs, ops, outs, maxCapacity) && |qs[0].bytes| == initialCapacity
    && (|outs| < |ops| ==> ops[|outs|].PushOp? && qs[|outs|].head - qs[|outs|].tail >= TWO_32)
  }

  /** Every run of pushes and pops on a new queue is a run of a sequence. */
  method Run(ops: seq<RingOp>, initialCapacity: nat, maxCapacity: int) returns (outs: seq<RingOut>)
    requires forall i :: 0 <= i < |ops| && ops[i].PushOp? ==> |ops[i].data| < TWO_32
    ensures exists qs :: Shows(qs, ops, outs, initialCapacity, maxCapacity)
  {
    hide Counted; hide RingStep; hide Ring; hide BytesQueue.Valid; hide BytesQueue.St;
    var queue := new BytesQueue(initialCapacity, maxCapacity);
    NewQueue(queue);
    outs := [];
    ghost var qs := [queue.St()];
    while |outs| < |ops|
      invariant queue.Valid() && Counted(queue.St()) && fresh(queue.Repr())
      invariant Explains(qs, ops, outs, maxCapacity) && qs[|outs|] == queue.St() && |qs[0].bytes| == initialCapacity
    {
      var op, out := ops[|outs|], Empty;
      if op.PushOp? {
        Ends(queue);
        if queue.head - queue.tail >= TWO_32 {
          assert Shows(qs, ops, outs, initialCapacity, maxCapacity);
          return;
        }
        out := Push(queue, op.data);
      } else {
        out := Pop(queue);
      }
      OneMore(qs, ops, outs, maxCapacity, out, queue.St());
      outs, qs := outs + [out], qs + [queue.St()];
    }
    assert Shows(qs, ops, outs, initialCapacity, maxCapacity);
  }

  lemma Ends(queue: BytesQueue)
    ensures queue.St().head == queue.head && queue.St().tail == queue.tail
  {
  }

  lemma NewQueue(queue: BytesQueue)
    requires queue.Valid() && queue.tiles == map[] && queue.head == LEFT_MARGIN && queue.tail == LEFT_MARGIN
    ensures var q := queue.St();
      Counted(q) && Ring(q) == [] && |q.bytes| == queue.capacity && q.head == LEFT_MARGIN && q.tail == LEFT_MARGIN
  {
    hide Sound; hide FreeList.Valid; hide FreeList.Free;
  }

  // ---------------------------------------------------------------- what a run of pushes and pops amounts to

  /** The arena never grows past the larger of its first capacity and a positive limit. */
  lemma {:induction false} CapacityBounded(qs: seq<State>, ops: seq<RingOp>, outs: seq<RingOut>, maxCapacity: int,
                                           i: nat)
    requires Explains(qs, ops, outs, maxCapacity) && maxCapacity > 0 && i < |qs|
    ensures |qs[i].bytes| <= if |qs[0].bytes| < maxCapacity then maxCapacity else |qs[0].bytes|
  {
    hide Counted; hide Ring; hide Pushed; hide Appends; hide NoneFits;
    if i > 0 {
      CapacityBounded(qs, ops, outs, maxCapacity, i - 1);
      assert RingStep(qs[i - 1], ops[i - 1], outs[i - 1], qs[i], maxCapacity);
    }
  }

  /** The data of the accepted pushes, in order. */
  ghost function Given(ops: seq<RingOp>, outs: seq<RingOut>): seq<seq<byte>>
    requires |outs| <= |ops|
  {
    if outs == [] then []
    else
      var n := |outs| - 1;
      Given(ops, outs[..n]) + GivenBy(ops[n], outs[n])
  }

  ghost function GivenBy(op: RingOp, out: RingOut): seq<seq<byte>> {
    if op.PushOp? && out.Accepted? then [op.data] else []
  }

  /** The data that the pops returned, in order. */
  ghost function Returned(outs: seq<RingOut>): seq<seq<byte>> {
    if outs == [] then []
    else
      var n := |outs| - 1;
      Returned(outs[..n]) + ReturnedBy(outs[n])
  }

  ghost function ReturnedBy(out: RingOut): seq<seq<byte>> {
    if out.Front? then [out.data] else []
  }

  /** The queue grows while it is wrapped. */
  ghost predicate Turned(q: State, op: RingOp, out: RingOut) {
    op.PushOp? && out.Accepted? && Rotates(q, HEADER + |op.data|)
  }

  /** The zeros that growing while wrapped puts into the queue. */
  ghost function FillerBy(q: State, op: RingOp, out: RingOut): seq<seq<byte>> {
    if Turned(q, op, out) && q.tail + HEADER <= q.head then [Zeros(q.head - q.tail - HEADER)] else []
  }

  /** The fillers of a run: one for each time the queue grew while it was wrapped. */
  ghost function Fillers(qs: seq<State>, ops: seq<RingOp>, outs: seq<RingOut>): seq<seq<byte>>
    requires |outs| <= |ops| && |outs| < |qs|
  {
    if outs == [] then []
    else
      var n := |outs| - 1;
      Fillers(qs, ops, outs[..n]) + FillerBy(qs[n], ops[n], outs[n])
  }

  lemma {:induction false} SameFillers(qs: seq<State>, qs': seq<State>, ops: seq<RingOp>, outs: seq<RingOut>)
    requires |outs| <= |ops| && |outs| < |qs'| && qs' <= qs
    ensures Fillers(qs, ops, outs) == Fillers(qs', ops, outs)
    decreases |outs|
  {
    hide FillerBy;
    if outs != [] {
      SameFillers(qs, qs', ops, outs[..|outs| - 1]);
    }
  }

  /** The last step of a run that is explained. */
  lemma LastStep(qs: seq<State>, ops: seq<RingOp>, outs: seq<RingOut>, maxCapacity: int) returns (n: nat)
    requires Explains(qs, ops, outs, maxCapacity) && outs != []
    ensures n == |outs| - 1 && Explains(qs[..|outs|], ops, outs[..n], maxCapacity)
    ensures Counted(qs[n]) && Counted(qs[n + 1]) && RingStep(qs[n], ops[n], outs[n], qs[n + 1], maxCapacity)
    ensures Fillers(qs, ops, outs[..n]) == Fillers(qs[..|outs|], ops, outs[..n])
  {
    hide RingStep; hide Counted; hide Ring;
    n := |outs| - 1;
    SameFillers(qs, qs[..|outs|], ops, outs[..n]);
  }

  lemma StepCounts(q: State, op: RingOp, out: RingOut, q': State, maxCapacity: int)
    requires RingStep(q, op, out, q', maxCapacity)
    ensures multiset(Ring(q)) + multiset(GivenBy(op, out)) + multiset(FillerBy(q, op, out))
      == multiset(ReturnedBy(out)) + multiset(Ring(q'))
  {
    hide Refuses; hide Rotates; hide Ring; hide Pushed; hide MustGrow; hide Grown; hide Older;
    if Turned(q, op, out) {
      var k := Older(q);
      assert Ring(q) == Ring(q)[..k] + Ring(q)[k..];
    }
  }

  /** Over every run, whatever growth did to the order, what was accepted and the fillers are exactly what was
      returned and what is still queued, each as many times. */
  lemma {:induction false} NothingLost(qs: seq<State>, ops: seq<RingOp>, outs: seq<RingOut>, maxCapacity: int)
    requires Explains(qs, ops, outs, maxCapacity)
    ensures multiset(Given(ops, outs)) + multiset(Fillers(qs, ops, outs))
      == multiset(Returned(outs)) + multiset(Ring(qs[|outs|]))
    decreases |outs|
  {
    hide RingStep; hide Counted; hide Ring; hide GivenBy; hide ReturnedBy; hide FillerBy;
    if outs != [] {
      var n := LastStep(qs, ops, outs, maxCapacity);
      NothingLost(qs[..|outs|], ops, outs[..n], maxCapacity);
      StepCounts(qs[n], ops[n], outs[n], qs[n + 1], maxCapacity);
      Balance(multiset(Given(ops, outs[..n])), multiset(Fillers(qs, ops, outs[..n])), multiset(Returned(outs[..n])),
              multiset(Ring(qs[n])), multiset(GivenBy(ops[n], outs[n])), multiset(FillerBy(qs[n], ops[n], outs[n])),
              multiset(ReturnedBy(outs[n])), multiset(Ring(qs[n + 1])));
    }
  }

  lemma Balance<T>(a: multiset<T>, b: multiset<T>, c: multiset<T>, d: multiset<T>,
                   a': multiset<T>, b': multiset<T>, c': multiset<T>, d': multiset<T>)
    requires a + b == c + d && d + a' + b' == c' + d'
    ensures (a + a') + (b + b') == (c + c') + d'
  {
    calc {
      (a + a') + (b + b');
      (a + b) + a' + b';
      c + (d + a' + b');
      (c + c') + d';
    }
  }

  lemma StepInOrder(q: State, op: RingOp, out: RingOut, q': State, maxCapacity: int)
    requires RingStep(q, op, out, q', maxCapacity) && FillerBy(q, op, out) == []
    ensures Ring(q) + GivenBy(op, out) == ReturnedBy(out) + Ring(q')
  {
    hide Refuses; hide Rotates; hide Ring; hide Pushed; hide MustGrow; hide Grown; hide Older;
  }

  lemma {:induction false} InOrder(qs: seq<State>, ops: seq<RingOp>, outs: seq<RingOut>, maxCapacity: int)
    requires Explains(qs, ops, outs, maxCapacity) && Fillers(qs, ops, outs) == []
    ensures Given(ops, outs) == Returned(outs) + Ring(qs[|outs|])
    decreases |outs|
  {
    hide RingStep; hide Counted; hide Ring; hide GivenBy; hide ReturnedBy; hide FillerBy;
    if outs != [] {
      var n := LastStep(qs, ops, outs, maxCapacity);
      InOrder(qs[..|outs|], ops, outs[..n], maxCapacity);
      StepInOrder(qs[n], ops[n], outs[n], qs[n + 1], maxCapacity);
      var before, given, returned := Returned(outs[..n]), GivenBy(ops[n], outs[n]), ReturnedBy(outs[n]);
      calc {
        Given(ops, outs);
        (before + Ring(qs[n])) + given;
        before + (Ring(qs[n]) + given);
        before + (returned + Ring(qs[n + 1]));
        Returned(outs) + Ring(qs[n + 1]);
      }
    }
  }

  /** Each growth while wrapped leaves one more entry, the filler, than were pushed. */
  lemma OneFillerPerTurn(qs: seq<State>, ops: seq<RingOp>, outs: seq<RingOut>, maxCapacity: int)
    requires Explains(qs, ops, outs, maxCapacity)
    ensures |Returned(outs)| + |Ring(qs[|outs|])| == |Given(ops, outs)| + |Fillers(qs, ops, outs)|
    ensures Given(ops, outs) == Returned(outs) + Ring(qs[|outs|]) <==> Fillers(qs, ops, outs) == []
  {
    hide RingStep; hide Counted; hide Ring; hide Given; hide Returned; hide Fillers;
    NothingLost(qs, ops, outs, maxCapacity);
    var left, right := multiset(Given(ops, outs)), multiset(Fillers(qs, ops, outs));
    assert |left + right| == |Given(ops, outs)| + |Fillers(qs, ops, outs)|;
    if Fillers(qs, ops, outs) == [] {
      InOrder(qs, ops, outs, maxCapacity);
    }
  }

  // ---------------------------------------------------------------- the order of the entries

  /** Indistinguishable from a filler. */
  predicate IsFiller(data: seq<byte>) {
    32 <= |data| && data == Zeros(|data|)
  }

  /** The sequence without fillers. */
  function Solid(s: seq<seq<byte>>): seq<seq<byte>> {
    if s == [] then [] else (if IsFiller(s[0]) then [] else [s[0]]) + Solid(s[1..])
  }

  lemma {:induction false} SolidConcat(s: seq<seq<byte>>, t: seq<seq<byte>>)
    ensures Solid(s + t) == Solid(s) + Solid(t)
    decreases |s|
  {
    hide IsFiller;
    if s == [] {
      assert s + t == t;
    } else {
      SolidConcat(s[1..], t);
      assert (s + t)[1..] == s[1..] + t;
    }
  }

  lemma {:induction false} SolidMembers(s: seq<seq<byte>>)
    ensures forall x :: x in Solid(s) ==> x in s
    ensures (forall x :: x in s ==> !IsFiller(x)) ==> Solid(s) == s
  {
    hide IsFiller;
    if s != [] {
      SolidMembers(s[1..]);
      assert s == [s[0]] + s[1..];
    }
  }

  /** b stands at j with no a before it, although a was given before b. */
  ghost predicate Misplaced(given: seq<seq<byte>>, s: seq<seq<byte>>, j: nat, a: seq<byte>, b: seq<byte>) {
    && j < |s| && s[j] == b && a !in s[..j]
    && exists x, y :: 0 <= x < y < |given| && given[x] == a && given[y] == b
  }

  lemma MisplacedDiffers(given: seq<seq<byte>>, s: seq<seq<byte>>, j: nat, a: seq<byte>, b: seq<byte>)
    requires NoDuplicates(given) && (forall x :: x in given ==> !IsFiller(x)) && Misplaced(given, s, j, a, b)
    ensures Solid(s) != given
  {
    hide IsFiller;
    if Solid(s) == given {
      var x, y :| 0 <= x < y < |given| && given[x] == a && given[y] == b;
      var before, after := Solid(s[..j]), Solid(s[j..]);
      assert s == s[..j] + s[j..];
      SolidConcat(s[..j], s[j..]);
      assert after[0] == b && given[|before|] == b;
      assert |before| == y && before[x] == a;
      SolidMembers(s[..j]);
    }
  }

  /** Nothing has been popped since the queue was last unwrapped at the left margin. */
  ghost predicate Untouched(q: State) {
    q.head == LEFT_MARGIN <= q.tail
  }

  /** An entry has been returned out of turn, or is about to be. */
  ghost predicate OutOfTurn(given: seq<seq<byte>>, returned: seq<seq<byte>>, q: State,
                            j: nat, a: seq<byte>, b: seq<byte>)
  {
    Misplaced(given, returned + Ring(q), j, a, b) && (j < |returned| || (j == |returned| && Untouched(q)))
  }

  /** The first growth while wrapped brings a newer entry to the front. */
  lemma FirstTurn(given: seq<seq<byte>>, returned: seq<seq<byte>>, q: State, op: RingOp, out: RingOut, q': State,
                  maxCapacity: int)
    returns (a: seq<byte>, b: seq<byte>)
    requires Counted(q) && RingStep(q, op, out, q', maxCapacity) && Turned(q, op, out)
    requires given == returned + Ring(q) && NoDuplicates(given + GivenBy(op, out))
    ensures OutOfTurn(given + GivenBy(op, out), returned + ReturnedBy(out), q', |returned|, a, b)
  {
    hide Refuses; hide Rotates; hide Ring; hide Pushed; hide MustGrow; hide Grown; hide Older; hide Sound;
    hide AllLive;
    PushWraps(q, op.data, out.index, q');
    var k, r := Older(q), Ring(q);
    a, b := r[0], r[k];
    var given', s := given + [op.data], returned + Ring(q');
    assert returned + ReturnedBy(out) == returned;
    assert given'[|returned|] == a && given'[|returned| + k] == b;
    assert s[|returned|] == b && s[..|returned|] == returned;
    forall i | 0 <= i < |returned| ensures returned[i] != a {
      assert given'[i] == returned[i];
    }
  }

  /** Once an entry is out of turn, it stays so. */
  lemma StaysOut(given: seq<seq<byte>>, returned: seq<seq<byte>>, q: State, op: RingOp, out: RingOut, q': State,
                 maxCapacity: int, j: nat, a: seq<byte>, b: seq<byte>)
    requires Counted(q) && RingStep(q, op, out, q', maxCapacity) && OutOfTurn(given, returned, q, j, a, b)
    ensures OutOfTurn(given + GivenBy(op, out), returned + ReturnedBy(out), q', j, a, b)
  {
    hide Refuses; hide Rotates; hide Ring; hide Pushed; hide MustGrow; hide Grown; hide Older; hide Sound;
    hide AllLive;
    hide Popped;
    var given', returned' := given + GivenBy(op, out), returned + ReturnedBy(out);
    var s, s' := returned + Ring(q), returned' + Ring(q');
    var x, y :| 0 <= x < y < |given| && given[x] == a && given[y] == b;
    assert given'[x] == a && given'[y] == b;
    if op.PushOp? && out.Accepted? {
      PushWraps(q, op.data, out.index, q');
      if Turned(q, op, out) {
        TurnsWrapped(q, HEADER + |op.data|);
        assert s'[..j] == returned[..j] == s[..j];
      } else {
        assert s' == s + [op.data];
        assert s'[..j] == s[..j];
      }
    } else {
      assert s' == s;
    }
  }

  /** A run in which the queue grew while wrapped has an entry out of turn. */
  lemma {:induction false} EverOut(qs: seq<State>, ops: seq<RingOp>, outs: seq<RingOut>, maxCapacity: int)
    returns (j: nat, a: seq<byte>, b: seq<byte>)
    requires Explains(qs, ops, outs, maxCapacity) && NoDuplicates(Given(ops, outs)) && Fillers(qs, ops, outs) != []
    ensures OutOfTurn(Given(ops, outs), Returned(outs), qs[|outs|], j, a, b)
    decreases |outs|
  {
    hide RingStep; hide Counted; hide Ring; hide GivenBy; hide ReturnedBy; hide OutOfTurn; hide Turned;
    var n := LastStep(qs, ops, outs, maxCapacity);
    var given, returned := Given(ops, outs[..n]), Returned(outs[..n]);
    Prefix(given, GivenBy(ops[n], outs[n]));
    if Fillers(qs, ops, outs[..n]) == [] {
      InOrder(qs[..|outs|], ops, outs[..n], maxCapacity);
      j := |returned|;
      a, b := FirstTurn(given, returned, qs[n], ops[n], outs[n], qs[n + 1], maxCapacity);
    } else {
      j, a, b := EverOut(qs[..|outs|], ops, outs[..n], maxCapacity);
      StaysOut(given, returned, qs[n], ops[n], outs[n], qs[n + 1], maxCapacity, j, a, b);
    }
  }

  lemma Prefix(s: seq<seq<byte>>, t: seq<seq<byte>>)
    requires NoDuplicates(s + t)
    ensures NoDuplicates(s)
  {
    assert forall i :: 0 <= i < |s| ==> (s + t)[i] == s[i];
  }

  /** For distinct data, none of which looks like a filler, the queue is first in, first out, fillers aside, if and
      only if it never grew while it was wrapped. */
  lemma FirstInFirstOut(qs: seq<State>, ops: seq<RingOp>, outs: seq<RingOut>, maxCapacity: int)
    requires Explains(qs, ops, outs, maxCapacity)
    requires NoDuplicates(Given(ops, outs)) && forall x :: x in Given(ops, outs) ==> !IsFiller(x)
    ensures Solid(Returned(outs) + Ring(qs[|outs|])) == Given(ops, outs) <==> Fillers(qs, ops, outs) == []
  {
    hide Counted; hide RingStep; hide Ring; hide IsFiller; hide Misplaced; hide Given; hide Returned; hide Fillers;
    if Fillers(qs, ops, outs) == [] {
      InOrder(qs, ops, outs, maxCapacity);
      SolidMembers(Given(ops, outs));
    } else {
      var j, a, b := EverOut(qs, ops, outs, maxCapacity);
      MisplacedDiffers(Given(ops, outs), Returned(outs) + Ring(qs[|outs|]), j, a, b);
    }
  }

  // ---------------------------------------------------------------- a run that turns the queue round

  function Letters(n: nat, b: byte): (s: seq<byte>)
    ensures |s| == n && forall i :: 0 <= i < n ==> s[i] == b
  {
    seq(n, i => b)
  }

  /** In an arena of 100 bytes the sixth operation wraps, and the seventh has to grow. */
  function Schedule(): (ops: seq<RingOp>)
    ensures |ops| == 7
  {
    [PushOp(Letters(30, 1)), PushOp(Letters(30, 2)), PushOp(Letters(20, 3)), PopOp, PopOp,
     PushOp(Letters(20, 4)), PushOp(Letters(20, 5))]
  }

  ghost predicate Stands(q: State, head: int, tail: int, ring: seq<seq<byte>>) {
    q.head == head && q.tail == tail && |q.bytes| == 100 && Ring(q) == ring
  }

  lemma PushStands(q: State, data: seq<byte>, out: RingOut, q': State, head: int, tail: int, ring: seq<seq<byte>>)
    requires Counted(q) && RingStep(q, PushOp(data), out, q', 0) && Stands(q, head, tail, ring)
    requires RoomAtTail(q, HEADER + |data|) || CanWrap(q, HEADER + |data|)
    ensures out.Accepted?
    ensures var at := if RoomAtTail(q, HEADER + |data|) then tail else LEFT_MARGIN;
      Stands(q', head, at + HEADER + |data|, ring + [data])
  {
    hide Tiling; hide Stored; hide Ring; hide LiveIn; hide LostIn; hide Base; hide Older;
    assert NoneFits(IdleIn(q.tiles), HEADER + |data|);
  }

  lemma PopStands(q: State, out: RingOut, q': State, head: int, tail: int, first: seq<byte>, rest: seq<seq<byte>>)
    requires Counted(q) && RingStep(q, PopOp, out, q', 0) && Stands(q, head, tail, [first] + rest)
    requires head <= tail && head + HEADER + |first| < tail <= 100
    ensures out == Front(first) && Stands(q', head + HEADER + |first|, tail, rest)
  {
    hide Tiling; hide Stored; hide Ring; hide LiveIn;
    assert Ring(q) == [out.data] + Ring(q');
    assert out.data == Ring(q)[0] == first && Ring(q') == Ring(q)[1..] == rest;
  }

  /** The head, the tail and the entries after i operations of the schedule. */
  function Spot(i: nat): (int, int, seq<seq<byte>>)
    requires i <= 6
  {
    var a, b, c, d := Letters(30, 1), Letters(30, 2), Letters(20, 3), Letters(20, 4);
    [(1, 1, []), (1, 35, [a]), (1, 69, [a, b]), (1, 93, [a, b, c]),
     (35, 93, [b, c]), (69, 93, [c]), (69, 25, [c, d])][i]
  }

  lemma {:induction false} Position(qs: seq<State>, outs: seq<RingOut>, i: nat)
    requires Explains(qs, Schedule(), outs, 0) && |qs[0].bytes| == 100 && i <= |outs| && i <= 6
    ensures Stands(qs[i], Spot(i).0, Spot(i).1, Spot(i).2)
    ensures i > 0 && Schedule()[i - 1].PushOp? ==> outs[i - 1].Accepted?
  {
    hide Counted; hide RingStep; hide Letters; hide Ring;
    if i > 0 {
      Position(qs, outs, i - 1);
      var (head, tail, ring) := Spot(i - 1);
      var op := Schedule()[i - 1];
      if op.PushOp? {
        PushStands(qs[i - 1], op.data, outs[i - 1], qs[i], head, tail, ring);
      } else {
        assert ring == [ring[0]] + ring[1..];
        PopStands(qs[i - 1], outs[i - 1], qs[i], head, tail, ring[0], ring[1..]);
      }
    }
  }

  /** The seventh operation turns the queue round: the entry pushed fourth comes before the one pushed third. */
  lemma Turning(qs: seq<State>, outs: seq<RingOut>)
    requires Explains(qs, Schedule(), outs, 0) && |qs[0].bytes| == 100 && |outs| == 7
    ensures Ring(qs[7]) == [Letters(20, 4), Zeros(40), Letters(20, 3), Letters(20, 5)]
    ensures Fillers(qs, Schedule(), outs) != []
  {
    hide Letters; hide Ring; hide Sound; hide LiveIn; hide LostIn; hide Pushed; hide Grown; hide Zeros;
    Position(qs, outs, 6);
    var q, op := qs[6], Schedule()[6];
    assert Counted(q) && RingStep(q, op, outs[6], qs[7], 0);
    assert NoneFits(IdleIn(q.tiles), HEADER + |op.data|);
    assert Turned(q, op, outs[6]) && FillerBy(q, op, outs[6]) == [Zeros(40)];
    assert Older(q) == 1;
  }

  /** The schedule turns a new queue of 100 bytes round. */
  method TurnRound() returns (outs: seq<RingOut>)
    ensures |outs| == 7
    ensures exists qs ::
      && Shows(qs, Schedule(), outs, 100, 0) && Fillers(qs, Schedule(), outs) != []
      && Ring(qs[7]) == [Letters(20, 4), Zeros(40), Letters(20, 3), Letters(20, 5)]
  {
    hide Letters; hide Counted; hide RingStep; hide Ring; hide Fillers;
    outs := Run(Schedule(), 100, 0);
    ghost var qs :| Shows(qs, Schedule(), outs, 100, 0);
    if |outs| < 7 {
      Position(qs, outs, |outs|);
    }
    Turning(qs, outs);
  }
}
