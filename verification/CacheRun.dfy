/** Whole runs of the cache, with the clock, against a specification that only looks at the history. */
module CacheRuns {
  import opened Options
  import opened Bytes
  import opened Bits
  import opened Demands
  import opened Arena
  import opened Ttl
  import opened Shards
  import opened BigCaches

  /** The calls of the cache, the clock, and the ticks of one shard, which may come late or not at all. */
  datatype Op =
    | SetOp(key: Key, value: seq<byte>, expiry: u64)
    | GetOp(key: Key)
    | DeleteOp(key: Key)
    | ClockOp(now: nat)
    | TicksOp(shard: nat)

  datatype Out = Stored(timestamp: u64) | Full | Got(reply: Reply) | Deleted(found: bool) | Passed

  /** The clock at the start, the number of shards and the hasher. */
  datatype World = World(start: nat, shards: nat, hasher: Key -> u64)

  /** The clock after a history. */
  function Clock(w: World, history: seq<Op>): nat {
    if history == [] then w.start
    else match history[|history| - 1]
      case ClockOp(now) => now
      case _ => Clock(w, history[..|history| - 1])
  }

  /** An entry, and the latest second at which its shard took ticks since it was set. */
  datatype Trace = Trace(entry: Entry, since: int)

  function Ticked(trace: Option<Trace>, second: int): Option<Trace> {
    if trace.Some? && trace.value.since < second then Some(trace.value.(since := second)) else trace
  }

  /** What an operation makes of what was last set under hash. */
  ghost function After(w: World, before: Option<Trace>, op: Op, now: nat, hash: u64): Option<Trace> {
    match op
    case SetOp(key, value, expiry) =>
      if w.hasher(key) == hash then Some(Trace(Entry(expiry, key, value), -1)) else before
    case DeleteOp(key) => if w.hasher(key) == hash then None else before
    case TicksOp(k) => if w.shards > 0 && Home(hash, w.shards) == k then Ticked(before, Seconds(now)) else before
    case _ => before
  }

  /** What the history last set under hash and has not deleted since. */
  ghost function Latest(w: World, history: seq<Op>, hash: u64): Option<Trace>
    decreases |history|
  {
    if history == [] then None
    else
      var before := history[..|history| - 1];
      After(w, Latest(w, before, hash), history[|history| - 1], Clock(w, before), hash)
  }

  /** The entry has no expiry, or no tick has reached it. */
  predicate MustBeThere(t: Trace) { t.entry.timestamp == NO_EXPIRY || t.since < t.entry.timestamp }

  /** A tick has gone past its expiry. */
  predicate MustBeGone(t: Trace) { t.entry.timestamp != NO_EXPIRY && t.entry.timestamp < t.since }

  /** What the cache may hold under a hash, given its trace. Within the second of the expiry it may be either. */
  ghost predicate MayHold(trace: Option<Trace>, held: Option<Entry>) {
    match trace
    case None => held == None
    case Some(t) =>
      && (held == None || held == Some(t.entry))
      && (MustBeThere(t) ==> held.Some?)
      && (MustBeGone(t) ==> held.None?)
  }

  /** The outcomes that an operation may have after a history, when nothing is refused. */
  ghost predicate Allowed(w: World, history: seq<Op>, op: Op, out: Out) {
    match op
    case SetOp(_, _, expiry) => out == Stored(expiry)
    case GetOp(key) =>
      exists held :: MayHold(Latest(w, history, w.hasher(key)), held) && out == Got(ReplyTo(held, key))
    case DeleteOp(key) =>
      exists held: Option<Entry> :: MayHold(Latest(w, history, w.hasher(key)), held) && out == Deleted(held.Some?)
    case _ => out == Passed
  }

  /** Bytes of the arena that an operation can take. */
  function Need(op: Op): nat {
    if op.SetOp? then BlockSize(op.key, op.value) else 0
  }

  /** An operation is in range, and the clock does not go back. */
  ghost predicate InOrder(w: World, op: Op, now: nat) {
    match op
    case SetOp(_, _, expiry) => expiry <= Horizon(now)
    case ClockOp(later) => now <= later && Seconds(later) <= MAX_SECONDS
    case TicksOp(k) => k < w.shards
    case _ => true
  }

  ghost predicate Orderly(w: World, ops: seq<Op>) {
    Seconds(w.start) <= MAX_SECONDS && forall i :: 0 <= i < |ops| ==> InOrder(w, ops[i], Clock(w, ops[..i]))
  }

  // ---------------------------------------------------------------- the cache tracks its history

  /** Besides, an entry that is there has not been passed by a tick, and one that is gone was reached by one. */
  ghost predicate Fits(trace: Option<Trace>, held: Option<Entry>) {
    match trace
    case None => held == None
    case Some(t) =>
      if held.Some? then held.value == t.entry && (t.entry.timestamp == NO_EXPIRY || t.since <= t.entry.timestamp)
      else NO_EXPIRY < t.entry.timestamp <= t.since
  }

  ghost predicate Tracks(cache: BigCache, w: World, history: seq<Op>)
    reads cache, cache.Repr
    requires cache.Separate() && |cache.shards| > 0
  {
    && cache.hash == w.hasher && |cache.shards| == w.shards
    && forall h: u64 :: Fits(Latest(w, history, h), cache.Lookup(h))
  }

  lemma HistoryStep(w: World, history: seq<Op>, op: Op, h: u64)
    ensures Latest(w, history + [op], h) == After(w, Latest(w, history, h), op, Clock(w, history), h)
    ensures Clock(w, history + [op]) == if op.ClockOp? then op.now else Clock(w, history)
  {
    assert (history + [op])[..|history|] == history;
  }

  lemma AgedFits(trace: Option<Trace>, held: Option<Entry>, held': Option<Entry>, now: nat)
    requires Fits(trace, held) && Aged(held, held', now)
    ensures Fits(Ticked(trace, Seconds(now)), held')
  {
  }

  lemma TailWithin(cache: BigCache, h: u64, bound: int)
    requires cache.Separate() && |cache.shards| > 0 && cache.TailsWithin(bound)
    ensures cache.TailFor(h) <= bound
  {
  }

  /** There is room when the end of the arena stays within 32 bits. */
  lemma TailRoom(cache: BigCache, op: Op, now: nat)
    requires cache.Valid(now) && |cache.shards| > 0 && op.SetOp?
    requires cache.TailFor(cache.hash(op.key)) + Need(op) <= TWO_32
    ensures cache.RoomFor(Store(op.key, op.value, op.expiry))
  {
    hide Vacated; hide IsPower; hide Home; hide Shard.Current;
    var k := Home(cache.hash(op.key), |cache.shards|);
    assert ShardOk(cache.shards[k], k, |cache.shards|, cache.hash, cache.maxShardSize, now);
  }

  lemma StoreRoom(cache: BigCache, c: Change)
    requires cache.Separate() && |cache.shards| > 0 && !c.Store?
    ensures cache.RoomFor(c) && Growth(c) == 0
  {
  }

  method Step(cache: BigCache, ghost w: World, op: Op, ghost history: seq<Op>, now: nat, ghost bound: nat)
    returns (out: Out)
    requires cache.Valid(now) && cache.TailsWithin(bound) && |cache.shards| > 0 && now == Clock(w, history)
    requires op.SetOp? ==> cache.TailFor(cache.hash(op.key)) + Need(op) <= TWO_32
    requires Tracks(cache, w, history) && InOrder(w, op, now)
    modifies cache.Repr
    ensures fresh(cache.Repr - old(cache.Repr))
    ensures out != Full ==>
      && cache.Valid(if op.ClockOp? then op.now else now)
      && cache.TailsWithin(bound + Need(op)) && Tracks(cache, w, history + [op])
      && Allowed(w, history, op, out)
    ensures out == Full ==> op.SetOp? && 0 < cache.maxShardSize < bound + 2 * Need(op)
  {
    hide ShardOk; hide IsPower; hide ReplyTo; hide Latest; hide BigCache.Lookup; hide Aged; hide BigCache.TailsWithin;
    hide BigCache.RoomFor; hide BigCache.TailFor; hide Home; hide Clock; hide Ticked;
    forall h: u64 {
      HistoryStep(w, history, op, h);
    }
    match op
    case SetOp(key, value, expiry) =>
      TailRoom(cache, op, now);
      var timestamp, stored := cache.Set(key, value, expiry, now, bound);
      out := if stored then Stored(timestamp) else Full;
    case GetOp(key) =>
      var reply := cache.Get(key, now);
      out := Got(reply);
      assert MayHold(Latest(w, history, w.hasher(key)), cache.Lookup(w.hasher(key)));
    case DeleteOp(key) =>
      ghost var held := cache.Lookup(w.hasher(key));
      assert MayHold(Latest(w, history, w.hasher(key)), held);
      var found := cache.Delete(key, now, bound);
      out := Deleted(found);
    case ClockOp(later) =>
      cache.Later(now, later);
      out := Passed;
    case TicksOp(k) =>
      StoreRoom(cache, Ticks);
      var _ := cache.Apply(k, Ticks, now, bound);
      out := Passed;
      forall h: u64 ensures Fits(Latest(w, history + [op], h), cache.Lookup(h)) {
        if Home(h, w.shards) == k {
          AgedFits(Latest(w, history, h), old(cache.Lookup(h)), cache.Lookup(h), now);
        }
      }
  }

  // ---------------------------------------------------------------- whole runs

  /** A run has come as far as its first n operations. */
  ghost predicate Underway(cache: BigCache, w: World, ops: seq<Op>, n: int, now: nat)
    reads cache, cache.Repr
  {
    && 0 <= n <= |ops| && Orderly(w, ops) && now == Clock(w, ops[..n])
    && cache.Valid(now) && |cache.shards| > 0 && Tracks(cache, w, ops[..n])
    && cache.TailsWithin(LEFT_MARGIN + Demand(ops[..n], Need))
  }

  /** What the n-th operation may give: what its history allows, or a refusal near the limit of a shard. */
  ghost predicate Answered(w: World, ops: seq<Op>, n: int, out: Out, maxShardSize: int)
    requires 0 <= n < |ops|
  {
    if out != Full then Allowed(w, ops[..n], ops[n], out)
    else ops[n].SetOp? && 0 < maxShardSize < LEFT_MARGIN + Demand(ops[..n], Need) + 2 * Need(ops[n])
  }

  /** The next operation, unless it is a set for which the shard has no room. */
  method Advance(cache: BigCache, ghost w: World, ops: seq<Op>, n: int, now: nat)
    returns (out: Out, now': nat, end: int, room: bool)
    requires Underway(cache, w, ops, n, now) && n < |ops|
    modifies cache.Repr
    ensures fresh(cache.Repr - old(cache.Repr)) && end <= LEFT_MARGIN + Demand(ops[..n], Need)
    ensures !room ==> end + Need(ops[n]) > TWO_32
    ensures room ==> Answered(w, ops, n, out, cache.maxShardSize)
    ensures room && out != Full ==> Underway(cache, w, ops, n + 1, now')
  {
    hide ShardOk; hide IsPower; hide Latest; hide BigCache.Lookup; hide Demand; hide Allowed; hide Tracks; hide Clock;
    hide BigCache.TailsWithin; hide BigCache.TailFor; hide InOrder;
    DemandStep(ops, Need, n);
    HistoryStep(w, ops[..n], ops[n], 0);
    assert ops[..n] + [ops[n]] == ops[..n + 1];
    end, now', room, out := LEFT_MARGIN, if ops[n].ClockOp? then ops[n].now else now, true, Passed;
    if ops[n].SetOp? {
      end := cache.TailFor(cache.hash(ops[n].key));
      TailWithin(cache, cache.hash(ops[n].key), LEFT_MARGIN + Demand(ops[..n], Need));
      room := end + Need(ops[n]) <= TWO_32;
    }
    if room {
      out := Step(cache, w, ops[n], ops[..n], now, LEFT_MARGIN + Demand(ops[..n], Need));
    }
  }

  /** Every run of the cache answers as its history allows, with ticks taken at any time or not at all: the value last
      set under the hash of a key is found until its shard takes ticks in the second of its expiry, and not after it
      takes them later. It goes on until a set is refused, which leaves its shard locked, or could take the end of an
      arena past 32-bit addresses. */
  method Run(w: World, ops: seq<Op>, initialCapacity: nat, hardMaxCacheSize: int, bufferSize: nat)
    returns (outs: seq<Out>, end: int)
    requires IsPower(w.shards) && Orderly(w, ops)
    ensures |outs| <= |ops| && w.shards > 0
    ensures forall i :: 0 <= i < |outs| ==> Answered(w, ops, i, outs[i], MaximumShardSize(hardMaxCacheSize, w.shards))
    ensures forall i :: 0 <= i < |outs| - 1 ==> outs[i] != Full
    ensures end <= LEFT_MARGIN + Demand(ops[..|outs|], Need)
    ensures |outs| < |ops| ==> (outs != [] && outs[|outs| - 1] == Full) || end + Need(ops[|outs|]) > TWO_32
  {
    hide IsPower; hide Demand; hide Answered; hide Underway; hide BigCache.Valid; hide BigCache.TailsWithin;
    hide BigCache.Lookup; hide Orderly; hide BigCache.Separate; hide MaximumShardSize;
    PowerPositive(w.shards);
    Started(w, ops);
    var cache, crashed := BigCache.New(w.shards, initialCapacity, hardMaxCacheSize, bufferSize, w.hasher, w.start);
    StartUnderway(cache, w, ops);
    var now := w.start;
    outs, end := [], LEFT_MARGIN;
    while |outs| < |ops|
      invariant |outs| <= |ops| && fresh(cache.Repr) && Underway(cache, w, ops, |outs|, now)
      invariant end <= LEFT_MARGIN + Demand(ops[..|outs|], Need)
      invariant forall j :: 0 <= j < |outs| ==> Answered(w, ops, j, outs[j], cache.maxShardSize) && outs[j] != Full
    {
      DemandStep(ops, Need, |outs|);
      var out, room;
      out, now, end, room := Advance(cache, w, ops, |outs|, now);
      if !room {
        return;
      }
      outs := outs + [out];
      if out == Full {
        return;
      }
    }
  }

  lemma Started(w: World, ops: seq<Op>)
    requires Orderly(w, ops)
    ensures Seconds(w.start) <= MAX_SECONDS && Demand(ops[..0], Need) == 0
  {
  }

  lemma StartUnderway(cache: BigCache, w: World, ops: seq<Op>)
    requires cache.Valid(w.start) && |cache.shards| == w.shards > 0 && cache.hash == w.hasher
    requires cache.TailsWithin(LEFT_MARGIN) && Orderly(w, ops)
    requires forall h: u64 :: cache.Lookup(h) == None
    ensures Underway(cache, w, ops, 0, w.start)
  {
    hide ShardOk; hide IsPower; hide BigCache.Lookup;
    assert ops[..0] == [];
  }

  // ---------------------------------------------------------------- what a get finds, without the history function

  /** Operation i set what was last set under hash, and nothing has deleted it. */
  ghost predicate InForce(w: World, history: seq<Op>, i: nat, hash: u64) {
    && i < |history| && history[i].SetOp? && w.hasher(history[i].key) == hash
    && forall m :: i < m < |history| && (history[m].SetOp? || history[m].DeleteOp?) ==> w.hasher(history[m].key) != hash
  }

  /** Operation m takes the ticks of the shard of hash. */
  ghost predicate TicksFor(w: World, history: seq<Op>, m: nat, hash: u64) {
    m < |history| && w.shards > 0 && history[m] == TicksOp(Home(hash, w.shards))
  }

  /** The second at which operation m takes place. */
  ghost function SecondOf(w: World, history: seq<Op>, m: nat): int
    requires m <= |history|
  {
    Seconds(Clock(w, history[..m]))
  }

  /** since is the latest second of the ticks after operation i, or -1 without any. */
  ghost predicate LastTicks(w: World, history: seq<Op>, i: nat, hash: u64, since: int) {
    && (forall m: nat :: i < m && TicksFor(w, history, m, hash) ==> SecondOf(w, history, m) <= since)
    && (since == -1 || exists m: nat :: i < m && TicksFor(w, history, m, hash) && SecondOf(w, history, m) == since)
  }

  ghost predicate Explained(w: World, history: seq<Op>, hash: u64, trace: Option<Trace>, i: nat) {
    match trace
    case None => forall j: nat :: !InForce(w, history, j, hash)
    case Some(t) =>
      && InForce(w, history, i, hash) && LastTicks(w, history, i, hash, t.since)
      && t.entry == Entry(history[i].expiry, history[i].key, history[i].value)
  }

  lemma {:induction false} LatestExplained(w: World, history: seq<Op>, hash: u64) returns (i: nat)
    ensures Explained(w, history, hash, Latest(w, history, hash), i)
    decreases |history|
  {
    i := 0;
    if history != [] {
      var n := |history| - 1;
      i := LatestExplained(w, history[..n], hash);
      assert history == history[..n] + [history[n]];
      i := ExplainedStep(w, history[..n], history[n], hash, Latest(w, history[..n], hash), i);
    }
  }

  lemma ExplainedStep(w: World, history: seq<Op>, op: Op, hash: u64, trace: Option<Trace>, i: nat) returns (i': nat)
    requires Explained(w, history, hash, trace, i)
    ensures Explained(w, history + [op], hash, After(w, trace, op, Clock(w, history), hash), i')
  {
    hide Clock; hide Home; hide LastTicks;
    var n, history' := |history|, history + [op];
    assert forall m :: 0 <= m < n ==> history'[m] == history[m];
    assert history'[n] == op;
    i' := i;
    if op.SetOp? && w.hasher(op.key) == hash {
      i' := n;
      NoTicksYet(w, history', n, hash);
    } else if op.DeleteOp? && w.hasher(op.key) == hash {
    } else {
      if trace.Some? {
        TicksStep(w, history, op, i, hash, trace.value.since);
      }
      forall j: nat | InForce(w, history', j, hash) ensures InForce(w, history, j, hash) {
      }
    }
  }

  lemma NoTicksYet(w: World, history: seq<Op>, n: nat, hash: u64)
    requires n + 1 == |history|
    ensures LastTicks(w, history, n, hash, -1)
  {
  }

  lemma TicksStep(w: World, history: seq<Op>, op: Op, i: nat, hash: u64, since: int)
    requires i < |history| && LastTicks(w, history, i, hash, since)
    ensures var second := Seconds(Clock(w, history));
      var ticks := w.shards > 0 && op == TicksOp(Home(hash, w.shards));
      LastTicks(w, history + [op], i, hash, if ticks && since < second then second else since)
  {
    hide Clock; hide Home;
    var n, history' := |history|, history + [op];
    assert forall m :: 0 <= m <= n ==> history'[..m] == history[..m];
    assert forall m :: 0 <= m < n ==> history'[m] == history[m];
    assert history[..n] == history && history'[n] == op;
    assert forall m: nat :: m < n ==> (TicksFor(w, history', m, hash) <==> TicksFor(w, history, m, hash));
    assert forall m: nat :: m <= n ==> SecondOf(w, history', m) == SecondOf(w, history, m);
    assert SecondOf(w, history', n) == Seconds(Clock(w, history));
    var ticks := w.shards > 0 && op == TicksOp(Home(hash, w.shards));
    assert TicksFor(w, history', n, hash) <==> ticks;
    if since != -1 {
      var m: nat :| i < m && TicksFor(w, history, m, hash) && SecondOf(w, history, m) == since;
      assert TicksFor(w, history', m, hash) && SecondOf(w, history', m) == since;
    }
  }

  /** What was last set for a key is found as long as its shard has not taken ticks in the second of its expiry or
      later. */
  lemma FoundUntilTicks(w: World, history: seq<Op>, i: nat, key: Key, out: Out)
    requires InForce(w, history, i, w.hasher(key)) && history[i].key == key && |key| <= 65517
    requires history[i].expiry == 0 || forall m: nat :: i < m && TicksFor(w, history, m, w.hasher(key)) ==>
      SecondOf(w, history, m) < history[i].expiry
    requires Allowed(w, history, GetOp(key), out)
    ensures out == Got(Found(history[i].value))
  {
    hide Latest; hide TicksFor; hide SecondOf;
    var j := LatestExplained(w, history, w.hasher(key));
    OneInForce(w, history, i, w.hasher(key), Latest(w, history, w.hasher(key)), j);
    var held :| MayHold(Latest(w, history, w.hasher(key)), held) && out == Got(ReplyTo(held, key));
    ReplyFound(held, key);
  }

  lemma OneInForce(w: World, history: seq<Op>, i: nat, hash: u64, trace: Option<Trace>, j: nat)
    requires InForce(w, history, i, hash) && Explained(w, history, hash, trace, j)
    ensures trace.Some? && i == j
  {
    hide LastTicks;
  }

  /** Once its shard has taken ticks after the second of its expiry, it is not found any more. */
  lemma GoneAfterTicks(w: World, history: seq<Op>, i: nat, m: nat, key: Key, out: Out)
    requires InForce(w, history, i, w.hasher(key)) && i < m && TicksFor(w, history, m, w.hasher(key))
    requires 0 < history[i].expiry < SecondOf(w, history, m) && Allowed(w, history, GetOp(key), out)
    ensures out == Got(NotFound)
  {
    hide Latest; hide TicksFor; hide SecondOf;
    var j := LatestExplained(w, history, w.hasher(key));
    OneInForce(w, history, i, w.hasher(key), Latest(w, history, w.hasher(key)), j);
  }

  /** Nothing is found for a key under whose hash nothing is set, or another key is. */
  lemma NotFoundOtherwise(w: World, history: seq<Op>, key: Key, out: Out)
    requires forall i: nat :: InForce(w, history, i, w.hasher(key)) ==>
      history[i].key != key && |history[i].key| <= 65517
    requires Allowed(w, history, GetOp(key), out)
    ensures out == Got(NotFound)
  {
    hide Latest; hide LastTicks; hide InForce;
    var j := LatestExplained(w, history, w.hasher(key));
    var held :| MayHold(Latest(w, history, w.hasher(key)), held) && out == Got(ReplyTo(held, key));
    ReplyFound(held, key);
  }
}
