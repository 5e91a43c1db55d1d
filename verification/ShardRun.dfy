/** Whole runs of a shard, against a specification that only looks at the history of operations. */
module ShardRuns {
  import opened Options
  import opened Bytes
  import opened Demands
  import opened Arena
  import opened Queues
  import opened Ttl
  import opened Shards

  datatype Op =
    | SetOp(key: Key, hash: u64, value: seq<byte>, expiry: u64)
    | GetOp(key: Key, hash: u64)
    | DelOp(key: Key, hash: u64)
    | EvictOp(timestamp: u64, keys: set<Key>)

  datatype Out = Stored | Full | Got(reply: Reply) | Deleted(found: bool) | Done

  /** What the history last set under hash and has neither deleted nor evicted since. */
  ghost function Latest(history: seq<Op>, hash: u64, hasher: Key -> u64): Option<Entry>
    decreases |history|
  {
    if history == [] then None
    else
      var before := Latest(history[..|history| - 1], hash, hasher);
      match history[|history| - 1]
      case SetOp(key, h, value, expiry) => if h == hash then Some(Entry(expiry, key, value)) else before
      case GetOp(_, _) => before
      case DelOp(_, h) => if h == hash then None else before
      case EvictOp(t, keys) =>
        if before.Some? && before.value.timestamp == t && exists k :: k in keys && hasher(k) == hash then None
        else before
  }

  /** The outcome of an operation after a history, when nothing is refused. */
  ghost function Expected(history: seq<Op>, op: Op, hasher: Key -> u64): Out {
    match op
    case SetOp(_, _, _, _) => Stored
    case GetOp(key, h) => Got(ReplyTo(Latest(history, h, hasher), key))
    case DelOp(_, h) => Deleted(Latest(history, h, hasher).Some?)
    case EvictOp(_, _) => Done
  }

  ghost predicate Agrees(model: Model, history: seq<Op>, hasher: Key -> u64) {
    forall h: u64 :: At(model, h) == Latest(history, h, hasher)
  }

  lemma StepAgrees(model: Model, history: seq<Op>, op: Op, model': Model, hasher: Key -> u64)
    requires Agrees(model, history, hasher)
    requires match op
      case SetOp(key, h, value, expiry) => model' == model[h := Entry(expiry, key, value)]
      case GetOp(_, _) => model' == model
      case DelOp(_, h) => model' == model - {h}
      case EvictOp(t, keys) => model' == Evicted(model, t, keys, hasher)
    ensures Agrees(model', history + [op], hasher)
  {
    forall h: u64 ensures At(model', h) == Latest(history + [op], h, hasher) {
      assert (history + [op])[..|history|] == history;
      assert At(model, h) == Latest(history, h, hasher);
    }
  }

  /** Bytes of the arena that an operation can take. */
  function Need(op: Op): nat {
    if op.SetOp? then BlockSize(op.key, op.value) else 0
  }

  lemma StartAgrees(hasher: Key -> u64)
    ensures Agrees(map[], [], hasher)
  {
  }

  lemma AgreesAt(model: Model, history: seq<Op>, hasher: Key -> u64, h: u64)
    requires Agrees(model, history, hasher)
    ensures At(model, h) == Latest(history, h, hasher)
  {
  }

  /** One operation on a shard that agrees with its history. */
  method Step(shard: Shard, op: Op, ghost history: seq<Op>, now: nat) returns (out: Out)
    requires shard.Valid() && Seconds(now) < TWO_64 && shard.entries.tail + Need(op) <= TWO_32
    requires Agrees(shard.model, history, shard.hasher)
    modifies shard.Repr()
    ensures fresh(shard.Repr() - old(shard.Repr())) && shard.entries.tail <= old(shard.entries.tail) + Need(op)
    ensures out != Full ==>
      shard.Valid() && out == Expected(history, op, shard.hasher) && Agrees(shard.model, history + [op], shard.hasher)
    ensures out == Full ==>
      op.SetOp? && shard.locked && 0 < shard.entries.maxCapacity < old(shard.entries.tail) + 2 * Need(op)
  {
    hide Shard.Valid; hide Latest; hide Agrees; hide Evicted; hide Refuses; hide ReplyTo; hide NoneFits; hide Vacated;
    ghost var m := shard.model;
    match op
    case SetOp(key, h, value, expiry) =>
      var _, stored := shard.Set(key, h, value, expiry, now);
      out := if stored then Stored else Full;
      if stored {
        StepAgrees(m, history, op, shard.model, shard.hasher);
      }
    case GetOp(key, h) =>
      AgreesAt(m, history, shard.hasher, h);
      var reply := shard.Get(key, h);
      out := Got(reply);
      StepAgrees(m, history, op, shard.model, shard.hasher);
    case DelOp(key, h) =>
      AgreesAt(m, history, shard.hasher, h);
      var found := shard.Del(key, h, now);
      out := Deleted(found);
      StepAgrees(m, history, op, shard.model, shard.hasher);
    case EvictOp(t, keys) =>
      shard.EvictDel(t, keys);
      out := Done;
      StepAgrees(m, history, op, shard.model, shard.hasher);
  }

  /** A run has come as far as its first n operations. */
  ghost predicate Underway(shard: Shard, ops: seq<Op>, n: int)
    reads shard, shard.entries, shard.entries.arena, shard.entries.freelist, shard.entries.freelist.at.Keys
  {
    && 0 <= n <= |ops| && shard.Valid()
    && shard.entries.tail <= LEFT_MARGIN + Demand(ops[..n], Need) && Agrees(shard.model, ops[..n], shard.hasher)
  }

  /** What the n-th operation may give: what its history says, or a refusal near the limit. */
  ghost predicate Answered(ops: seq<Op>, n: int, out: Out, hasher: Key -> u64, maxCapacity: int)
    requires 0 <= n < |ops|
  {
    if out != Full then out == Expected(ops[..n], ops[n], hasher)
    else ops[n].SetOp? && 0 < maxCapacity < LEFT_MARGIN + Demand(ops[..n], Need) + 2 * Need(ops[n])
  }

  method Advance(shard: Shard, ops: seq<Op>, n: int, now: nat) returns (out: Out)
    requires Underway(shard, ops, n) && n < |ops| && Seconds(now) < TWO_64
    requires shard.entries.tail + Need(ops[n]) <= TWO_32
    modifies shard.Repr()
    ensures fresh(shard.Repr() - old(shard.Repr()))
    ensures shard.entries.tail <= LEFT_MARGIN + Demand(ops[..n + 1], Need)
    ensures out != Full ==> Underway(shard, ops, n + 1)
    ensures Answered(ops, n, out, shard.hasher, shard.entries.maxCapacity)
  {
    hide Shard.Valid; hide Agrees; hide Demand; hide Expected;
    DemandStep(ops, Need, n);
    out := Step(shard, ops[n], ops[..n], now);
    assert ops[..n] + [ops[n]] == ops[..n + 1];
  }

  lemma Bounded(shard: Shard, ops: seq<Op>, n: int)
    requires Underway(shard, ops, n)
    ensures shard.entries.tail <= LEFT_MARGIN + Demand(ops[..n], Need)
  {
    hide Shard.Valid; hide Agrees;
  }

  /** Every run from an empty shard answers as its history says, whatever blocks are reused, split or moved on the
      way, until a set is refused, which leaves the shard locked, or could take the end of the arena past 32-bit
      addresses. */
  method Run(ops: seq<Op>, initialCapacity: nat, maxCapacity: int, bufferSize: nat, hasher: Key -> u64, now: nat)
    returns (outs: seq<Out>, end: int)
    requires Seconds(now) < TWO_64
    ensures |outs| <= |ops|
    ensures forall i :: 0 <= i < |outs| ==> Answered(ops, i, outs[i], hasher, maxCapacity)
    ensures forall i :: 0 <= i < |outs| - 1 ==> outs[i] != Full
    ensures end <= LEFT_MARGIN + Demand(ops[..|outs|], Need)
    ensures |outs| < |ops| ==> (outs != [] && outs[|outs| - 1] == Full) || end + Need(ops[|outs|]) > TWO_32
  {
    hide Shard.Valid; hide Demand; hide Answered; hide Underway;
    var shard := new Shard(initialCapacity, maxCapacity, bufferSize, hasher, now);
    StartUnderway(shard, ops);
    outs := [];
    while true
      invariant |outs| <= |ops| && Underway(shard, ops, |outs|) && fresh(shard.Repr()) && shard.hasher == hasher
      invariant shard.entries.maxCapacity == maxCapacity
      invariant forall j :: 0 <= j < |outs| ==> Answered(ops, j, outs[j], hasher, maxCapacity) && outs[j] != Full
      decreases |ops| - |outs|
    {
      end := shard.entries.tail;
      Bounded(shard, ops, |outs|);
      if |outs| == |ops| || end + Need(ops[|outs|]) > TWO_32 {
        return;
      }
      var out := Advance(shard, ops, |outs|, now);
      end := shard.entries.tail;
      outs := outs + [out];
      if out == Full {
        return;
      }
    }
  }

  lemma StartUnderway(shard: Shard, ops: seq<Op>)
    requires shard.Valid() && shard.model == map[] && shard.entries.tail == LEFT_MARGIN
    ensures Underway(shard, ops, 0)
  {
    hide Shard.Valid; hide Agrees;
    StartAgrees(shard.hasher);
    assert ops[..0] == [];
  }

  // ---------------------------------------------------------------- what a get finds, without the history function

  /** The operation undoes or replaces the set of an entry with this expiry under hash. */
  ghost predicate Ends(op: Op, hash: u64, expiry: u64, hasher: Key -> u64) {
    match op
    case SetOp(_, h, _, _) => h == hash
    case GetOp(_, _) => false
    case DelOp(_, h) => h == hash
    case EvictOp(t, keys) => t == expiry && exists k :: k in keys && hasher(k) == hash
  }

  /** Operation i set what is stored under hash. */
  ghost predicate InForce(history: seq<Op>, i: nat, hash: u64, hasher: Key -> u64) {
    && i < |history| && history[i].SetOp? && history[i].hash == hash
    && forall m :: i < m < |history| ==> !Ends(history[m], hash, history[i].expiry, hasher)
  }

  lemma {:induction false} LatestInForce(history: seq<Op>, hash: u64, hasher: Key -> u64) returns (i: nat)
    ensures Latest(history, hash, hasher).None? ==> forall j: nat :: !InForce(history, j, hash, hasher)
    ensures Latest(history, hash, hasher).Some? ==>
      && InForce(history, i, hash, hasher)
      && Latest(history, hash, hasher).value == Entry(history[i].expiry, history[i].key, history[i].value)
      && forall j: nat :: InForce(history, j, hash, hasher) ==> j == i
    decreases |history|
  {
    i := 0;
    if history != [] {
      var n := |history| - 1;
      var before, op := history[..n], history[n];
      i := LatestInForce(before, hash, hasher);
      forall j: nat | j < n && history[j].SetOp?
        ensures InForce(history, j, hash, hasher) <==>
          InForce(before, j, hash, hasher) && !Ends(op, hash, history[j].expiry, hasher)
      {
        ForceStep(history, j, hash, hasher);
      }
      if op.SetOp? && op.hash == hash {
        i := n;
      }
    }
  }

  lemma ForceStep(history: seq<Op>, j: nat, hash: u64, hasher: Key -> u64)
    requires j < |history| - 1 && history[j].SetOp?
    ensures InForce(history, j, hash, hasher) <==>
      && InForce(history[..|history| - 1], j, hash, hasher)
      && !Ends(history[|history| - 1], hash, history[j].expiry, hasher)
  {
    hide Ends;
    var n := |history| - 1;
    assert forall m :: 0 <= m < n ==> history[..n][m] == history[m];
    if InForce(history, j, hash, hasher) {
      assert !Ends(history[n], hash, history[j].expiry, hasher);
    }
  }

  /** A get finds a value exactly when an operation set it for that key under that hash, and no later one replaced,
      deleted or evicted it; otherwise it finds nothing. */
  lemma GetFinds(history: seq<Op>, key: Key, hash: u64, hasher: Key -> u64, value: seq<byte>)
    requires forall i :: 0 <= i < |history| && history[i].SetOp? ==> |history[i].key| <= 65517
    ensures var out := Expected(history, GetOp(key, hash), hasher);
      && (out == Got(Found(value)) <==>
          exists i: nat :: InForce(history, i, hash, hasher) && history[i].key == key && history[i].value == value)
      && (out == Got(NotFound) || exists v :: out == Got(Found(v)))
  {
    hide Latest; hide InForce;
    var i := LatestInForce(history, hash, hasher);
    var latest := Latest(history, hash, hasher);
    if latest.Some? {
      ForceSet(history, i, hash, hasher);
    }
    ReplyFound(latest, key);
  }

  lemma ForceSet(history: seq<Op>, i: nat, hash: u64, hasher: Key -> u64)
    requires InForce(history, i, hash, hasher)
    ensures i < |history| && history[i].SetOp?
  {
  }
}
