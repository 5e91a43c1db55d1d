/** A shard and its eviction goroutine as a state machine. Every critical section is one action, so that
    the runs are all the interleavings of any number of set and del calls with the timer and the goroutine. */
module Interleaving {
  import opened Options
  import opened Bytes
  import opened Ttl
  import opened Shards

  /** Where the eviction goroutine is: waiting for a tick, holding a tick, about to evict the keys of a
      timestamp it has taken out of the tree, or about to look at the tree again. */
  datatype Phase = Waiting | Ticked | Evicting(timestamp: u64, keys: set<Key>) | Looking

  /** writer is the entry of the set call that holds the shard lock, after it has removed the old record;
      puts and removals are the second halves of set and del, which run without the shard lock. A removal holds the
      timestamp that its del reads in the block it has freed, which others may overwrite before it is read. */
  datatype State = State(
    store: Model,
    writer: Option<Entry>,
    puts: multiset<(u64, Key)>,
    removals: multiset<(u64, Key)>,
    table: Table,
    phase: Phase,
    now: nat)

  datatype Action =
    | SetBegin(entry: Entry)
    | SetStore(reused: Option<(u64, Key)>)
    | SetPut(timestamp: u64, key: Key)
    | DelStore(key: Key)
    | DelRemove(timestamp: u64, key: Key)
    | Overwrite(timestamp: u64, key: Key, read: u64)
    | Expire
    | Receive
    | Detach
    | EvictKeys
    | Look
    | Tick(later: nat)

  /** Takes the first timestamp out of the tree, to be evicted. */
  ghost function Detached(s: State): State
    requires s.table.tree != map[]
  {
    var t := Head(s.table.tree);
    s.(table := s.table.(tree := s.table.tree - {t}), phase := Evicting(t, s.table.tree[t]))
  }

  /** The del of p now reads timestamp. */
  ghost function Reread(removals: multiset<(u64, Key)>, p: (u64, Key), timestamp: u64): multiset<(u64, Key)> {
    removals - multiset{p} + multiset{(timestamp, p.1)}
  }

  /** A set may store its entry in the block that a del has freed, which then reads the expiry of that entry; other
      writes into the block may make it read anything. */
  ghost predicate Does(s: State, a: Action, s': State, hash: Key -> u64)
    requires Seconds(s.now) < TWO_64
  {
    match a
    case SetBegin(e) =>
      && s.writer.None? && e.timestamp <= Horizon(s.now)
      && var h := hash(e.key);
         s' == s.(writer := Some(e),
                  table := if h in s.store then RemoveSpec(s.table, s.store[h].timestamp, e.key, s.now) else s.table)
    case SetStore(reused) =>
      && s.writer.Some? && (reused.Some? ==> reused.value in s.removals)
      && var e := s.writer.value;
         s' == s.(writer := None, store := s.store[hash(e.key) := e],
                  puts := if e.timestamp != NO_EXPIRY then s.puts + multiset{(e.timestamp, e.key)} else s.puts,
                  removals := if reused.Some? then Reread(s.removals, reused.value, e.timestamp) else s.removals)
    case SetPut(t, k) =>
      (t, k) in s.puts && s' == s.(puts := s.puts - multiset{(t, k)}, table := PutSpec(s.table, t, k, s.now))
    case DelStore(k) =>
      && s.writer.None? && hash(k) in s.store
      && s' == s.(store := s.store - {hash(k)}, removals := s.removals + multiset{(s.store[hash(k)].timestamp, k)})
    case DelRemove(t, k) =>
      && (t, k) in s.removals
      && s' == s.(removals := s.removals - multiset{(t, k)}, table := RemoveSpec(s.table, t, k, s.now))
    case Overwrite(t, k, read) =>
      (t, k) in s.removals && s' == s.(removals := Reread(s.removals, (t, k), read))
    case Expire =>
      && s.table.armed.Some? && s.table.armed.value <= s.now
      && s' == s.(table := s.table.(armed := None, fired := true))
    case Receive =>
      s.phase.Waiting? && s.table.fired && s' == s.(phase := Ticked, table := s.table.(fired := false))
    case Detach =>
      s.phase.Ticked? && s' == if s.table.tree == map[] then s.(phase := Waiting) else Detached(s)
    case EvictKeys =>
      && s.phase.Evicting? && s.writer.None?
      && s' == s.(store := Evicted(s.store, s.phase.timestamp, s.phase.keys, hash), phase := Looking)
    case Look =>
      && s.phase.Looking?
      && s' == if s.table.tree == map[] then s.(phase := Waiting)
               else if Head(s.table.tree) == Seconds(s.now) then Detached(s)
               else s.(phase := Waiting, table := Armed(s.table, Head(s.table.tree), s.now))
    case Tick(later) =>
      s.now <= later && Seconds(later) <= MAX_SECONDS && s' == s.(now := later)
  }

  // ---------------------------------------------------------------- invariants

  /** The goroutine is about to evict key at timestamp. */
  ghost predicate BeingEvicted(s: State, timestamp: u64, key: Key) {
    s.phase.Evicting? && s.phase.timestamp == timestamp && key in s.phase.keys
  }

  /** The expiry of key at timestamp will be seen to: it is in the tree, or on its way there, or being evicted. */
  ghost predicate Covered(s: State, timestamp: u64, key: Key) {
    || Records(s.table, timestamp, key)
    || (timestamp, key) in s.puts
    || BeingEvicted(s, timestamp, key)
  }

  /** The entry under h is about to be replaced by the set call that holds the lock. */
  ghost predicate BeingReplaced(s: State, h: u64, hash: Key -> u64) {
    s.writer.Some? && hash(s.writer.value.key) == h
  }

  /** The entry under h, if it is to expire, is seen to or about to be replaced. */
  ghost predicate SlotOk(s: State, h: u64, hash: Key -> u64)
    requires h in s.store
  {
    && hash(s.store[h].key) == h
    && (|| s.store[h].timestamp == NO_EXPIRY
        || BeingReplaced(s, h, hash)
        || Covered(s, s.store[h].timestamp, s.store[h].key))
  }

  ghost predicate Coverage(s: State, hash: Key -> u64) {
    forall h :: h in s.store ==> SlotOk(s, h, hash)
  }

  ghost predicate InRange(s: State) {
    && Timely(s.table, s.now)
    && (s.writer.Some? ==> s.writer.value.timestamp <= Horizon(s.now))
    && (forall p :: p in s.puts ==> p.0 <= Horizon(s.now))
  }

  /** While the goroutine waits, the timer is armed for the first timestamp or has just gone off for it. */
  ghost predicate TimerSet(s: State) {
    s.phase.Waiting? ==> Ready(s.table, s.now)
  }

  ghost predicate Inv(s: State, hash: Key -> u64) {
    InRange(s) && Coverage(s, hash) && TimerSet(s)
  }

  ghost predicate Init(s: State) {
    && s.store == map[] && s.writer.None? && s.puts == multiset{} && s.removals == multiset{}
    && s.table == Table(map[], Some(s.now + TEN_HOURS), false)
    && s.phase.Waiting? && Seconds(s.now) <= MAX_SECONDS
  }

  /** The second half of a del does no harm: its key has not been stored again with the same expiry, or that
      entry is seen to otherwise. */
  ghost predicate Harmless(s: State, timestamp: u64, key: Key, hash: Key -> u64) {
    var h := hash(key);
    h in s.store && s.store[h].key == key && s.store[h].timestamp == timestamp != NO_EXPIRY ==>
      || BeingReplaced(s, h, hash)
      || (timestamp, key) in s.puts
      || BeingEvicted(s, timestamp, key)
  }

  // ---------------------------------------------------------------- each action keeps the invariants

  lemma KeepsRange(s: State, a: Action, s': State, hash: Key -> u64)
    requires InRange(s) && Does(s, a, s', hash)
    ensures InRange(s')
  {
    hide Evicted; hide PutSpec; hide RemoveSpec; hide Timely;
    match a
    case SetBegin(e) =>
      var h := hash(e.key);
      if h in s.store {
        RemoveTimely(s.table, s.store[h].timestamp, e.key, s.now);
      }
    case SetPut(t, k) =>
      assert (t, k).0 <= Horizon(s.now);
      PutTimely(s.table, t, k, s.now);
    case DelRemove(t, k) =>
      RemoveTimely(s.table, t, k, s.now);
    case _ => QuietRange(s, a, s', hash);
  }

  lemma QuietRange(s: State, a: Action, s': State, hash: Key -> u64)
    requires InRange(s) && Does(s, a, s', hash) && !a.SetBegin? && !a.SetPut? && !a.DelRemove?
    ensures InRange(s')
  {
    hide Evicted; hide PutSpec; hide RemoveSpec; hide Wait; hide Timely; hide Head;
    TimelyFewer(s.table, s.now, s.table, s.now);
    if a.Tick? {
      TimelyFewer(s.table, s.now, s'.table, s'.now);
    } else {
      assert s'.table.tree.Keys <= s.table.tree.Keys;
      TimelyFewer(s.table, s.now, s'.table, s.now);
    }
  }

  /** Time passes and timestamps go. */
  lemma TimelyFewer(s: Table, now: nat, s': Table, later: nat)
    requires Timely(s, now) && s'.tree.Keys <= s.tree.Keys
    ensures Seconds(now) <= MAX_SECONDS
    ensures now <= later && Seconds(later) <= MAX_SECONDS ==> Timely(s', later)
  {
  }

  lemma KeepsTimer(s: State, a: Action, s': State, hash: Key -> u64)
    requires InRange(s) && TimerSet(s) && Does(s, a, s', hash)
    ensures TimerSet(s')
  {
    hide Wait;
    match a
    case SetBegin(e) =>
      var h := hash(e.key);
      if h in s.store && s.phase.Waiting? {
        RemoveReady(s.table, s.store[h].timestamp, e.key, s.now);
      }
    case SetPut(t, k) =>
      if s.phase.Waiting? {
        PutReady(s.table, t, k, s.now);
      }
    case DelRemove(t, k) =>
      if s.phase.Waiting? {
        RemoveReady(s.table, t, k, s.now);
      }
    case Look =>
      if s.table.tree != map[] {
        ArmedInSecond(Head(s.table.tree), s.now);
      }
    case _ =>
  }

  lemma BeginCoverage(s: State, e: Entry, s': State, hash: Key -> u64)
    requires Seconds(s.now) < TWO_64 && Coverage(s, hash) && Does(s, SetBegin(e), s', hash)
    ensures Coverage(s', hash)
  {
    hide RemoveSpec;
    var h := hash(e.key);
    forall g | g in s'.store ensures SlotOk(s', g, hash) {
      if h in s.store {
        RemoveRecords(s.table, s.store[h].timestamp, e.key, s.now, s.store[g].timestamp, s.store[g].key);
      }
    }
  }

  lemma PutCoverage(s: State, t: u64, k: Key, s': State, hash: Key -> u64)
    requires Seconds(s.now) < TWO_64 && Coverage(s, hash) && Does(s, SetPut(t, k), s', hash)
    ensures Coverage(s', hash)
  {
    hide PutSpec;
    forall g | g in s'.store ensures SlotOk(s', g, hash) {
      PutRecords(s.table, t, k, s.now, s.store[g].timestamp, s.store[g].key);
    }
  }

  /** The second half of a del keeps coverage exactly when it does no harm. */
  lemma RemoveCoverage(s: State, t: u64, k: Key, s': State, hash: Key -> u64)
    requires Seconds(s.now) < TWO_64 && Coverage(s, hash) && Does(s, DelRemove(t, k), s', hash)
    ensures Coverage(s', hash) <==> Harmless(s, t, k, hash)
  {
    hide RemoveSpec;
    if Harmless(s, t, k, hash) {
      forall g | g in s'.store ensures SlotOk(s', g, hash) {
        RemoveRecords(s.table, t, k, s.now, s.store[g].timestamp, s.store[g].key);
      }
    } else {
      RemoveRecords(s.table, t, k, s.now, t, k);
      assert !SlotOk(s', hash(k), hash);
    }
  }

  lemma EvictCoverage(s: State, s': State, hash: Key -> u64)
    requires Seconds(s.now) < TWO_64 && Coverage(s, hash) && Does(s, EvictKeys, s', hash)
    ensures Coverage(s', hash)
  {
    forall g | g in s'.store ensures SlotOk(s', g, hash) {
      assert SlotOk(s, g, hash);
    }
  }

  lemma KeepsCoverage(s: State, a: Action, s': State, hash: Key -> u64)
    requires Seconds(s.now) < TWO_64 && Coverage(s, hash) && Does(s, a, s', hash)
    requires a.DelRemove? ==> Harmless(s, a.timestamp, a.key, hash)
    ensures Coverage(s', hash)
  {
    hide RemoveSpec; hide PutSpec; hide Armed; hide Evicted;
    match a
    case SetBegin(e) => BeginCoverage(s, e, s', hash);
    case SetPut(t, k) => PutCoverage(s, t, k, s', hash);
    case DelRemove(t, k) => RemoveCoverage(s, t, k, s', hash);
    case EvictKeys => EvictCoverage(s, s', hash);
    case _ => QuietCoverage(s, a, s', hash);
  }

  lemma QuietCoverage(s: State, a: Action, s': State, hash: Key -> u64)
    requires Seconds(s.now) < TWO_64 && Coverage(s, hash) && Does(s, a, s', hash)
    requires a.SetStore? || a.DelStore? || a.Overwrite? || a.Expire? || a.Receive? || a.Detach? || a.Look? || a.Tick?
    ensures Coverage(s', hash)
  {
    hide Wait; hide Evicted; hide RemoveSpec; hide PutSpec; hide Coverage; hide Records; hide Head;
    forall g | g in s'.store ensures SlotOk(s', g, hash) {
      if g in s.store && s'.store[g] == s.store[g] && !BeingReplaced(s, g, hash) {
        CoverageAt(s, g, hash);
        if Covered(s, s.store[g].timestamp, s.store[g].key) {
          QuietRecords(s, a, s', hash, s.store[g].timestamp, s.store[g].key);
        }
      } else if g in s.store {
        CoverageAt(s, g, hash);
      }
    }
    CoverageFromSlots(s', hash);
  }

  lemma CoverageAt(s: State, g: u64, hash: Key -> u64)
    requires Coverage(s, hash) && g in s.store
    ensures SlotOk(s, g, hash)
  {
  }

  lemma CoverageFromSlots(s: State, hash: Key -> u64)
    requires forall g :: g in s.store ==> SlotOk(s, g, hash)
    ensures Coverage(s, hash)
  {
  }

  lemma QuietRecords(s: State, a: Action, s': State, hash: Key -> u64, t: u64, k: Key)
    requires Seconds(s.now) < TWO_64 && Does(s, a, s', hash) && Covered(s, t, k)
    requires a.SetStore? || a.DelStore? || a.Overwrite? || a.Expire? || a.Receive? || a.Detach? || a.Look? || a.Tick?
    ensures Covered(s', t, k)
  {
    hide Wait; hide Evicted; hide RemoveSpec; hide PutSpec;
  }

  // ---------------------------------------------------------------- whole runs

  ghost predicate IsPath(states: seq<State>, actions: seq<Action>, hash: Key -> u64) {
    && |states| == |actions| + 1
    && forall i :: 0 <= i < |actions| ==>
      Seconds(states[i].now) < TWO_64 && Does(states[i], actions[i], states[i + 1], hash)
  }

  ghost predicate IsRun(states: seq<State>, actions: seq<Action>, hash: Key -> u64) {
    IsPath(states, actions, hash) && Init(states[0])
  }

  /** Every second half of a del does no harm. */
  ghost predicate Tame(states: seq<State>, actions: seq<Action>, hash: Key -> u64)
    requires |states| == |actions| + 1
  {
    forall i :: 0 <= i < |actions| && actions[i].DelRemove? ==>
      Harmless(states[i], actions[i].timestamp, actions[i].key, hash)
  }

  lemma {:induction false} TameCovered(states: seq<State>, actions: seq<Action>, hash: Key -> u64, i: nat)
    requires IsRun(states, actions, hash) && Tame(states, actions, hash) && i < |states|
    ensures Inv(states[i], hash)
  {
    hide Does; hide Harmless; hide Coverage; hide InRange; hide TimerSet;
    if i == 0 {
      InitInv(states[0], hash);
    } else {
      TameCovered(states, actions, hash, i - 1);
      var s, a, s' := states[i - 1], actions[i - 1], states[i];
      assert Does(s, a, s', hash);
      KeepsRange(s, a, s', hash);
      KeepsTimer(s, a, s', hash);
      KeepsCoverage(s, a, s', hash);
    }
  }

  /** No set stores a key while a del of that key has its second half still to come. */
  ghost predicate NotOvertaken(states: seq<State>, actions: seq<Action>)
    requires |states| == |actions| + 1
  {
    forall i :: 0 <= i < |actions| && actions[i].SetStore? ==> StoresFreely(states[i])
  }

  /** What the writer stores does not expire, or the goroutine is just evicting it, or no del of its key is to come. */
  ghost predicate StoresFreely(s: State) {
    s.writer.Some? ==>
      || s.writer.value.timestamp == NO_EXPIRY
      || BeingEvicted(s, s.writer.value.timestamp, s.writer.value.key)
      || forall p :: p in s.removals ==> p.1 != s.writer.value.key
  }

  /** The entry under the hash of key is the one for key and timestamp. */
  ghost predicate StoredAs(s: State, timestamp: u64, key: Key, hash: Key -> u64) {
    && timestamp != NO_EXPIRY
    && hash(key) in s.store && s.store[hash(key)].timestamp == timestamp && s.store[hash(key)].key == key
  }

  /** A key whose removal is still to come has no entry stored that is to expire, unless it is being evicted. */
  ghost predicate Unstored(s: State, key: Key, hash: Key -> u64) {
    hash(key) in s.store && s.store[hash(key)].key == key && s.store[hash(key)].timestamp != NO_EXPIRY ==>
      BeingEvicted(s, s.store[hash(key)].timestamp, key)
  }

  ghost predicate Settled(s: State, hash: Key -> u64) {
    forall p :: p in s.removals ==> Unstored(s, p.1, hash)
  }

  lemma StepSettled(s: State, a: Action, s': State, hash: Key -> u64)
    requires Seconds(s.now) < TWO_64 && Settled(s, hash) && Does(s, a, s', hash)
    requires a.SetStore? ==> StoresFreely(s)
    ensures Settled(s', hash)
  {
    hide Does; hide Unstored; hide StoresFreely;
    forall p | p in s'.removals ensures Unstored(s', p.1, hash) {
      RemovalFrom(s, a, s', hash, p);
      if q :| q in s.removals && q.1 == p.1 {
        StaysUnstored(s, a, s', hash, q);
      }
    }
  }

  /** A removal to come was to come before for its key, or its del has just deleted what was stored. */
  lemma RemovalFrom(s: State, a: Action, s': State, hash: Key -> u64, p: (u64, Key))
    requires Seconds(s.now) < TWO_64 && Does(s, a, s', hash) && p in s'.removals
    ensures (exists q :: q in s.removals && q.1 == p.1) || Unstored(s', p.1, hash)
  {
    hide RemoveSpec; hide PutSpec; hide Armed; hide Head; hide Evicted; hide Detached;
    if a.Detach? || a.Look? {
      SameStore(s, a, s', hash);
    }
    if a.SetStore? && a.reused.Some? && p !in s.removals {
      assert a.reused.value.1 == p.1;
    }
    if a.Overwrite? && p !in s.removals {
      assert (a.timestamp, a.key).1 == p.1;
    }
  }

  lemma StaysUnstored(s: State, a: Action, s': State, hash: Key -> u64, q: (u64, Key))
    requires Seconds(s.now) < TWO_64 && Does(s, a, s', hash) && q in s.removals && Unstored(s, q.1, hash)
    requires a.SetStore? ==> StoresFreely(s)
    ensures Unstored(s', q.1, hash)
  {
    hide RemoveSpec; hide PutSpec; hide Armed; hide Head; hide Reread;
    if a.Detach? || a.Look? {
      SameStore(s, a, s', hash);
    }
  }

  lemma SameStore(s: State, a: Action, s': State, hash: Key -> u64)
    requires Seconds(s.now) < TWO_64 && Does(s, a, s', hash) && (a.Detach? || a.Look?)
    ensures s'.store == s.store && s'.removals == s.removals
  {
    hide Head; hide Wait;
  }

  lemma {:induction false} RunSettled(states: seq<State>, actions: seq<Action>, hash: Key -> u64, i: nat)
    requires IsRun(states, actions, hash) && NotOvertaken(states, actions) && i < |states|
    ensures Settled(states[i], hash)
  {
    hide Does; hide Settled; hide StoresFreely;
    if i == 0 {
      StartsSettled(states[0], hash);
    } else {
      RunSettled(states, actions, hash, i - 1);
      assert Does(states[i - 1], actions[i - 1], states[i], hash);
      StepSettled(states[i - 1], actions[i - 1], states[i], hash);
    }
  }

  lemma StartsSettled(s: State, hash: Key -> u64)
    requires Init(s)
    ensures Settled(s, hash)
  {
  }

  lemma NotOvertakenTame(states: seq<State>, actions: seq<Action>, hash: Key -> u64)
    requires IsRun(states, actions, hash) && NotOvertaken(states, actions)
    ensures Tame(states, actions, hash)
  {
    hide Does; hide Harmless; hide Settled;
    forall i | 0 <= i < |actions| && actions[i].DelRemove?
      ensures Harmless(states[i], actions[i].timestamp, actions[i].key, hash)
    {
      RunSettled(states, actions, hash, i);
      assert Does(states[i], actions[i], states[i + 1], hash);
      SettledHarmless(states[i], actions[i], states[i + 1], hash);
    }
  }

  /** Over every interleaving in which no del is overtaken, every entry that is to expire is seen to, and a waiting
      goroutine has its timer set. */
  lemma AlwaysCovered(states: seq<State>, actions: seq<Action>, hash: Key -> u64, i: nat)
    requires IsRun(states, actions, hash) && NotOvertaken(states, actions) && i < |states|
    ensures Inv(states[i], hash)
  {
    NotOvertakenTame(states, actions, hash);
    TameCovered(states, actions, hash, i);
  }

  /** Nothing comes between the two halves of a del. */
  ghost predicate AtomicDels(actions: seq<Action>) {
    forall i :: 0 <= i < |actions| - 1 && actions[i].DelStore? ==> actions[i + 1].DelRemove?
  }

  /** With atomic dels, removals are to come only right after the first half of a del, and then one. */
  lemma {:induction false} AtomicRemovals(states: seq<State>, actions: seq<Action>, hash: Key -> u64, i: nat)
    requires IsRun(states, actions, hash) && AtomicDels(actions) && i < |states|
    ensures |states[i].removals| == if i > 0 && actions[i - 1].DelStore? then 1 else 0
  {
    hide PutSpec; hide RemoveSpec; hide Evicted;
    if i > 0 {
      AtomicRemovals(states, actions, hash, i - 1);
      assert Does(states[i - 1], actions[i - 1], states[i], hash);
      if i > 1 && actions[i - 2].DelStore? {
        assert actions[i - 1].DelRemove?;
      }
    }
  }

  /** With atomic dels no del is overtaken. */
  lemma AtomicNotOvertaken(states: seq<State>, actions: seq<Action>, hash: Key -> u64)
    requires IsRun(states, actions, hash) && AtomicDels(actions)
    ensures NotOvertaken(states, actions)
  {
    hide Does;
    forall i | 0 <= i < |actions| && actions[i].SetStore? ensures StoresFreely(states[i]) {
      AtomicRemovals(states, actions, hash, i);
      assert i > 0 ==> !actions[i - 1].DelStore?;
    }
  }

  /** A set stores its entry, and no other does after it. */
  ghost predicate OneStore(actions: seq<Action>) {
    actions != [] && actions[0].SetStore? && forall i :: 0 < i < |actions| ==> !actions[i].SetStore?
  }

  /** As long as no other set stores an entry, a set that overtakes no del keeps the coverage. */
  lemma {:induction false} FreeCovered(states: seq<State>, actions: seq<Action>, hash: Key -> u64, i: nat)
    requires IsPath(states, actions, hash) && OneStore(actions) && i < |states|
    requires Coverage(states[0], hash) && Settled(states[0], hash) && StoresFreely(states[0])
    ensures Coverage(states[i], hash) && Settled(states[i], hash)
  {
    hide Does; hide Settled; hide StoresFreely; hide Coverage; hide Harmless;
    if i > 0 {
      FreeCovered(states, actions, hash, i - 1);
      var s, a := states[i - 1], actions[i - 1];
      assert Does(s, a, states[i], hash);
      StepSettled(s, a, states[i], hash);
      if a.DelRemove? {
        SettledHarmless(s, a, states[i], hash);
      }
      KeepsCoverage(s, a, states[i], hash);
    }
  }

  lemma SettledHarmless(s: State, a: Action, s': State, hash: Key -> u64)
    requires Seconds(s.now) < TWO_64 && a.DelRemove? && Does(s, a, s', hash) && Settled(s, hash)
    ensures Harmless(s, a.timestamp, a.key, hash)
  {
    hide PutSpec; hide RemoveSpec; hide Evicted;
    var p := (a.timestamp, a.key);
    assert Unstored(s, p.1, hash);
  }

  /** A set keeps every entry seen to, whatever happens until another set stores one, if and only if it overtakes no
      del of its key. */
  lemma ExactlyFree(s: State, hash: Key -> u64)
    requires Seconds(s.now) < TWO_64 && Coverage(s, hash) && Settled(s, hash) && s.writer.Some?
    ensures StoresFreely(s) <==>
      forall states: seq<State>, actions: seq<Action> ::
        IsPath(states, actions, hash) && states[0] == s && OneStore(actions) ==> Coverage(states[|actions|], hash)
  {
    hide Does; hide Settled; hide StoresFreely; hide Coverage; hide OneStore;
    if StoresFreely(s) {
      forall states: seq<State>, actions: seq<Action> |
        IsPath(states, actions, hash) && states[0] == s && OneStore(actions)
        ensures Coverage(states[|actions|], hash)
      {
        FreeCovered(states, actions, hash, |actions|);
      }
    } else {
      var states, actions := OvertakenCanLose(s, hash);
      assert IsPath(states, actions, hash) && OneStore(actions);
    }
  }

  /** Conversely, a set that overtakes a del of its key, and stores its entry in the block that the del has freed,
      leaves a run that can go on to lose the record. */
  lemma OvertakenCanLose(s: State, hash: Key -> u64) returns (states: seq<State>, actions: seq<Action>)
    requires Seconds(s.now) < TWO_64 && Coverage(s, hash) && s.writer.Some? && !StoresFreely(s)
    ensures IsPath(states, actions, hash) && states[0] == s && OneStore(actions) && !Coverage(states[|actions|], hash)
    ensures forall i :: 0 <= i < |actions| ==> !actions[i].Overwrite?
  {
    hide PutSpec; hide RemoveSpec; hide Coverage; hide Evicted;
    var e := s.writer.value;
    var p :| p in s.removals && p.1 == e.key;
    var s1 := s.(writer := None, store := s.store[hash(e.key) := e], puts := s.puts + multiset{(e.timestamp, e.key)},
                 removals := Reread(s.removals, p, e.timestamp));
    QuietCoverage(s, SetStore(Some(p)), s1, hash);
    var rest, more := CanLose(s1, e.timestamp, e.key, hash);
    states, actions := [s] + rest, [SetStore(Some(p))] + more;
  }

  /** The pending puts run, then the second half of the del. */
  lemma {:induction false} CanLose(s: State, t: u64, k: Key, hash: Key -> u64)
    returns (states: seq<State>, actions: seq<Action>)
    requires Seconds(s.now) < TWO_64 && Coverage(s, hash)
    requires (t, k) in s.removals && StoredAs(s, t, k, hash) && s.writer.None?
    requires !BeingEvicted(s, t, k)
    ensures IsPath(states, actions, hash) && states[0] == s
    ensures forall i :: 0 <= i < |actions| ==> !actions[i].Overwrite? && !actions[i].SetStore?
    ensures !Coverage(states[|actions|], hash)
    decreases s.puts[(t, k)]
  {
    hide PutSpec; hide RemoveSpec; hide Coverage;
    if (t, k) in s.puts {
      var s1 := s.(puts := s.puts - multiset{(t, k)}, table := PutSpec(s.table, t, k, s.now));
      PutCoverage(s, t, k, s1, hash);
      var rest, more := CanLose(s1, t, k, hash);
      states, actions := [s] + rest, [SetPut(t, k)] + more;
    } else {
      var s1 := s.(removals := s.removals - multiset{(t, k)}, table := RemoveSpec(s.table, t, k, s.now));
      RemoveCoverage(s, t, k, s1, hash);
      states, actions := [s, s1], [DelRemove(t, k)];
    }
  }

  lemma InitInv(s: State, hash: Key -> u64)
    requires Init(s)
    ensures Inv(s, hash)
  {
  }

  /** Between calls, an entry whose second is over means that the timer is due: nothing expired is forgotten. */
  lemma NothingForgotten(s: State, h: u64, hash: Key -> u64)
    requires Inv(s, hash) && s.writer.None? && s.puts == multiset{} && s.phase.Waiting?
    requires h in s.store && s.store[h].timestamp != NO_EXPIRY
    requires (s.store[h].timestamp + 1) * SECOND <= s.now
    ensures Pending(s.table, s.now)
  {
    assert SlotOk(s, h, hash);
    var t := s.store[h].timestamp;
    assert Head(s.table.tree) <= t;
  }

  /** The goroutine takes the tree lock as soon as it has a tick, before any other action. */
  ghost predicate Prompt(actions: seq<Action>) {
    forall i :: 0 <= i < |actions| - 1 && actions[i].Receive? ==> actions[i + 1].Detach?
  }

  /** What the goroutine holds, or is about to take, has been reached by the clock. */
  ghost predicate OnTime(s: State) {
    && (s.phase.Evicting? ==> s.phase.timestamp <= Seconds(s.now))
    && (s.phase.Ticked? ==> Due(s.table, s.now))
  }

  lemma StepOnTime(s: State, a: Action, s': State, hash: Key -> u64)
    requires InRange(s) && TimerSet(s) && OnTime(s) && Does(s, a, s', hash)
    requires s.phase.Ticked? ==> a.Detach?
    ensures OnTime(s')
    ensures s'.phase.Ticked? ==> a.Receive?
  {
    hide Wait; hide Evicted; hide PutSpec; hide RemoveSpec;
  }

  lemma {:induction false} PromptOnTime(states: seq<State>, actions: seq<Action>, hash: Key -> u64, i: nat)
    requires IsRun(states, actions, hash) && Prompt(actions) && i < |states|
    ensures InRange(states[i]) && TimerSet(states[i]) && OnTime(states[i])
    ensures states[i].phase.Ticked? ==> i > 0 && actions[i - 1].Receive?
  {
    hide Does; hide InRange; hide TimerSet; hide OnTime;
    if i == 0 {
      InitInv(states[0], hash);
      assert OnTime(states[0]) by { StartsOnTime(states[0]); }
    } else {
      PromptOnTime(states, actions, hash, i - 1);
      var s, a, s' := states[i - 1], actions[i - 1], states[i];
      assert Does(s, a, s', hash);
      KeepsRange(s, a, s', hash);
      KeepsTimer(s, a, s', hash);
      if s.phase.Ticked? {
        assert actions[i - 2].Receive?;
      }
      StepOnTime(s, a, s', hash);
    }
  }

  lemma StartsOnTime(s: State)
    requires s.phase.Waiting?
    ensures OnTime(s)
  {
  }

  /** Whenever the goroutine takes the first timestamp on a tick, the clock has reached it. */
  ghost predicate Punctual(states: seq<State>, actions: seq<Action>)
    requires |states| == |actions| + 1
  {
    forall i :: 0 <= i < |actions| && actions[i].Detach? ==> Due(states[i].table, states[i].now)
  }

  /** A goroutine that takes the tree lock right after its tick is punctual. */
  lemma PromptPunctual(states: seq<State>, actions: seq<Action>, hash: Key -> u64)
    requires IsRun(states, actions, hash) && Prompt(actions)
    ensures Punctual(states, actions)
  {
    hide PutSpec; hide RemoveSpec; hide Evicted; hide InRange; hide TimerSet;
    forall i | 0 <= i < |actions| && actions[i].Detach? ensures Due(states[i].table, states[i].now) {
      PromptOnTime(states, actions, hash, i);
      assert Does(states[i], actions[i], states[i + 1], hash);
    }
  }

  /** What is being evicted has been reached by the clock. */
  ghost predicate EvictsReached(s: State) {
    s.phase.Evicting? ==> s.phase.timestamp <= Seconds(s.now)
  }

  lemma {:induction false} PunctualReached(states: seq<State>, actions: seq<Action>, hash: Key -> u64, i: nat)
    requires IsRun(states, actions, hash) && Punctual(states, actions) && i < |states|
    ensures EvictsReached(states[i])
  {
    hide Does; hide Due;
    if i > 0 {
      PunctualReached(states, actions, hash, i - 1);
      assert Does(states[i - 1], actions[i - 1], states[i], hash);
      StepReached(states[i - 1], actions[i - 1], states[i], hash);
    }
  }

  lemma StepReached(s: State, a: Action, s': State, hash: Key -> u64)
    requires Seconds(s.now) < TWO_64 && EvictsReached(s) && Does(s, a, s', hash) && (a.Detach? ==> Due(s.table, s.now))
    ensures EvictsReached(s')
  {
    hide PutSpec; hide RemoveSpec; hide Evicted; hide Wait; hide Head;
  }

  /** In every punctual run, an entry is evicted only once its expiry has been reached. */
  lemma NeverEarly(states: seq<State>, actions: seq<Action>, hash: Key -> u64, i: nat, h: u64)
    requires IsRun(states, actions, hash) && Punctual(states, actions) && i < |actions|
    requires actions[i].EvictKeys? && h in states[i].store && h !in states[i + 1].store
    ensures states[i].store[h].timestamp <= Seconds(states[i].now)
  {
    PunctualReached(states, actions, hash, i);
    assert Does(states[i], actions[i], states[i + 1], hash);
  }

  /** What the goroutine has taken out of the tree it holds until it evicts it. */
  lemma {:induction false} HeldUntilEvicted(states: seq<State>, actions: seq<Action>, hash: Key -> u64, i: nat, j: nat)
    requires IsRun(states, actions, hash) && i < j < |states|
    requires actions[i].Detach? && states[i].table.tree != map[]
    requires forall m :: i < m < j ==> !actions[m].EvictKeys?
    ensures var tree := states[i].table.tree; states[j].phase == Evicting(Head(tree), tree[Head(tree)])
  {
    hide PutSpec; hide RemoveSpec; hide Evicted; hide Head;
    assert Does(states[j - 1], actions[j - 1], states[j], hash);
    if i + 1 < j {
      HeldUntilEvicted(states, actions, hash, i, j - 1);
    }
  }

  /** Conversely, whatever the goroutine takes before its time and evicts before that time comes goes early: of the
      entries that are left by then, exactly those of that timestamp that its keys name. */
  lemma EarlyUnlessPunctual(states: seq<State>, actions: seq<Action>, hash: Key -> u64, i: nat, j: nat, h: u64)
    requires IsRun(states, actions, hash) && i < j < |actions|
    requires actions[i].Detach? && states[i].table.tree != map[] && actions[j].EvictKeys?
    requires forall m :: i < m < j ==> !actions[m].EvictKeys?
    requires Seconds(states[j].now) < Head(states[i].table.tree) && h in states[j].store
    ensures !Due(states[i].table, states[i].now)
    ensures var t := Head(states[i].table.tree);
      h !in states[j + 1].store <==>
      states[j].store[h].timestamp == t && exists k :: k in states[i].table.tree[t] && hash(k) == h
  {
    hide PutSpec; hide RemoveSpec; hide Head;
    HeldUntilEvicted(states, actions, hash, i, j);
    assert Does(states[j], actions[j], states[j + 1], hash);
    ClockForward(states, actions, hash, i, j);
  }

  lemma {:induction false} ClockForward(states: seq<State>, actions: seq<Action>, hash: Key -> u64, i: nat, j: nat)
    requires IsRun(states, actions, hash) && i <= j < |states|
    ensures states[i].now <= states[j].now
  {
    hide PutSpec; hide RemoveSpec; hide Evicted; hide Head;
    if i < j {
      ClockForward(states, actions, hash, i, j - 1);
      assert Does(states[j - 1], actions[j - 1], states[j], hash);
    }
  }

  // ---------------------------------------------------------------- what each action does to the records

  /** A set takes out the record of the entry that it replaces before it stores, and puts its own afterwards; a del
      takes out a record; the goroutine takes out all records of the first timestamp. Nothing else changes any. */
  lemma StepRecords(s: State, a: Action, s': State, hash: Key -> u64, t: u64, k: Key)
    requires Seconds(s.now) < TWO_64 && Does(s, a, s', hash)
    ensures Records(s'.table, t, k) <==>
      match a
      case SetBegin(e) =>
        Records(s.table, t, k) && !(hash(e.key) in s.store && t == s.store[hash(e.key)].timestamp && k == e.key)
      case SetPut(u, j) => Records(s.table, t, k) || (t == u && k == j)
      case DelRemove(u, j) => Records(s.table, t, k) && !(t == u && k == j)
      case Detach => Records(s.table, t, k) && exists u :: u in s.table.tree && u < t
      case Look =>
        && Records(s.table, t, k)
        && (t == Seconds(s.now) ==> exists u :: u in s.table.tree && u < t)
      case _ => Records(s.table, t, k)
  {
    hide Wait; hide Evicted;
    match a
    case SetBegin(e) =>
      hide RemoveSpec;
      if hash(e.key) in s.store {
        RemoveRecords(s.table, s.store[hash(e.key)].timestamp, e.key, s.now, t, k);
      }
    case SetPut(u, j) => PutRecords(s.table, u, j, s.now, t, k);
    case DelRemove(u, j) => RemoveRecords(s.table, u, j, s.now, t, k);
    case _ =>
  }

  // ---------------------------------------------------------------- an expired entry can be evicted

  lemma JoinPaths(states: seq<State>, actions: seq<Action>, more: seq<State>, later: seq<Action>, hash: Key -> u64)
    requires IsPath(states, actions, hash) && IsPath(more, later, hash) && states[|actions|] == more[0]
    ensures IsPath(states + more[1..], actions + later, hash)
    ensures (states + more[1..])[|actions + later|] == more[|later|]
  {
    hide Does;
    var all, whole := states + more[1..], actions + later;
    forall i | 0 <= i < |whole|
      ensures Seconds(all[i].now) < TWO_64 && Does(all[i], whole[i], all[i + 1], hash)
    {
      if i >= |actions| {
        assert all[i] == more[i - |actions|] && all[i + 1] == more[i - |actions| + 1];
        assert whole[i] == later[i - |actions|];
      }
    }
  }

  /** The second of the entry under h is over, and it is recorded; no call is under way and the goroutine waits. */
  ghost predicate Overdue(s: State, h: u64, hash: Key -> u64) {
    && InRange(s) && TimerSet(s) && s.writer.None? && s.phase.Waiting? && h in s.store
    && s.store[h].timestamp != NO_EXPIRY && hash(s.store[h].key) == h
    && Records(s.table, s.store[h].timestamp, s.store[h].key)
    && (s.store[h].timestamp + 1) * SECOND <= s.now
  }

  /** One tick: the first timestamp is taken and evicted. */
  lemma TickRound(s: State, h: u64, hash: Key -> u64) returns (states: seq<State>, actions: seq<Action>)
    requires Overdue(s, h, hash)
    ensures IsPath(states, actions, hash) && states[0] == s && forall i :: 0 <= i < |actions| ==> !actions[i].Tick?
    ensures var s', t := states[|actions|], Head(s.table.tree);
      && s' == s.(store := Evicted(s.store, t, s.table.tree[t], hash), phase := Looking, table := s'.table)
      && s'.table.tree == s.table.tree - {t} && !s'.table.fired
  {
    hide PutSpec; hide RemoveSpec; hide Evicted; hide Wait;
    assert Head(s.table.tree) <= s.store[h].timestamp;
    var t := Head(s.table.tree);
    var s0 := if s.table.fired then s else s.(table := s.table.(armed := None, fired := true));
    var s1 := s0.(phase := Ticked, table := s0.table.(fired := false));
    var s2 := Detached(s1);
    var s3 := s2.(store := Evicted(s.store, t, s.table.tree[t], hash), phase := Looking);
    assert Does(s0, Receive, s1, hash) && Does(s1, Detach, s2, hash) && Does(s2, EvictKeys, s3, hash);
    if s.table.fired {
      states, actions := [s0, s1, s2, s3], [Receive, Detach, EvictKeys];
    } else {
      assert Does(s, Expire, s0, hash);
      states, actions := [s, s0, s1, s2, s3], [Expire, Receive, Detach, EvictKeys];
    }
  }

  /** From there, without any more time passing, the goroutine can go on until the entry is evicted: a timer armed for
      a past timestamp goes off at once. */
  lemma {:induction false} ExpiredCanGo(s: State, h: u64, hash: Key -> u64)
    returns (states: seq<State>, actions: seq<Action>)
    requires Overdue(s, h, hash)
    ensures IsPath(states, actions, hash) && states[0] == s && forall i :: 0 <= i < |actions| ==> !actions[i].Tick?
    ensures h !in states[|actions|].store
    decreases |s.table.tree|
  {
    hide Does; hide Evicted; hide Overdue; hide Head;
    states, actions := TickRound(s, h, hash);
    var s1, t := states[|actions|], Head(s.table.tree);
    EvictedOrLater(s, h, t, hash);
    if h in s1.store {
      var s2 := LookAgain(s, s1, h, hash);
      var pair := [s1, s2];
      assert IsPath(pair, [Look], hash);
      JoinPaths(states, actions, pair, [Look], hash);
      states, actions := states + pair[1..], actions + [Look];
      var rest, more := ExpiredCanGo(s2, h, hash);
      JoinPaths(states, actions, rest, more, hash);
      states, actions := states + rest[1..], actions + more;
    }
  }

  lemma EvictedOrLater(s: State, h: u64, t: u64, hash: Key -> u64)
    requires Overdue(s, h, hash) && t == Head(s.table.tree)
    ensures var store := Evicted(s.store, t, s.table.tree[t], hash);
      h in store ==> t < s.store[h].timestamp && store[h] == s.store[h]
  {
    hide Wait;
    assert s.store[h].key in s.table.tree[s.store[h].timestamp];
  }

  /** A first timestamp that is past arms the timer, which is then due at once. */
  lemma LookAgain(s: State, s1: State, h: u64, hash: Key -> u64) returns (s2: State)
    requires Overdue(s, h, hash) && h in s1.store && s1.store[h] == s.store[h]
    requires Head(s.table.tree) < s.store[h].timestamp
    requires s1 == s.(store := s1.store, phase := Looking, table := s1.table)
    requires s1.table.tree == s.table.tree - {Head(s.table.tree)} && !s1.table.fired
    ensures Does(s1, Look, s2, hash) && Overdue(s2, h, hash) && s2.phase.Waiting? && Pending(s2.table, s2.now)
    ensures s2.store == s1.store && |s2.table.tree| < |s.table.tree|
  {
    hide Wait;
    var t := Head(s.table.tree);
    assert s.store[h].timestamp in s1.table.tree;
    var u := Head(s1.table.tree);
    ArmedInSecond(u, s.now);
    WaitExact(u, Seconds(s.now));
    s2 := s1.(phase := Waiting, table := Armed(s1.table, u, s.now));
  }

  // ---------------------------------------------------------------- interleavings that go wrong

  const K: Key := [1]

  /** A set with nothing in between does what the set of a shard does. */
  lemma SetAlone(s: State, e: Entry, hash: Key -> u64) returns (s1: State, s2: State, s3: State)
    requires Seconds(s.now) < TWO_64 && s.writer.None? && s.puts == multiset{}
    requires NO_EXPIRY < e.timestamp <= Horizon(s.now)
    ensures s1.now == s2.now == s.now
    ensures Does(s, SetBegin(e), s1, hash) && Does(s1, SetStore(None), s2, hash)
    ensures Does(s2, SetPut(e.timestamp, e.key), s3, hash)
    ensures s3 == s.(store := s.store[hash(e.key) := e],
                     table := TableAfterSet(s.table, s.store, e.key, hash(e.key), e.timestamp, s.now))
  {
    hide Evicted; hide PutSpec; hide RemoveSpec; hide Head;
    var p, dropped := (e.timestamp, e.key), TableAfterDrop(s.table, s.store, e.key, hash(e.key), s.now);
    s1 := s.(writer := Some(e), table := dropped);
    s2 := s.(store := s.store[hash(e.key) := e], puts := multiset{p}, table := dropped);
    s3 := s2.(puts := multiset{}, table := PutSpec(dropped, e.timestamp, e.key, s.now));
    assert s.puts + multiset{p} == multiset{p};
    assert multiset{p} - multiset{p} == multiset{};
  }

  /** A goroutine that holds a tick takes and evicts the only record of the tree. */
  lemma EvictAlone(s: State, e: Entry, hash: Key -> u64) returns (s1: State, s2: State)
    requires Seconds(s.now) < TWO_64 && s.writer.None? && s.phase.Ticked?
    requires s.table.tree == map[e.timestamp := {e.key}] && s.store == map[hash(e.key) := e]
    ensures s1.now == s.now && s1.store == s.store && s2.store == map[]
    ensures Does(s, Detach, s1, hash) && Does(s1, EvictKeys, s2, hash)
  {
    hide Evicted; hide PutSpec; hide RemoveSpec; hide Head;
    var t := e.timestamp;
    HeadOfOne(s.table.tree, t);
    s1 := s.(table := s.table.(tree := s.table.tree - {t}), phase := Evicting(t, {e.key}));
    EvictOne(s.store, t, e.key, hash);
    s2 := s1.(store := s.store - {hash(e.key)}, phase := Looking);
    assert s2.store == map[];
  }

  /** The timer of a tree that is still empty goes off, and the goroutine receives the tick. */
  lemma TickAlone(hash: Key -> u64) returns (s0: State, s1: State, s2: State, s3: State)
    ensures Init(s0) && s0.now == 0 && s1.now == s2.now == TEN_HOURS
    ensures Does(s0, Tick(TEN_HOURS), s1, hash) && Does(s1, Expire, s2, hash) && Does(s2, Receive, s3, hash)
    ensures s3 == State(map[], None, multiset{}, multiset{}, Table(map[], None, false), Ticked, TEN_HOURS)
  {
    hide Evicted; hide PutSpec; hide RemoveSpec; hide Head;
    s0 := State(map[], None, multiset{}, multiset{}, Table(map[], Some(TEN_HOURS), false), Waiting, 0);
    s1 := s0.(now := TEN_HOURS);
    s2 := s1.(table := Table(map[], None, true));
    s3 := s2.(table := Table(map[], None, false), phase := Ticked);
  }

  /** A tick for an empty tree is received; before the goroutine takes the tree lock, a set puts an entry for
      1000 seconds later, which is then evicted at once. */
  lemma EarlyEviction(hash: Key -> u64) returns (states: seq<State>, actions: seq<Action>)
    ensures IsRun(states, actions, hash) && |actions| == 8 && actions[7] == EvictKeys
    ensures var h := hash(K);
      && h in states[7].store && h !in states[8].store
      && Seconds(states[7].now) + 1000 == states[7].store[h].timestamp
  {
    hide Does; hide Wait; hide Head;
    var e := Entry(37000, K, []);
    var s0, s1, s2, s3 := TickAlone(hash);
    var s4, s5, s6 := SetAlone(s3, e, hash);
    HeadOfOne(s3.table.tree[37000 := {K}], 37000);
    var s7, s8 := EvictAlone(s6, e, hash);
    states := [s0, s1, s2, s3, s4, s5, s6, s7, s8];
    actions := [Tick(TEN_HOURS), Expire, Receive, SetBegin(e), SetStore(None), SetPut(37000, K), Detach, EvictKeys];
  }

  lemma HeadOfOne(tree: Tree, t: u64)
    requires tree.Keys == {t}
    ensures t in tree && Head(tree) == t
  {
    assert t in tree;
  }

  /** The first half of a del of a key that is stored. */
  lemma DelAlone(s: State, t: u64, k: Key, hash: Key -> u64) returns (s1: State)
    requires Seconds(s.now) < TWO_64 && s.writer.None? && s.removals == multiset{} && StoredAs(s, t, k, hash)
    ensures Does(s, DelStore(k), s1, hash)
    ensures s1 == s.(store := s.store - {hash(k)}, removals := multiset{(t, k)})
  {
    hide PutSpec; hide RemoveSpec; hide Evicted; hide Head;
    s1 := s.(store := s.store - {hash(k)}, removals := multiset{(t, k)});
    assert s.removals + multiset{(t, k)} == multiset{(t, k)};
  }

  /** The second half of a del. */
  lemma RemoveAlone(s: State, t: u64, k: Key, hash: Key -> u64) returns (s1: State)
    requires Seconds(s.now) < TWO_64 && s.removals == multiset{(t, k)}
    ensures Does(s, DelRemove(t, k), s1, hash)
    ensures s1 == s.(removals := multiset{}, table := RemoveSpec(s.table, t, k, s.now))
  {
    hide PutSpec; hide RemoveSpec; hide Evicted; hide Head;
    s1 := s.(removals := multiset{}, table := RemoveSpec(s.table, t, k, s.now));
    assert s.removals - multiset{(t, k)} == multiset{};
  }

  /** A del is overtaken by a set of the same key and second: the entry stays in the store but leaves the tree,
      so that it never expires. */
  lemma LostRecord(hash: Key -> u64) returns (states: seq<State>, actions: seq<Action>)
    ensures IsRun(states, actions, hash) && |actions| == 8
    ensures var s := states[8];
      && hash(K) in s.store && s.store[hash(K)].timestamp == 5
      && s.table.tree == map[] && s.writer.None? && s.puts == multiset{} && s.phase.Waiting?
      && !Coverage(s, hash)
  {
    hide Does; hide Wait; hide Head; hide RemoveSpec;
    var e, idle := Entry(5, K, []), Table(map[], Some(TEN_HOURS), false);
    var s0 := State(map[], None, multiset{}, multiset{}, idle, Waiting, 0);
    var s1, s2, s3 := SetAlone(s0, e, hash);
    var s4 := DelAlone(s3, 5, K, hash);
    var s5, s6, s7 := SetAlone(s4, e, hash);
    var s8 := RemoveAlone(s7, 5, K, hash);
    LastRecord(s3.table, 5, K);
    assert !SlotOk(s8, hash(K), hash);
    states := [s0, s1, s2, s3, s4, s5, s6, s7, s8];
    actions := [SetBegin(e), SetStore(None), SetPut(5, K), DelStore(K),
                SetBegin(e), SetStore(None), SetPut(5, K), DelRemove(5, K)];
  }

  lemma LastRecord(s: Table, t: u64, k: Key)
    requires s.tree == map[t := {k}]
    ensures RemoveSpec(PutSpec(s, t, k, 0), t, k, 0).tree == map[]
  {
    assert {k} + {k} - {k} == {};
  }

  /** A set that stores its entry in the block that a del of its key has freed. */
  lemma SetReusing(s: State, e: Entry, p: (u64, Key), hash: Key -> u64) returns (s1: State, s2: State, s3: State)
    requires Seconds(s.now) < TWO_64 && s.writer.None? && s.puts == multiset{} && hash(e.key) !in s.store
    requires NO_EXPIRY < e.timestamp <= Horizon(s.now) && s.removals == multiset{p}
    ensures s1.now == s2.now == s.now
    ensures Does(s, SetBegin(e), s1, hash) && Does(s1, SetStore(Some(p)), s2, hash)
    ensures Does(s2, SetPut(e.timestamp, e.key), s3, hash)
    ensures s3 == s.(store := s.store[hash(e.key) := e], table := PutSpec(s.table, e.timestamp, e.key, s.now),
                     removals := multiset{(e.timestamp, p.1)})
  {
    hide Evicted; hide PutSpec; hide RemoveSpec; hide Head;
    var q := (e.timestamp, e.key);
    s1 := s.(writer := Some(e));
    s2 := s.(store := s.store[hash(e.key) := e], puts := multiset{q}, removals := multiset{(e.timestamp, p.1)});
    s3 := s2.(puts := multiset{}, table := PutSpec(s.table, e.timestamp, e.key, s.now));
    assert s.puts + multiset{q} == multiset{q};
    assert multiset{q} - multiset{q} == multiset{};
    assert Reread(s.removals, p, e.timestamp) == multiset{(e.timestamp, p.1)};
  }

  /** A del of an entry of second 5 is overtaken by a set of the same key for second 7, whose entry takes the freed
      block: the del reads 7 there and removes the new record. */
  lemma LostNewRecord(hash: Key -> u64) returns (states: seq<State>, actions: seq<Action>)
    ensures IsRun(states, actions, hash) && |actions| == 8
    ensures var s := states[8];
      && hash(K) in s.store && s.store[hash(K)].timestamp == 7
      && s.table.tree == map[5 := {K}] && s.writer.None? && s.puts == multiset{} && s.phase.Waiting?
      && !Coverage(s, hash)
  {
    hide Does; hide Wait; hide Head; hide RemoveSpec;
    var e, e', idle := Entry(5, K, []), Entry(7, K, []), Table(map[], Some(TEN_HOURS), false);
    var s0 := State(map[], None, multiset{}, multiset{}, idle, Waiting, 0);
    var s1, s2, s3 := SetAlone(s0, e, hash);
    var s4 := DelAlone(s3, 5, K, hash);
    var s5, s6, s7 := SetReusing(s4, e', (5, K), hash);
    var s8 := RemoveAlone(s7, 7, K, hash);
    OtherRecord(s3.table, 5, 7, K);
    assert !SlotOk(s8, hash(K), hash);
    states := [s0, s1, s2, s3, s4, s5, s6, s7, s8];
    actions := [SetBegin(e), SetStore(None), SetPut(5, K), DelStore(K),
                SetBegin(e'), SetStore(Some((5, K))), SetPut(7, K), DelRemove(7, K)];
  }

  lemma OtherRecord(s: Table, t: u64, u: u64, k: Key)
    requires s.tree == map[t := {k}] && t != u
    ensures RemoveSpec(PutSpec(s, u, k, 0), u, k, 0).tree == s.tree
  {
    assert {k} - {k} == {};
    assert map[t := {k}][u := {k}] - {u} == map[t := {k}];
  }
}
