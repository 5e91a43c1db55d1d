/** The expiry table: keys by expiry second in an ordered tree, and one timer armed for the first of them. */
module Ttl {
  import opened Bytes
  import opened Options

  type Key = seq<byte>
  type Tree = map<u64, set<Key>>

  const NO_EXPIRY: u64 := 0
  const SECOND := 1_000_000_000

  /** The wait of a new timer. */
  const TEN_HOURS := 36000 * SECOND

  /** The largest number of seconds that a signed 64-bit count of nanoseconds holds. */
  const MAX_SECONDS := 9223372036

  // ---------------------------------------------------------------- clock arithmetic

  function Seconds(now: int): int { now / SECOND }

  /** The last second that the timer can be armed for at now. */
  function Horizon(now: int): int { Seconds(now) + MAX_SECONDS }

  /** The signed 64-bit number with the same low 64 bits as x. */
  function ToInt64(x: int): (r: int)
    ensures -TWO_63 <= r < TWO_63
  {
    (x + TWO_63) % TWO_64 - TWO_63
  }

  /** The wait that the timer is reset to: the difference of two unsigned seconds, taken as a signed
      duration and multiplied by one second, all in 64 bits. */
  function Wait(timestamp: u64, seconds: u64): int {
    var interval := (timestamp - seconds) % TWO_64;
    ToInt64(SECOND * ToInt64(interval))
  }

  /** The wrapped computation is exact on precisely the differences that fit. */
  lemma WaitExact(timestamp: u64, seconds: u64)
    ensures Wait(timestamp, seconds) == SECOND * (timestamp - seconds)
      <==> -MAX_SECONDS <= timestamp - seconds <= MAX_SECONDS
  {
    var d := timestamp - seconds;
    if -MAX_SECONDS <= d <= MAX_SECONDS {
      assert ToInt64(d % TWO_64) == d;
      assert ToInt64(SECOND * d) == SECOND * d;
    }
  }

  // ---------------------------------------------------------------- the table as a value

  lemma {:induction false} LeastExists(s: set<u64>, x: u64)
    requires x in s
    ensures exists t :: t in s && forall u :: u in s ==> t <= u
    decreases x
  {
    if y :| y in s && y < x {
      LeastExists(s, y);
    }
  }

  /** The first timestamp of the tree. */
  function Head(tree: Tree): (t: u64)
    requires tree != map[]
    ensures t in tree && forall u :: u in tree ==> t <= u
  {
    var x :| x in tree;
    LeastExists(tree.Keys, x);
    var t :| t in tree && forall u :: u in tree ==> t <= u;
    t
  }

  /** armed is the deadline of the running timer, in nanoseconds; fired says that its channel holds a tick. */
  datatype Table = Table(tree: Tree, armed: Option<int>, fired: bool)

  function Armed(s: Table, timestamp: u64, now: nat): Table
    requires Seconds(now) < TWO_64
  {
    s.(armed := Some(now + Wait(timestamp, Seconds(now))), fired := false)
  }

  function PutSpec(s: Table, timestamp: u64, key: Key, now: nat): Table
    requires Seconds(now) < TWO_64
  {
    if timestamp in s.tree then s.(tree := s.tree[timestamp := s.tree[timestamp] + {key}])
    else
      var s' := s.(tree := s.tree[timestamp := {key}]);
      assert timestamp in s'.tree;
      if Head(s'.tree) == timestamp then Armed(s', timestamp, now) else s'
  }

  function RemoveSpec(s: Table, timestamp: u64, key: Key, now: nat): Table
    requires Seconds(now) < TWO_64
  {
    if timestamp !in s.tree then s
    else if s.tree[timestamp] - {key} != {} then s.(tree := s.tree[timestamp := s.tree[timestamp] - {key}])
    else
      var s' := s.(tree := s.tree - {timestamp});
      if Head(s.tree) == timestamp && s'.tree != map[] then Armed(s', Head(s'.tree), now) else s'
  }

  // ---------------------------------------------------------------- what the table records

  predicate Records(s: Table, timestamp: u64, key: Key) {
    timestamp in s.tree && key in s.tree[timestamp]
  }

  /** Putting a record adds it and nothing else. */
  lemma PutRecords(s: Table, timestamp: u64, key: Key, now: nat, t: u64, k: Key)
    requires Seconds(now) < TWO_64
    ensures Records(PutSpec(s, timestamp, key, now), t, k) <==> Records(s, t, k) || (t == timestamp && k == key)
  {
  }

  /** Removing a record removes it and nothing else. */
  lemma RemoveRecords(s: Table, timestamp: u64, key: Key, now: nat, t: u64, k: Key)
    requires Seconds(now) < TWO_64
    ensures Records(RemoveSpec(s, timestamp, key, now), t, k) <==> Records(s, t, k) && !(t == timestamp && k == key)
  {
    if timestamp in s.tree {
      var keys := s.tree[timestamp] - {key};
      assert k in keys <==> k in s.tree[timestamp] && k != key;
    }
  }

  /** The clock, and every timestamp as seen from it, is within the range in which waits are exact. */
  ghost predicate Timely(s: Table, now: nat) {
    Seconds(now) <= MAX_SECONDS && forall t :: t in s.tree ==> t <= Horizon(now)
  }

  /** A tree that is not empty has its timer armed in the second of its first timestamp, or else the timer
      has gone off and that second has been reached. */
  ghost predicate Ready(s: Table, now: nat) {
    s.tree != map[] ==>
      if s.fired then Head(s.tree) <= Seconds(now)
      else s.armed.Some? && Seconds(s.armed.value) == Head(s.tree)
  }

  lemma PutTimely(s: Table, timestamp: u64, key: Key, now: nat)
    requires Timely(s, now) && timestamp <= Horizon(now)
    ensures Timely(PutSpec(s, timestamp, key, now), now)
  {
  }

  lemma RemoveTimely(s: Table, timestamp: u64, key: Key, now: nat)
    requires Timely(s, now)
    ensures Timely(RemoveSpec(s, timestamp, key, now), now)
  {
  }

  /** Arming for a timestamp sets a deadline within its second. */
  lemma ArmedInSecond(timestamp: u64, now: nat)
    requires timestamp <= Horizon(now) && Seconds(now) <= MAX_SECONDS
    ensures Seconds(now + Wait(timestamp, Seconds(now))) == timestamp
  {
    WaitExact(timestamp, Seconds(now));
    assert now + Wait(timestamp, Seconds(now)) == SECOND * timestamp + now % SECOND;
  }

  lemma PutReady(s: Table, timestamp: u64, key: Key, now: nat)
    requires Timely(s, now) && timestamp <= Horizon(now) && Ready(s, now)
    ensures var s' := PutSpec(s, timestamp, key, now); Timely(s', now) && Ready(s', now)
  {
    var s' := PutSpec(s, timestamp, key, now);
    ArmedInSecond(timestamp, now);
    assert timestamp in s'.tree;
    if s.tree != map[] && (timestamp in s.tree || Head(s'.tree) != timestamp) {
      SameHead(s.tree, s'.tree);
    }
  }

  /** Trees that have the first timestamp of each other have the same first timestamp. */
  lemma SameHead(a: Tree, b: Tree)
    requires a != map[] && b != map[] && Head(a) in b && Head(b) in a
    ensures Head(a) == Head(b)
  {
  }

  lemma RemoveReady(s: Table, timestamp: u64, key: Key, now: nat)
    requires Timely(s, now) && Ready(s, now)
    ensures var s' := RemoveSpec(s, timestamp, key, now); Timely(s', now) && Ready(s', now)
  {
    var s' := RemoveSpec(s, timestamp, key, now);
    if s'.tree != map[] {
      ArmedInSecond(Head(s'.tree), now);
      assert Head(s'.tree) in s.tree;
      if Head(s.tree) in s'.tree {
        SameHead(s.tree, s'.tree);
      }
    }
  }

  /** t is before every other timestamp of the tree. */
  predicate Least(tree: Tree, t: u64) {
    forall u :: u in tree && u != t ==> t < u
  }

  /** The timer moves, to the second of the new timestamp, exactly when that comes first; a pending tick is dropped. */
  lemma PutTimer(s: Table, timestamp: u64, key: Key, now: nat)
    requires Timely(s, now) && timestamp <= Horizon(now)
    ensures var s' := PutSpec(s, timestamp, key, now);
      && (forall t :: t in s'.tree <==> t in s.tree || t == timestamp)
      && if timestamp !in s.tree && Least(s.tree, timestamp) then
           s'.armed == Some(now + 1000000000 * (timestamp - now / 1000000000)) && !s'.fired
         else s'.armed == s.armed && s'.fired == s.fired
  {
    hide Wait;
    WaitExact(timestamp, Seconds(now));
  }

  /** A timestamp goes with its last key; the timer moves, to the second of the next timestamp, exactly when the first
      one goes and another is left. */
  lemma RemoveTimer(s: Table, timestamp: u64, key: Key, now: nat)
    requires Timely(s, now)
    ensures var s' := RemoveSpec(s, timestamp, key, now);
      && (forall t :: t in s'.tree <==> t in s.tree && (t == timestamp ==> exists k :: k in s.tree[t] && k != key))
      && if timestamp in s.tree && timestamp !in s'.tree && Least(s.tree, timestamp) && s'.tree != map[] then
           && !s'.fired && Head(s'.tree) in s'.tree && Least(s'.tree, Head(s'.tree))
           && s'.armed == Some(now + 1000000000 * (Head(s'.tree) - now / 1000000000))
         else s'.armed == s.armed && s'.fired == s.fired
  {
    hide Wait;
    var s' := RemoveSpec(s, timestamp, key, now);
    if timestamp in s.tree {
      var keys := s.tree[timestamp] - {key};
      assert keys != {} <==> exists k :: k in s.tree[timestamp] && k != key by {
        if keys != {} {
          var k :| k in keys;
          assert k in s.tree[timestamp] && k != key;
        }
        if k :| k in s.tree[timestamp] && k != key {
          assert k in keys;
        }
      }
      if timestamp !in s'.tree && s'.tree != map[] {
        WaitExact(Head(s'.tree), Seconds(now));
      }
    }
  }

  // ---------------------------------------------------------------- the table

  class TtlManager {
    var timeTree: Tree
    var armed: Option<int>
    var fired: bool

    function Value(): Table
      reads this
    {
      Table(timeTree, armed, fired)
    }

    /** The original arms the timer for ten hours before anything is put. */
    constructor (now: nat)
      ensures Value() == Table(map[], Some(now + TEN_HOURS), false)
    {
      timeTree := map[];
      armed := Some(now + TEN_HOURS);
      fired := false;
    }

    method ResetTimer(timestamp: u64, now: nat)
      requires Seconds(now) < TWO_64
      modifies this`armed, this`fired
      ensures Value() == Armed(old(Value()), timestamp, now)
    {
      var interval := (timestamp - Seconds(now)) % TWO_64;
      fired := false;
      armed := Some(now + ToInt64(SECOND * ToInt64(interval)));
    }

    method Put(timestamp: u64, cacheKey: Key, now: nat)
      requires Seconds(now) < TWO_64
      modifies this
      ensures Value() == PutSpec(old(Value()), timestamp, cacheKey, now)
    {
      if timestamp in timeTree {
        timeTree := timeTree[timestamp := timeTree[timestamp] + {cacheKey}];
        return;
      }
      timeTree := timeTree[timestamp := {cacheKey}];
      assert timestamp in timeTree;
      if |timeTree| == 1 {
        assert timeTree.Keys == {timestamp} by { OneKey(timeTree.Keys, timestamp); }
        ResetTimer(timestamp, now);
        return;
      }
      if Head(timeTree) == timestamp {
        ResetTimer(timestamp, now);
      }
    }

    method Remove(timestamp: u64, key: Key, now: nat)
      requires Seconds(now) < TWO_64
      modifies this
      ensures Value() == RemoveSpec(old(Value()), timestamp, key, now)
    {
      if timestamp in timeTree {
        var keys := timeTree[timestamp] - {key};
        if keys == {} {
          if Head(timeTree) == timestamp {
            timeTree := timeTree - {timestamp};
            if timeTree != map[] {
              ResetTimer(Head(timeTree), now);
            }
            return;
          }
          timeTree := timeTree - {timestamp};
        } else {
          timeTree := timeTree[timestamp := keys];
        }
      }
    }

    method Reset()
      modifies this
      ensures Value() == Table(map[], None, false)
    {
      timeTree := map[];
      armed := None;
      fired := false;
    }
  }

  lemma OneKey(s: set<u64>, x: u64)
    requires |s| == 1 && x in s
    ensures s == {x}
  {
    assert |s - {x}| == 0;
  }
}
