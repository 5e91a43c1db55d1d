/** A Get that is answered by other nodes of the cluster, as a state machine over its messages. */
module ClusterGet {
  import opened Bytes
  import opened Encoding
  import opened Messages

  type Key = seq<byte>
  type Peer = nat

  const SUFFIX := 8

  /** The longest key for which a response is never taken for one to another key. */
  const MAX_GET_KEY := 65535

  /** The random string of a Get: eight letters. */
  ghost predicate IsSuffix(suffix: seq<byte>) {
    |suffix| == SUFFIX && forall i :: 0 <= i < |suffix| ==> 65 <= suffix[i] <= 90 || 97 <= suffix[i] <= 122
  }

  datatype Outcome = Waiting | Got(data: seq<byte>) | TimedOut

  datatype Request = Request(key: Key, suffix: seq<byte>, outcome: Outcome) {
    function PendingKey(): Key { key + suffix }
  }

  /** pending is the pendingGet table of each connection; asked and answered are the messages on their way,
      answers as the bytes of their bodies; caches is what the cache of each peer answers, and held everything it
      ever answered. */
  datatype State = State(
    requests: seq<Request>,
    pending: map<(Peer, Key), nat>,
    asked: multiset<(Peer, Key, Key)>,
    answered: multiset<(Peer, seq<byte>)>,
    caches: map<(Peer, Key), seq<byte>>,
    held: set<(Peer, Key, seq<byte>)>)

  datatype Action =
    | Start(key: Key, suffix: seq<byte>)
    | Ask(id: nat, peer: Peer)
    | Answer(peer: Peer, key: Key, pendingKey: Key)
    | Receive(peer: Peer, body: seq<byte>, ready: bool)
    | TimeOut(id: nat)
    | Store(peer: Peer, key: Key, value: seq<byte>)
    | Drop(peer: Peer, key: Key)

  /** Hands data to the request, unless it is no longer waiting or not yet ready to receive. */
  function Offer(requests: seq<Request>, id: nat, data: seq<byte>, ready: bool): seq<Request>
    requires id < |requests|
  {
    if data != [] && ready && requests[id].outcome.Waiting? then requests[id := requests[id].(outcome := Got(data))]
    else requests
  }

  ghost predicate Does(s: State, a: Action, s': State) {
    match a
    case Start(key, suffix) =>
      IsSuffix(suffix) && s' == s.(requests := s.requests + [Request(key, suffix, Waiting)])
    case Ask(id, peer) =>
      && id < |s.requests|
      && var r := s.requests[id];
         s' == s.(pending := s.pending[(peer, r.PendingKey()) := id],
                  asked := s.asked + multiset{(peer, r.key, r.PendingKey())})
    case Answer(peer, key, pendingKey) =>
      && (peer, key, pendingKey) in s.asked
      && var data := if (peer, key) in s.caches then s.caches[(peer, key)] else [];
         s' == s.(asked := s.asked - multiset{(peer, key, pendingKey)},
                  answered := s.answered + multiset{(peer, Keyed([], pendingKey, data))})
    case Receive(peer, body, ready) =>
      && (peer, body) in s.answered && DeSerializeGetRsp(body).Ok?
      && var m := DeSerializeGetRsp(body).value;
         var s1 := s.(answered := s.answered - multiset{(peer, body)});
         if (peer, m.pendingKey) !in s.pending then s' == s1
         else
           var id := s.pending[(peer, m.pendingKey)];
           && id < |s.requests|
           && s' == s1.(pending := s.pending - {(peer, m.pendingKey)}, requests := Offer(s.requests, id, m.data, ready))
    case TimeOut(id) =>
      && id < |s.requests| && s.requests[id].outcome.Waiting?
      && s' == s.(requests := s.requests[id := s.requests[id].(outcome := TimedOut)])
    case Store(peer, key, value) =>
      s' == s.(caches := s.caches[(peer, key) := value], held := s.held + {(peer, key, value)})
    case Drop(peer, key) =>
      s' == s.(caches := s.caches - {(peer, key)})
  }

  ghost predicate Init(s: State) {
    && s.requests == [] && s.pending == map[] && s.asked == multiset{} && s.answered == multiset{}
    && s.caches == map[] && s.held == {}
  }

  // ---------------------------------------------------------------- invariant

  /** The key that a pending key was made from. */
  function KeyOf(pendingKey: Key): Key
    requires SUFFIX <= |pendingKey|
  {
    pendingKey[..|pendingKey| - SUFFIX]
  }

  ghost predicate RequestOk(r: Request, held: set<(Peer, Key, seq<byte>)>) {
    && |r.suffix| == SUFFIX && |r.key| <= MAX_GET_KEY
    && (r.outcome.Got? ==> exists p :: (p, r.key, r.outcome.data) in held)
  }

  /** An answer on its way, if it can be read, is for a pending key too short for any Get, or carries nothing, or
      something that its sender held for the key it was asked for. */
  ghost predicate AnswerOk(peer: Peer, body: seq<byte>, held: set<(Peer, Key, seq<byte>)>) {
    DeSerializeGetRsp(body).Ok? ==>
      var m := DeSerializeGetRsp(body).value;
      |m.pendingKey| < SUFFIX || m.data == [] || (peer, KeyOf(m.pendingKey), m.data) in held
  }

  ghost predicate RequestsOk(s: State) {
    forall i :: 0 <= i < |s.requests| ==> RequestOk(s.requests[i], s.held)
  }

  ghost predicate PendingOk(s: State) {
    forall q :: q in s.pending ==> s.pending[q] < |s.requests| && q.1 == s.requests[s.pending[q]].PendingKey()
  }

  ghost predicate AskedOk(s: State) {
    forall q :: q in s.asked ==> SUFFIX <= |q.2| <= MAX_GET_KEY + SUFFIX && KeyOf(q.2) == q.1
  }

  ghost predicate AnsweredOk(s: State) {
    forall q :: q in s.answered ==> AnswerOk(q.0, q.1, s.held)
  }

  ghost predicate CachesOk(s: State) {
    forall q :: q in s.caches ==> (q.0, q.1, s.caches[q]) in s.held
  }

  ghost predicate Inv(s: State) {
    RequestsOk(s) && PendingOk(s) && AskedOk(s) && AnsweredOk(s) && CachesOk(s)
  }

  /** A pending key determines the key, whatever the suffix. */
  lemma PendingKeyDetermines(r: Request)
    requires |r.suffix| == SUFFIX
    ensures KeyOf(r.PendingKey()) == r.key
  {
  }

  lemma KeepsInv(s: State, a: Action, s': State)
    requires Inv(s) && Does(s, a, s') && (a.Start? ==> |a.key| <= MAX_GET_KEY)
    ensures Inv(s')
  {
    hide Inv; hide Does;
    match a
    case Start(_, _) => StartKeeps(s, a, s');
    case Ask(_, _) => AskKeeps(s, a, s');
    case Answer(peer, key, pendingKey) => AnswerKeeps(s, peer, key, pendingKey, s');
    case Receive(peer, body, ready) => ReceiveKeeps(s, peer, body, ready, s');
    case TimeOut(_) => TimeOutKeeps(s, a, s');
    case Store(_, _, _) => StoreKeeps(s, a, s');
    case Drop(_, _) => DropKeeps(s, a, s');
  }

  lemma StartKeeps(s: State, a: Action, s': State)
    requires Inv(s) && a.Start? && Does(s, a, s') && |a.key| <= MAX_GET_KEY
    ensures Inv(s')
  {
    hide AnsweredOk; hide CachesOk; hide AskedOk;
    SameMessages(s, s');
  }

  lemma AskKeeps(s: State, a: Action, s': State)
    requires Inv(s) && a.Ask? && Does(s, a, s')
    ensures Inv(s')
  {
    hide AnsweredOk; hide CachesOk;
    assert RequestOk(s.requests[a.id], s.held);
    PendingKeyDetermines(s.requests[a.id]);
    AnsweredSame(s, s');
  }

  lemma TimeOutKeeps(s: State, a: Action, s': State)
    requires Inv(s) && a.TimeOut? && Does(s, a, s')
    ensures Inv(s')
  {
    hide AnsweredOk; hide CachesOk; hide AskedOk;
    SameMessages(s, s');
  }

  lemma DropKeeps(s: State, a: Action, s': State)
    requires Inv(s) && a.Drop? && Does(s, a, s')
    ensures Inv(s')
  {
    hide AnswerOk;
  }

  lemma SameMessages(s: State, s': State)
    requires s'.asked == s.asked && s'.answered == s.answered && s'.caches == s.caches && s'.held == s.held
    ensures AskedOk(s') == AskedOk(s) && AnsweredOk(s') == AnsweredOk(s) && CachesOk(s') == CachesOk(s)
  {
    hide AnswerOk;
  }

  lemma AnsweredSame(s: State, s': State)
    requires s'.answered == s.answered && s'.caches == s.caches && s'.held == s.held
    ensures AnsweredOk(s') == AnsweredOk(s) && CachesOk(s') == CachesOk(s)
  {
    hide AnswerOk;
  }

  lemma AnswerKeeps(s: State, peer: Peer, key: Key, pendingKey: Key, s': State)
    requires Inv(s) && Does(s, Answer(peer, key, pendingKey), s')
    ensures Inv(s')
  {
    hide DeSerializeGetRsp; hide Keyed;
    var data := if (peer, key) in s.caches then s.caches[(peer, key)] else [];
    var q := (peer, key, pendingKey);
    assert SUFFIX <= |q.2| <= MAX_GET_KEY + SUFFIX && KeyOf(q.2) == q.1;
    NewAnswerOk(peer, pendingKey, data, s.held);
  }

  /** A pending key of at most 65543 bytes is read back whole, not at all, or as less than eight bytes. */
  lemma NewAnswerOk(peer: Peer, pendingKey: Key, data: seq<byte>, held: set<(Peer, Key, seq<byte>)>)
    requires SUFFIX <= |pendingKey| <= MAX_GET_KEY + SUFFIX
    requires data == [] || (peer, KeyOf(pendingKey), data) in held
    ensures AnswerOk(peer, Keyed([], pendingKey, data), held)
  {
    hide DeSerializeGetRsp; hide Keyed;
    GetRspReading(GetRspMessage(pendingKey, data));
    if |pendingKey| < TWO_16 {
      assert pendingKey[..|pendingKey|] == pendingKey && pendingKey[|pendingKey|..] + data == data;
    }
  }

  lemma ReceiveKeeps(s: State, peer: Peer, body: seq<byte>, ready: bool, s': State)
    requires Inv(s) && Does(s, Receive(peer, body, ready), s')
    ensures Inv(s')
  {
    hide DeSerializeGetRsp; hide AskedOk; hide AnsweredOk; hide CachesOk;
    FewerAnswers(s, s');
    ReceivedOk(s, peer, body);
    var m := DeSerializeGetRsp(body).value;
    var p := (peer, m.pendingKey);
    if p in s.pending {
      var id := s.pending[p];
      assert p.1 == s.requests[id].PendingKey();
      PendingKeyDetermines(s.requests[id]);
    }
  }

  lemma ReceivedOk(s: State, peer: Peer, body: seq<byte>)
    requires AnsweredOk(s) && (peer, body) in s.answered
    ensures AnswerOk(peer, body, s.held)
  {
    hide DeSerializeGetRsp;
    var q := (peer, body);
    assert AnswerOk(q.0, q.1, s.held);
  }

  lemma FewerAnswers(s: State, s': State)
    requires AskedOk(s) && AnsweredOk(s) && CachesOk(s)
    requires s'.asked == s.asked && s'.answered <= s.answered && s'.caches == s.caches && s'.held == s.held
    ensures AskedOk(s') && AnsweredOk(s') && CachesOk(s')
  {
    hide AnswerOk;
  }

  lemma StoreKeeps(s: State, a: Action, s': State)
    requires Inv(s) && a.Store? && Does(s, a, s')
    ensures Inv(s')
  {
    hide DeSerializeGetRsp;
    forall i | 0 <= i < |s.requests| ensures RequestOk(s.requests[i], s'.held) {
      var r := s.requests[i];
      if r.outcome.Got? {
        var p :| (p, r.key, r.outcome.data) in s.held;
        assert (p, r.key, r.outcome.data) in s'.held;
      }
    }
  }

  // ---------------------------------------------------------------- whole runs

  ghost predicate IsRun(states: seq<State>, actions: seq<Action>) {
    && |states| == |actions| + 1 && Init(states[0])
    && forall i :: 0 <= i < |actions| ==> Does(states[i], actions[i], states[i + 1])
  }

  /** Every Get is for a key of at most n bytes. */
  ghost predicate KeysWithin(actions: seq<Action>, n: nat) {
    forall i :: 0 <= i < |actions| && actions[i].Start? ==> |actions[i].key| <= n
  }

  lemma {:induction false} RunInv(states: seq<State>, actions: seq<Action>, i: nat)
    requires IsRun(states, actions) && KeysWithin(actions, MAX_GET_KEY) && i < |states|
    ensures Inv(states[i])
  {
    hide Does;
    if i > 0 {
      hide Inv;
      RunInv(states, actions, i - 1);
      assert Does(states[i - 1], actions[i - 1], states[i]);
      KeepsInv(states[i - 1], actions[i - 1], states[i]);
    } else {
      InitInv(states[0]);
    }
  }

  lemma InitInv(s: State)
    requires Init(s)
    ensures Inv(s)
  {
  }

  /** What a Get has been given from the cluster was held by a peer for its very key. */
  ghost predicate HeldForKey(s: State) {
    forall id :: 0 <= id < |s.requests| && s.requests[id].outcome.Got? ==>
      exists p :: (p, s.requests[id].key, s.requests[id].outcome.data) in s.held
  }

  lemma DeliveredForKey(states: seq<State>, actions: seq<Action>, i: nat)
    requires IsRun(states, actions) && KeysWithin(actions, MAX_GET_KEY) && i < |states|
    ensures HeldForKey(states[i])
  {
    RunInv(states, actions, i);
    forall id | 0 <= id < |states[i].requests| && states[i].requests[id].outcome.Got?
      ensures exists p :: (p, states[i].requests[id].key, states[i].requests[id].outcome.data) in states[i].held
    {
      assert RequestOk(states[i].requests[id], states[i].held);
    }
  }

  /** No run of Gets for keys of at most n bytes gives one of them what no peer held for its key. */
  ghost predicate NeverMisdelivers(n: nat) {
    forall states: seq<State>, actions: seq<Action> :: IsRun(states, actions) && KeysWithin(actions, n) ==>
      HeldForKey(states[|states| - 1])
  }

  /** Gets are answered with what was held for their key over every run if and only if keys have at most 65535 bytes. */
  lemma ExactKeyBound(n: nat)
    ensures NeverMisdelivers(n) <==> n <= MAX_GET_KEY
  {
    hide Does; hide HeldForKey;
    if n <= MAX_GET_KEY {
      forall states: seq<State>, actions: seq<Action> | IsRun(states, actions) && KeysWithin(actions, n)
        ensures HeldForKey(states[|states| - 1])
      {
        DeliveredForKey(states, actions, |states| - 1);
      }
    } else {
      var states, actions := Misdelivery();
      assert KeysWithin(actions, n);
    }
  }

  /** An action leaves a Get its key, and its outcome once it has one. */
  lemma StepOutcome(s: State, a: Action, s': State, id: nat)
    requires Does(s, a, s') && id < |s.requests|
    ensures id < |s'.requests| && s'.requests[id].key == s.requests[id].key
    ensures !s.requests[id].outcome.Waiting? ==> s'.requests[id] == s.requests[id]
  {
    hide DeSerializeGetRsp; hide Keyed;
  }

  /** A Get keeps its key, and the first reply or timeout it takes. */
  lemma {:induction false} OneOutcome(states: seq<State>, actions: seq<Action>, i: nat, j: nat, id: nat)
    requires IsRun(states, actions) && i <= j < |states| && id < |states[i].requests|
    ensures id < |states[j].requests| && states[j].requests[id].key == states[i].requests[id].key
    ensures !states[i].requests[id].outcome.Waiting? ==> states[j].requests[id] == states[i].requests[id]
    decreases j
  {
    hide Does;
    if i < j {
      OneOutcome(states, actions, i, j - 1, id);
      assert Does(states[j - 1], actions[j - 1], states[j]);
      StepOutcome(states[j - 1], actions[j - 1], states[j], id);
    }
  }

  // ---------------------------------------------------------------- delivery

  /** A Get that is waiting is asked of a peer that holds something for its key: the answer of the peer carries it,
      and gives it to the Get if it is ready when the answer comes. */
  lemma Delivery(s: State, id: nat, peer: Peer, ready: bool) returns (s1: State, s2: State)
    requires id < |s.requests| && s.requests[id].outcome.Waiting? && |s.requests[id].PendingKey()| <= 65533
    requires var r := s.requests[id];
      && (peer, r.PendingKey()) in s.pending && s.pending[(peer, r.PendingKey())] == id
      && (peer, r.key, r.PendingKey()) in s.asked
      && (peer, r.key) in s.caches && s.caches[(peer, r.key)] != []
    ensures var r := s.requests[id];
      var v := s.caches[(peer, r.key)];
      && Does(s, Answer(peer, r.key, r.PendingKey()), s1)
      && Does(s1, Receive(peer, Keyed([], r.PendingKey(), v), ready), s2)
      && s2.requests == (if ready then s.requests[id := r.(outcome := Got(v))] else s.requests)
      && (peer, r.PendingKey()) !in s2.pending
  {
    hide DeSerializeGetRsp; hide Keyed;
    var r := s.requests[id];
    var v := s.caches[(peer, r.key)];
    var body := Keyed([], r.PendingKey(), v);
    GetRspRoundTrip(GetRspMessage(r.PendingKey(), v));
    s1 := s.(asked := s.asked - multiset{(peer, r.key, r.PendingKey())},
             answered := s.answered + multiset{(peer, body)});
    s2 := s1.(answered := s1.answered - multiset{(peer, body)}, pending := s.pending - {(peer, r.PendingKey())},
              requests := Offer(s.requests, id, v, ready));
  }

  /** Every Get of a key of at most 65525 bytes can be given what a peer holds for its key: it is asked of the peer,
      which answers, and the answer arrives while it waits. */
  lemma CanBeFound(s: State, key: Key, suffix: seq<byte>, peer: Peer) returns (states: seq<State>, actions: seq<Action>)
    requires IsSuffix(suffix) && |key| <= 65525 && (peer, key) in s.caches && s.caches[(peer, key)] != []
    ensures |actions| == 4 && |states| == 5 && states[0] == s && actions[0] == Start(key, suffix)
    ensures forall i :: 0 <= i < 4 ==> Does(states[i], actions[i], states[i + 1])
    ensures |states[4].requests| == |s.requests| + 1
    ensures states[4].requests[|s.requests|].outcome == Got(s.caches[(peer, key)])
  {
    var r, id := Request(key, suffix, Outcome.Waiting), |s.requests|;
    var s1 := s.(requests := s.requests + [r]);
    var s2 := s1.(pending := s.pending[(peer, r.PendingKey()) := id],
                  asked := s.asked + multiset{(peer, key, r.PendingKey())});
    assert Does(s, Start(key, suffix), s1) && Does(s1, Ask(id, peer), s2);
    var s3, s4 := Delivery(s2, id, peer, true);
    states := [s, s1, s2, s3, s4];
    actions := [Start(key, suffix), Ask(id, peer), Answer(peer, key, r.PendingKey()),
                Receive(peer, Keyed([], r.PendingKey(), s.caches[(peer, key)]), true)];
  }

  // ---------------------------------------------------------------- a key that is too long

  /** The letter a, n times. */
  function Letters(n: nat): (s: seq<byte>)
    ensures |s| == n && forall i :: 0 <= i < n ==> s[i] == 97
  {
    seq(n, i => 97)
  }

  lemma LettersJoin(m: nat, n: nat)
    ensures Letters(m) + Letters(n) == Letters(m + n)
    ensures Letters(m + n)[..m] == Letters(m) && Letters(m + n)[m..] == Letters(n)
  {
  }

  /** The response to a pending key of 65544 bytes is read as one to its first 8 bytes, with the rest as data. */
  lemma LongResponse()
    ensures DeSerializeGetRsp(Keyed([], Letters(65544), [])) == Ok(GetRspMessage(Letters(8), Letters(65536)))
  {
    hide Letters; hide DeSerializeGetRsp; hide Keyed;
    GetRspReading(GetRspMessage(Letters(65544), []));
    LettersJoin(8, 65536);
    assert Letters(65536) + [] == Letters(65536);
  }

  /** Two Gets are asked of peer 0, one for a key of 65536 bytes and one for the empty key. */
  lemma TwoAsked() returns (s0: State, s1: State, s2: State, s3: State, s4: State)
    ensures Init(s0) && Does(s0, Start(Letters(65536), Letters(8)), s1) && Does(s1, Start([], Letters(8)), s2)
    ensures Does(s2, Ask(1, 0), s3) && Does(s3, Ask(0, 0), s4)
    ensures s4 == State([Request(Letters(65536), Letters(8), Outcome.Waiting),
                         Request([], Letters(8), Outcome.Waiting)],
                        map[(0, Letters(8)) := 1, (0, Letters(65544)) := 0],
                        multiset{(0, [], Letters(8)), (0, Letters(65536), Letters(65544))}, multiset{}, map[], {})
  {
    hide Letters;
    LettersJoin(65536, 8);
    assert [] + Letters(8) == Letters(8);
    var r0, r1 := Request(Letters(65536), Letters(8), Outcome.Waiting), Request([], Letters(8), Outcome.Waiting);
    s0 := State([], map[], multiset{}, multiset{}, map[], {});
    s1 := s0.(requests := [r0]);
    s2 := s1.(requests := [r0, r1]);
    s3 := s2.(pending := map[(0, Letters(8)) := 1], asked := multiset{(0, [], Letters(8))});
    s4 := s3.(pending := map[(0, Letters(8)) := 1, (0, Letters(65544)) := 0],
              asked := multiset{(0, [], Letters(8)), (0, Letters(65536), Letters(65544))});
  }

  /** The answer to the first, which has no data, is delivered to the second. */
  lemma AnsweredWrongly(s: State) returns (s1: State, s2: State)
    requires |s.requests| == 2 && s.requests[1].outcome.Waiting? && s.answered == multiset{} && s.caches == map[]
    requires (0, Letters(65536), Letters(65544)) in s.asked
    requires (0, Letters(8)) in s.pending && s.pending[(0, Letters(8))] == 1
    ensures var body := Keyed([], Letters(65544), []);
      Does(s, Answer(0, Letters(65536), Letters(65544)), s1) && Does(s1, Receive(0, body, true), s2)
    ensures s2.held == s.held && s2.requests == s.requests[1 := s.requests[1].(outcome := Got(Letters(65536)))]
  {
    hide Letters; hide DeSerializeGetRsp; hide Keyed;
    LongResponse();
    var body := Keyed([], Letters(65544), []);
    s1 := s.(asked := s.asked - multiset{(0, Letters(65536), Letters(65544))}, answered := multiset{(0, body)});
    s2 := s1.(pending := s.pending - {(0, Letters(8))}, answered := multiset{},
              requests := s.requests[1 := s.requests[1].(outcome := Got(Letters(65536)))]);
    assert s1.answered - multiset{(0, body)} == multiset{};
    assert Letters(65536) != [];
  }

  /** Nothing is held by any peer; a Get of a key of 65536 bytes is answered, and the answer is delivered to
      another Get, of the empty key. */
  lemma Misdelivery() returns (states: seq<State>, actions: seq<Action>)
    ensures IsRun(states, actions) && |actions| == 6 && KeysWithin(actions, 65536)
    ensures !HeldForKey(states[6])
  {
    hide Letters; hide Does; hide Keyed;
    var s0, s1, s2, s3, s4 := TwoAsked();
    var s5, s6 := AnsweredWrongly(s4);
    states := [s0, s1, s2, s3, s4, s5, s6];
    actions := [Start(Letters(65536), Letters(8)), Start([], Letters(8)), Ask(1, 0), Ask(0, 0),
                Answer(0, Letters(65536), Letters(65544)), Receive(0, Keyed([], Letters(65544), []), true)];
    assert s6.requests[1].outcome.Got?;
  }
}
