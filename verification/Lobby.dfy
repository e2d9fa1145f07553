// Chat lobbies: each node passes a message on to its friends in the lobby, once.
module Lobby {
  const MAX_KEEP_MSG_RECORD := 1200
  const MAX_KEEP_INACTIVE_NICKNAME := 180
  const MAX_DELAY_BETWEEN_LOBBY_KEEP_ALIVE := 120
  const MAX_MESSAGES_PER_SECONDS_PERIOD := 10
  const AGE_MARGIN := 100
  const FUTURE_MARGIN := 600

  type Peer = nat
  type LobbyId = nat
  type MsgId = nat
  type GxsId = nat

  datatype Item = Item(lobby: LobbyId, msg: MsgId, sendTime: int, key: GxsId)

  // What a node keeps for a lobby it has subscribed to.
  datatype Entry = Entry(friends: set<Peer>, ids: map<GxsId, int>, cache: map<MsgId, int>, lastActivity: int,
                         challenges: nat)

  // Whether the item was of use, and to whom it was sent on.
  datatype Outcome = Outcome(used: bool, sends: set<Peer>)

  const Dropped := Outcome(false, {})

  // ---- The flood limiter ----

  // Times leave the log after ten seconds.
  function Cleaned(log: seq<int>, now: int): (r: seq<int>) {
    if log != [] && log[0] + MAX_MESSAGES_PER_SECONDS_PERIOD < now then Cleaned(log[1..], now) else log
  }

  // The largest number of logged items that still lets one more pass: ten, or what a lobby of that
  // size may produce, ten items per participant and keep-alive period, over ten seconds. The
  // quotient is compared without rounding.
  predicate Full(size: nat, count: nat) {
    size > 10 && size * MAX_DELAY_BETWEEN_LOBBY_KEEP_ALIVE > 10 * count * MAX_MESSAGES_PER_SECONDS_PERIOD
  }

  function Cap(count: nat): nat {
    if 5 * count / 6 >= 10 then 5 * count / 6 else 10
  }

  lemma FullIsAboveCap(size: nat, count: nat)
    ensures Full(size, count) <==> size > Cap(count)
  {}

  function Admit(log: seq<int>, count: nat, now: int): (seq<int>, bool) {
    var c := Cleaned(log, now);
    if Full(|c|, count) then (c, false) else (c + [now], true)
  }

  // The times of the items admitted out of those that arrive.
  function Admitted(log: seq<int>, count: nat, times: seq<int>): seq<int>
    decreases |times|
  {
    if times == [] then []
    else
      var (l, ok) := Admit(log, count, times[0]);
      (if ok then [times[0]] else []) + Admitted(l, count, times[1..])
  }

  // How many of the times lie in the ten seconds from t on, both ends included.
  function InWindow(times: seq<int>, t: int): nat {
    if times == [] then 0
    else InWindow(times[..|times| - 1], t) + if t <= times[|times| - 1] <= t + MAX_MESSAGES_PER_SECONDS_PERIOD then 1
      else 0
  }

  predicate Sorted(times: seq<int>) {
    forall i, j :: 0 <= i <= j < |times| ==> times[i] <= times[j]
  }

  // The log is the end of the history, and what is no longer in it is more than ten seconds old.
  ghost predicate LogOf(log: seq<int>, history: seq<int>, now: int) {
    && |log| <= |history| && history[|history| - |log|..] == log && Sorted(history)
    && (forall i :: 0 <= i < |history| ==> history[i] <= now)
    && (forall i :: 0 <= i < |history| - |log| ==> history[i] + MAX_MESSAGES_PER_SECONDS_PERIOD < now)
  }

  lemma {:induction false} CleanedLog(log: seq<int>, history: seq<int>, before: int, now: int)
    requires LogOf(log, history, before) && before <= now
    ensures LogOf(Cleaned(log, now), history, now)
    ensures forall i :: 0 <= i < |Cleaned(log, now)| ==> Cleaned(log, now)[i] + MAX_MESSAGES_PER_SECONDS_PERIOD >= now
    decreases |log|
  {
    if log != [] && log[0] + MAX_MESSAGES_PER_SECONDS_PERIOD < now {
      assert log[0] == history[|history| - |log|];
      assert LogOf(log[1..], history, now);
      CleanedLog(log[1..], history, now, now);
    }
  }

  lemma {:induction false} InWindowAtMost(times: seq<int>, t: int, k: nat)
    requires k <= |times| && forall i :: 0 <= i < k ==> times[i] < t
    ensures InWindow(times, t) <= |times| - k
  {
    if |times| > k { InWindowAtMost(times[..|times| - 1], t, k); }
    else if times != [] { InWindowAtMost(times[..|times| - 1], t, k - 1); }
  }

  lemma InWindowSnoc(times: seq<int>, x: int, t: int)
    ensures InWindow(times + [x], t) == InWindow(times, t) + if t <= x <= t + MAX_MESSAGES_PER_SECONDS_PERIOD then 1
      else 0
  {
    assert (times + [x])[..|times|] == times;
  }

  lemma LogGrows(log: seq<int>, history: seq<int>, now: int)
    requires LogOf(log, history, now)
    ensures LogOf(log + [now], history + [now], now)
  {
    var k := |history| - |log|;
    assert (history + [now])[k..] == history[k..] + [now];
  }

  // One arrival keeps every window within the bound.
  lemma AdmitKeepsBound(log: seq<int>, history: seq<int>, count: nat, before: int, now: int, t: int)
    requires LogOf(log, history, before) && before <= now && InWindow(history, t) <= Cap(count) + 1
    ensures var (l, ok) := Admit(log, count, now);
            var h := if ok then history + [now] else history;
            LogOf(l, h, now) && InWindow(h, t) <= Cap(count) + 1
  {
    hide LogOf, InWindow, Cap, Full, Cleaned;
    CleanedLog(log, history, before, now);
    var c := Cleaned(log, now);
    FullIsAboveCap(|c|, count);
    InWindowSnoc(history, now, t);
    if !Full(|c|, count) {
      LogGrows(c, history, now);
      if t <= now <= t + MAX_MESSAGES_PER_SECONDS_PERIOD { WindowInLog(c, history, now, t); }
    }
  }

  lemma WindowInLog(log: seq<int>, history: seq<int>, now: int, t: int)
    requires LogOf(log, history, now) && now <= t + MAX_MESSAGES_PER_SECONDS_PERIOD
    ensures InWindow(history, t) <= |log|
  {
    InWindowAtMost(history, t, |history| - |log|);
  }

  lemma AdmittedStep(log: seq<int>, count: nat, times: seq<int>, history: seq<int>)
    requires times != []
    ensures var (l, ok) := Admit(log, count, times[0]);
            history + Admitted(log, count, times) ==
              (if ok then history + [times[0]] else history) + Admitted(l, count, times[1..])
  {
    hide Admit;
    var (l, ok) := Admit(log, count, times[0]);
    var rest := Admitted(l, count, times[1..]);
    if ok { assert history + ([times[0]] + rest) == (history + [times[0]]) + rest; }
    else { assert [] + rest == rest; }
  }

  lemma SortedRest(times: seq<int>)
    requires Sorted(times) && times != []
    ensures Sorted(times[1..]) && (times[1..] != [] ==> times[0] <= times[1..][0])
  {}

  lemma {:induction false} AdmittedBound(log: seq<int>, history: seq<int>, count: nat, before: int,
        times: seq<int>, t: int)
    requires LogOf(log, history, before) && InWindow(history, t) <= Cap(count) + 1
    requires Sorted(times) && (times != [] ==> before <= times[0])
    ensures InWindow(history + Admitted(log, count, times), t) <= Cap(count) + 1
    decreases |times|
  {
    hide Admit, InWindow, LogOf, Cap, Sorted;
    if times == [] {
      assert history + [] == history;
    } else {
      var (l, ok) := Admit(log, count, times[0]);
      var h := if ok then history + [times[0]] else history;
      AdmitKeepsBound(log, history, count, before, times[0], t);
      SortedRest(times);
      AdmittedBound(l, h, count, times[0], times[1..], t);
      AdmittedStep(log, count, times, history);
    }
  }

  // Whatever arrives from a peer for a lobby of fixed size, no ten seconds see more than the cap and
  // one more pass.
  lemma LimiterBound(count: nat, times: seq<int>, t: int)
    requires Sorted(times)
    ensures var n := InWindow(Admitted([], count, times), t);
            n <= Cap(count) + 1 && (n <= 11 || 6 * (n - 1) <= 5 * count)
  {
    var first := if times == [] then 0 else times[0];
    AdmittedBound([], [], count, first, times, t);
    assert [] + Admitted([], count, times) == Admitted([], count, times);
  }

  // ---- One node ----

  // The logs are kept by peer and lobby. A visible lobby has a known number of participants.
  datatype Service = Service(entries: map<LobbyId, Entry>, visible: map<LobbyId, nat>,
                             logs: map<(Peer, LobbyId), seq<int>>)

  predicate TooOld(item: Item, now: int) {
    now + AGE_MARGIN > item.sendTime + MAX_KEEP_MSG_RECORD
  }

  predicate FromTheFuture(item: Item, now: int) {
    now + FUTURE_MARGIN < item.sendTime
  }

  // The sender joins the friends of the lobby, unless it is the node itself, and its identity is
  // marked as active.
  function Noted(e: Entry, own: Peer, item: Item, from: Peer, now: int): Entry {
    e.(friends := if from != own then e.friends + {from} else e.friends, ids := e.ids[item.key := now])
  }

  function Remembered(e: Entry, item: Item, now: int): Entry {
    e.(cache := e.cache[item.msg := now])
  }

  function Targets(friends: set<Peer>, from: Peer, connected: set<Peer>): set<Peer> {
    set w | w in friends && w != from && w in connected
  }

  // What the node does with an item in its lobby: a known one only has its time renewed; a new one
  // is cached, and sent on to the connected friends except the one it came from, if allowed.
  function Bounce(e: Entry, own: Peer, item: Item, from: Peer, now: int, connected: set<Peer>,
                  allowed: bool): (Entry, Outcome) {
    var n := Noted(e, own, item, from, now);
    if item.msg in e.cache then (Remembered(n, item, now), Dropped)
    else
      var r := Remembered(n, item, now).(lastActivity := now);
      if !allowed then (r, Dropped)
      else (r.(challenges := r.challenges + 1), Outcome(true, Targets(n.friends, from, connected)))
  }

  function LogAt(s: Service, from: Peer, lobby: LobbyId): seq<int> {
    if (from, lobby) in s.logs then s.logs[(from, lobby)] else []
  }

  // The number of participants as the limiter sees it.
  function CountOf(s: Service, lobby: LobbyId): nat {
    if lobby in s.visible then s.visible[lobby]
    else if lobby in s.entries then |s.entries[lobby].ids|
    else 0
  }

  function Bounced(s: Service, own: Peer, item: Item, from: Peer, now: int, connected: set<Peer>): (Service, Outcome) {
    if item.lobby !in s.entries then (s, Dropped)
    else
      var e := s.entries[item.lobby];
      var t := s.(entries := s.entries[item.lobby := Noted(e, own, item, from, now)]);
      if item.msg in e.cache then
        (s.(entries := s.entries[item.lobby := Bounce(e, own, item, from, now, connected, false).0]), Dropped)
      else
        var (log, allowed) := Admit(LogAt(s, from, item.lobby), CountOf(t, item.lobby), now);
        var (f, o) := Bounce(e, own, item, from, now, connected, allowed);
        (s.(entries := s.entries[item.lobby := f], logs := s.logs[(from, item.lobby) := log]), o)
  }

  // An item from a friend; trusted stands for the checks of its signature and its author.
  function Received(s: Service, own: Peer, item: Item, from: Peer, now: int, connected: set<Peer>,
                    trusted: bool): (Service, Outcome) {
    if TooOld(item, now) || FromTheFuture(item, now) || !trusted then (s, Dropped)
    else Bounced(s, own, item, from, now, connected)
  }

  // The entries not older than the limit.
  function Recent(m: map<nat, int>, keep: nat, now: int): map<nat, int> {
    map k | k in m && m[k] + keep >= now :: m[k]
  }

  function Swept(e: Entry, now: int): Entry {
    e.(cache := Recent(e.cache, MAX_KEEP_MSG_RECORD, now), ids := Recent(e.ids, MAX_KEEP_INACTIVE_NICKNAME, now))
  }

  function AllSwept(s: Service, now: int): Service {
    s.(entries := map l | l in s.entries :: Swept(s.entries[l], now))
  }

  // ---- A message is passed on at most once ----

  datatype Event =
    | Arrival(item: Item, from: Peer, at: int, connected: set<Peer>, trusted: bool)
    | Posting(item: Item, at: int, connected: set<Peer>)
    | Sweep(at: int)

  function Step(s: Service, own: Peer, e: Event): (Service, Outcome) {
    match e
    case Arrival(item, from, now, connected, trusted) => Received(s, own, item, from, now, connected, trusted)
    case Posting(item, now, connected) => Bounced(s, own, item, own, now, connected)
    case Sweep(now) => (AllSwept(s, now), Dropped)
  }

  ghost function ServiceAt(s: Service, own: Peer, es: seq<Event>, i: nat): Service
    requires i <= |es|
  {
    if i == 0 then s else Step(ServiceAt(s, own, es, i - 1), own, es[i - 1]).0
  }

  ghost function OutcomeAt(s: Service, own: Peer, es: seq<Event>, i: nat): Outcome
    requires i < |es|
  {
    Step(ServiceAt(s, own, es, i), own, es[i]).1
  }

  ghost predicate Monotone(es: seq<Event>) {
    forall i, j :: 0 <= i <= j < |es| ==> es[i].at <= es[j].at
  }

  predicate About(e: Event, lobby: LobbyId, msg: MsgId) {
    !e.Sweep? && e.item.lobby == lobby && e.item.msg == msg
  }

  // Copies of one message arrive with the time it was sent at, and no other gets its number.
  ghost predicate CopiesOf(es: seq<Event>, i: nat, item: Item) {
    forall k :: i < k < |es| && About(es[k], item.lobby, item.msg) ==>
      es[k].Arrival? && es[k].item.sendTime == item.sendTime
  }

  // The message is cached since t0, or so much time has passed that every copy is too old.
  ghost predicate Known(s: Service, item: Item, t0: int, now: int) {
    item.lobby in s.entries &&
    ((item.msg in s.entries[item.lobby].cache && s.entries[item.lobby].cache[item.msg] >= t0)
      || now > t0 + MAX_KEEP_MSG_RECORD)
  }

  lemma KnownAfter(s: Service, own: Peer, e: Event, item: Item)
    requires About(e, item.lobby, item.msg) && Step(s, own, e).1.used
    ensures Known(Step(s, own, e).0, item, e.at, e.at)
  {
    hide Admit, CountOf, LogAt;
  }

  lemma KnownStep(s: Service, own: Peer, e: Event, item: Item, t0: int, before: int)
    requires Known(s, item, t0, before) && before <= e.at && t0 <= e.at
    requires About(e, item.lobby, item.msg) ==> e.Arrival? && e.item.sendTime == item.sendTime
    requires item.sendTime <= t0 + AGE_MARGIN
    ensures Known(Step(s, own, e).0, item, t0, e.at)
    ensures About(e, item.lobby, item.msg) ==> !Step(s, own, e).1.used
  {
    hide Admit, CountOf, LogAt;
  }

  lemma {:induction false} KnownAt(s: Service, own: Peer, es: seq<Event>, i: nat, j: nat, item: Item)
    requires i < j <= |es| && Monotone(es) && About(es[i], item.lobby, item.msg) && OutcomeAt(s, own, es, i).used
    requires item.sendTime <= es[i].at + AGE_MARGIN && CopiesOf(es, i, item)
    ensures Known(ServiceAt(s, own, es, j), item, es[i].at, es[j - 1].at)
  {
    hide Step, Known;
    if j == i + 1 {
      KnownAfter(ServiceAt(s, own, es, i), own, es[i], item);
    } else {
      KnownAt(s, own, es, i, j - 1, item);
      KnownStep(ServiceAt(s, own, es, j - 1), own, es[j - 1], item, es[i].at, es[j - 2].at);
    }
  }

  // In a lobby that stays subscribed, a message sent at most a hundred seconds ahead of the clock
  // that first accepted it is never accepted again, although it is forgotten after twenty minutes.
  lemma PassedOnOnce(s: Service, own: Peer, es: seq<Event>, i: nat, j: nat, item: Item)
    requires i < j < |es| && Monotone(es) && About(es[i], item.lobby, item.msg) && OutcomeAt(s, own, es, i).used
    requires item.sendTime <= es[i].at + AGE_MARGIN && CopiesOf(es, i, item)
    requires About(es[j], item.lobby, item.msg)
    ensures !OutcomeAt(s, own, es, j).used && OutcomeAt(s, own, es, j).sends == {}
  {
    hide Step, Known;
    KnownAt(s, own, es, i, j, item);
    KnownStep(ServiceAt(s, own, es, j), own, es[j], item, es[i].at, es[j - 1].at);
    UnusedIsUnsent(ServiceAt(s, own, es, j), own, es[j]);
  }

  lemma UnusedIsUnsent(s: Service, own: Peer, e: Event)
    ensures !Step(s, own, e).1.used ==> Step(s, own, e).1.sends == {}
  {
    hide Admit, CountOf, LogAt;
  }

  // A run in which a message first accepted at t0 is accepted again.
  ghost predicate PassedOnTwice(s: Service, own: Peer, es: seq<Event>, j: nat, item: Item, t0: int) {
    && 0 < j < |es| && Monotone(es) && CopiesOf(es, 0, item)
    && es[0].Arrival? && es[0].item == item && es[0].at == t0 && OutcomeAt(s, own, es, 0).used
    && About(es[j], item.lobby, item.msg) && OutcomeAt(s, own, es, j).used
  }

  // A message from further ahead can come back just after it has been forgotten.
  lemma Echo(item: Item, t0: int) returns (s: Service, es: seq<Event>)
    requires !TooOld(item, t0) && !FromTheFuture(item, t0) && item.sendTime > t0 + AGE_MARGIN
    ensures PassedOnTwice(s, 0, es, 2, item, t0) && OutcomeAt(s, 0, es, 2).sends == {2}
  {
    s := Service(map[item.lobby := Entry({2}, map[], map[], 0, 0)], map[], map[]);
    var later := t0 + MAX_KEEP_MSG_RECORD + 1;
    es := [Arrival(item, 1, t0, {2}, true), Sweep(later), Arrival(item, 1, later, {2}, true)];
    FirstArrival(s, item, t0);
    var s1 := Step(s, 0, es[0]).0;
    var s2 := Step(s1, 0, es[1]).0;
    Forgotten(s1, item, t0, later);
    hide Step, CopiesOf;
    assert ServiceAt(s, 0, es, 0) == s && ServiceAt(s, 0, es, 1) == s1 && ServiceAt(s, 0, es, 2) == s2;
    TwoCopies(es, item);
  }

  lemma TwoCopies(es: seq<Event>, item: Item)
    requires |es| == 3 && es[1].Sweep? && es[2].Arrival? && es[2].item == item
    ensures CopiesOf(es, 0, item)
  {}

  lemma FirstArrival(s: Service, item: Item, t0: int)
    requires s == Service(map[item.lobby := Entry({2}, map[], map[], 0, 0)], map[], map[])
    requires !TooOld(item, t0) && !FromTheFuture(item, t0)
    ensures var (r, o) := Step(s, 0, Arrival(item, 1, t0, {2}, true));
            && o == Outcome(true, {2})
            && r == Service(map[item.lobby := Entry({1, 2}, map[item.key := t0], map[item.msg := t0], t0, 1)], map[],
                            map[(1, item.lobby) := [t0]])
  {
    assert [] + [t0] == [t0];
    assert Admit([], 1, t0) == ([t0], true);
    assert {2} + {1} == {1, 2};
    assert Targets({1, 2}, 1, {2}) == {2};
  }

  lemma Forgotten(r: Service, item: Item, t0: int, later: int)
    requires r ==
      Service(map[item.lobby := Entry({1, 2}, map[item.key := t0], map[item.msg := t0], t0, 1)], map[],
              map[(1, item.lobby) := [t0]])
    requires later == t0 + MAX_KEEP_MSG_RECORD + 1 && item.sendTime > t0 + AGE_MARGIN && !FromTheFuture(item, t0)
    ensures Step(Step(r, 0, Sweep(later)).0, 0, Arrival(item, 1, later, {2}, true)).1 == Outcome(true, {2})
  {
    var q := Step(r, 0, Sweep(later)).0;
    assert q.entries == map[item.lobby := Entry({1, 2}, map[], map[], t0, 1)];
    assert Cleaned([t0], later) == [];
    assert {1, 2} + {1} == {1, 2};
    assert Targets({1, 2}, 1, {2}) == {2};
  }

  // So the margin decides: a message can be passed on twice exactly when it came from more than a
  // hundred seconds ahead of the clock that first accepted it.
  lemma PassedOnTwiceIffAhead(item: Item, t0: int)
    requires !TooOld(item, t0) && !FromTheFuture(item, t0)
    ensures (exists s: Service, own: Peer, es: seq<Event>, j: nat :: PassedOnTwice(s, own, es, j, item, t0)) <==>
      item.sendTime > t0 + AGE_MARGIN
  {
    if item.sendTime > t0 + AGE_MARGIN {
      var s, es := Echo(item, t0);
    } else {
      forall s: Service, own: Peer, es: seq<Event>, j: nat
        ensures !PassedOnTwice(s, own, es, j, item, t0)
      {
        if PassedOnTwice(s, own, es, j, item, t0) { PassedOnOnce(s, own, es, 0, j, item); }
      }
    }
  }

  // ---- The service ----

  class DistributedChatService {
    const own: Peer
    var chatLobbys: map<LobbyId, Entry>
    var visibleLobbies: map<LobbyId, nat>
    var messageCounts: map<(Peer, LobbyId), seq<int>>

    function Value(): Service
      reads this
    {
      Service(chatLobbys, visibleLobbies, messageCounts)
    }

    constructor (own: Peer)
      ensures this.own == own && Value() == Service(map[], map[], map[])
    {
      this.own := own;
      chatLobbys, visibleLobbies, messageCounts := map[], map[], map[];
    }

    // Messages and events from friends pass the age checks before they are bounced.
    method HandleRecvChatLobbyItem(item: Item, from: Peer, now: int, connected: set<Peer>, trusted: bool)
      returns (o: Outcome)
      modifies this
      ensures (Value(), o) == Received(old(Value()), own, item, from, now, connected, trusted)
    {
      hide Bounced;
      if now + 100 > item.sendTime + MAX_KEEP_MSG_RECORD { return Dropped; }
      if now + 600 < item.sendTime { return Dropped; }
      if !trusted { return Dropped; }
      o := BounceLobbyObject(item, from, now, connected);
    }

    method BounceLobbyObject(item: Item, from: Peer, now: int, connected: set<Peer>) returns (o: Outcome)
      modifies this
      ensures (Value(), o) == Bounced(old(Value()), own, item, from, now, connected)
    {
      hide Admit;
      if item.lobby !in chatLobbys { return Dropped; }
      var lobby := chatLobbys[item.lobby];
      if from != own { lobby := lobby.(friends := lobby.friends + {from}); }
      lobby := lobby.(ids := lobby.ids[item.key := now]);
      if item.msg in lobby.cache {
        lobby := lobby.(cache := lobby.cache[item.msg := now]);
        chatLobbys := chatLobbys[item.lobby := lobby];
        return Dropped;
      }
      lobby := lobby.(cache := lobby.cache[item.msg := now], lastActivity := now);
      chatLobbys := chatLobbys[item.lobby := lobby];
      ghost var noted := Noted(old(chatLobbys)[item.lobby], own, item, from, now);
      assert lobby == Remembered(noted, item, now).(lastActivity := now);
      assert CountOf(Value(), item.lobby) ==
        CountOf(old(Value()).(entries := old(chatLobbys)[item.lobby := noted]), item.lobby);
      assert LogAt(Value(), from, item.lobby) == LogAt(old(Value()), from, item.lobby);
      var allowed := BouncingObjectCheck(item, from, now);
      if !allowed { return Dropped; }
      var sends := Forward(lobby.friends, from, connected);
      lobby := lobby.(challenges := lobby.challenges + 1);
      chatLobbys := chatLobbys[item.lobby := lobby];
      assert chatLobbys == old(chatLobbys)[item.lobby := lobby];
      o := Outcome(true, sends);
    }

    method BouncingObjectCheck(item: Item, from: Peer, now: int) returns (ok: bool)
      modifies `messageCounts
      ensures item.lobby !in visibleLobbies && item.lobby !in chatLobbys ==> !ok && messageCounts == old(messageCounts)
      ensures item.lobby in visibleLobbies || item.lobby in chatLobbys ==>
        var (log, allowed) := Admit(LogAt(old(Value()), from, item.lobby), CountOf(old(Value()), item.lobby), now);
        ok == allowed && messageCounts == old(messageCounts)[(from, item.lobby) := log]
    {
      var count;
      if item.lobby in visibleLobbies {
        count := visibleLobbies[item.lobby];
      } else if item.lobby in chatLobbys {
        count := |chatLobbys[item.lobby].ids|;
      } else {
        return false;
      }
      var log := if (from, item.lobby) in messageCounts then messageCounts[(from, item.lobby)] else [];
      ghost var before := log;
      while log != [] && log[0] + MAX_MESSAGES_PER_SECONDS_PERIOD < now
        invariant Cleaned(log, now) == Cleaned(before, now)
        decreases |log|
      {
        log := log[1..];
      }
      ok := !Full(|log|, count);
      if ok { log := log + [now]; }
      messageCounts := messageCounts[(from, item.lobby) := log];
    }

    static method Forward(friends: set<Peer>, from: Peer, connected: set<Peer>) returns (sends: set<Peer>)
      ensures sends == Targets(friends, from, connected)
    {
      sends := {};
      var left := friends;
      while left != {}
        invariant left <= friends && sends == Targets(friends - left, from, connected)
        decreases |left|
      {
        var w :| w in left;
        left := left - {w};
        if w != from && w in connected { sends := sends + {w}; }
      }
      assert friends - left == friends;
    }

    // Forgets old messages and inactive identities in every lobby.
    method CleanLobbyCaches(now: int)
      modifies `chatLobbys
      ensures Value() == AllSwept(old(Value()), now)
    {
      hide Swept;
      ghost var before := chatLobbys;
      var left := chatLobbys.Keys;
      while left != {}
        invariant left <= before.Keys && chatLobbys.Keys == before.Keys
        invariant forall l :: l in before ==> chatLobbys[l] == if l in left then before[l] else Swept(before[l], now)
        decreases |left|
      {
        var l :| l in left;
        left := left - {l};
        var swept := SweepLobby(chatLobbys[l], now);
        chatLobbys := chatLobbys[l := swept];
      }
      assert chatLobbys == (map l | l in before :: Swept(before[l], now));
    }

    static method SweepLobby(lobby: Entry, now: int) returns (e: Entry)
      ensures e == Swept(lobby, now)
    {
      var cache := EraseOld(lobby.cache, MAX_KEEP_MSG_RECORD, now);
      var ids := EraseOld(lobby.ids, MAX_KEEP_INACTIVE_NICKNAME, now);
      e := lobby.(cache := cache, ids := ids);
    }

    static method EraseOld(m: map<nat, int>, keep: nat, now: int) returns (r: map<nat, int>)
      ensures r == Recent(m, keep, now)
    {
      r := m;
      var left := m.Keys;
      while left != {}
        invariant left <= m.Keys
        invariant forall k :: k in r <==> k in m && (k in left || m[k] + keep >= now)
        invariant forall k :: k in r ==> r[k] == m[k]
        decreases |left|
      {
        var k :| k in left;
        left := left - {k};
        if m[k] + keep < now { r := r - {k}; }
      }
    }
  }
}
