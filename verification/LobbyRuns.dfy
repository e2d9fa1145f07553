// What a node remembers and passes on in a run, read off the events alone: which messages and
// identities it has, who its friends in a lobby are, and which items are sent on to whom.
module LobbyRuns {
  import opened Lobby

  // A posting of the node itself, or an item that passed its checks and was neither sent more than
  // 1100 seconds ago nor more than 600 seconds ahead.
  predicate LetIn(e: Event) {
    e.Posting? || (e.Arrival? && e.trusted && e.at - 1100 <= e.item.sendTime <= e.at + 600)
  }

  // An arrival that is not let in leaves the whole service as it was.
  lemma KeptOut(s: Service, own: Peer, e: Event)
    requires e.Arrival? && !LetIn(e)
    ensures Step(s, own, e) == (s, Outcome(false, {}))
  {}

  function Sender(e: Event, own: Peer): Peer
    requires !e.Sweep?
  {
    if e.Arrival? then e.from else own
  }

  predicate Into(e: Event, lobby: LobbyId) {
    LetIn(e) && e.item.lobby == lobby
  }

  // ---- One step, as one lobby sees it ----

  lemma LobbiesStay(s: Service, own: Peer, e: Event)
    ensures Step(s, own, e).0.entries.Keys == s.entries.Keys && Step(s, own, e).0.visible == s.visible
  {
    hide Admit, CountOf, LogAt, Cleaned;
  }

  lemma NotInto(s: Service, own: Peer, e: Event, lobby: LobbyId)
    requires lobby in s.entries && !e.Sweep? && !Into(e, lobby)
    ensures lobby in Step(s, own, e).0.entries && Step(s, own, e).0.entries[lobby] == s.entries[lobby]
  {
    hide Admit, CountOf, LogAt, Cleaned, Bounce;
  }

  lemma IntoLobby(s: Service, own: Peer, e: Event, lobby: LobbyId)
    requires lobby in s.entries && Into(e, lobby)
    ensures lobby in Step(s, own, e).0.entries
    ensures var f, f' := s.entries[lobby], Step(s, own, e).0.entries[lobby];
            && f'.friends == (if Sender(e, own) == own then f.friends else f.friends + {Sender(e, own)})
            && f'.ids == f.ids[e.item.key := e.at] && f'.cache == f.cache[e.item.msg := e.at]
  {
    hide Bounced;
    IntoBounced(s, own, e.item, Sender(e, own), e.at, e.connected, lobby);
  }

  lemma IntoBounced(s: Service, own: Peer, item: Item, from: Peer, now: int, connected: set<Peer>, lobby: LobbyId)
    requires lobby in s.entries && item.lobby == lobby
    ensures var t := Bounced(s, own, item, from, now, connected).0;
            lobby in t.entries &&
            var f, f' := s.entries[lobby], t.entries[lobby];
            && f'.friends == (if from == own then f.friends else f.friends + {from})
            && f'.ids == f.ids[item.key := now] && f'.cache == f.cache[item.msg := now]
  {
    hide Admit, CountOf, LogAt, Targets;
  }

  lemma AllLobbies(s: Service, own: Peer, es: seq<Event>, i: nat)
    requires i <= |es|
    ensures ServiceAt(s, own, es, i).entries.Keys == s.entries.Keys && ServiceAt(s, own, es, i).visible == s.visible
  {
    hide Step;
    if i > 0 {
      AllLobbies(s, own, es, i - 1);
      LobbiesStay(ServiceAt(s, own, es, i - 1), own, es[i - 1]);
    }
  }

  // ---- Messages and identities ----

  // What a lobby keeps the time of: messages for 1200 seconds, identities for 180.
  datatype Mark = OfMessage(msg: MsgId) | OfIdentity(key: GxsId)

  function Times(e: Entry, m: Mark): map<nat, int> {
    if m.OfMessage? then e.cache else e.ids
  }

  function Number(m: Mark): nat {
    if m.OfMessage? then m.msg else m.key
  }

  function Keep(m: Mark): nat {
    if m.OfMessage? then 1200 else 180
  }

  predicate Marks(e: Event, lobby: LobbyId, m: Mark) {
    Into(e, lobby) && match m
      case OfMessage(msg) => e.item.msg == msg
      case OfIdentity(key) => e.item.key == key
  }

  // Event k is the last to mark, and no sweep has come so late since that it forgets the mark.
  ghost predicate KeptSince(es: seq<Event>, k: nat, i: nat, lobby: LobbyId, m: Mark)
    requires i <= |es|
  {
    && k < i && Marks(es[k], lobby, m)
    && forall j :: k < j < i ==> !Marks(es[j], lobby, m) && (es[j].Sweep? ==> es[j].at <= es[k].at + Keep(m))
  }

  lemma MarkStep(s: Service, own: Peer, e: Event, lobby: LobbyId, m: Mark)
    requires lobby in s.entries
    ensures lobby in Step(s, own, e).0.entries
    ensures var t, t', n := Times(s.entries[lobby], m), Times(Step(s, own, e).0.entries[lobby], m), Number(m);
            if Marks(e, lobby, m) then n in t' && t'[n] == e.at
            else
              && (n in t' <==> n in t && (e.Sweep? ==> e.at <= t[n] + Keep(m)))
              && (n in t' ==> t'[n] == t[n])
  {
    if e.Sweep? {
      assert Step(s, own, e).0.entries[lobby] == Swept(s.entries[lobby], e.at);
    } else if Into(e, lobby) {
      hide Step;
      IntoLobby(s, own, e, lobby);
    } else {
      hide Step;
      NotInto(s, own, e, lobby);
    }
  }

  lemma {:induction false} MarkKept(s: Service, own: Peer, es: seq<Event>, k: nat, i: nat, lobby: LobbyId, m: Mark)
    requires lobby in s.entries && i <= |es| && KeptSince(es, k, i, lobby, m)
    ensures lobby in ServiceAt(s, own, es, i).entries
    ensures var t := Times(ServiceAt(s, own, es, i).entries[lobby], m); Number(m) in t && t[Number(m)] == es[k].at
  {
    hide Step, Marks, Times, Number, Keep;
    AllLobbies(s, own, es, i - 1);
    MarkStep(ServiceAt(s, own, es, i - 1), own, es[i - 1], lobby, m);
    if k < i - 1 { MarkKept(s, own, es, k, i - 1, lobby, m); }
  }

  lemma {:induction false} MarkedBy(s: Service, own: Peer, es: seq<Event>, i: nat, lobby: LobbyId,
                                    m: Mark) returns (k: nat)
    requires lobby in s.entries && i <= |es| && Number(m) !in Times(s.entries[lobby], m)
    requires lobby in ServiceAt(s, own, es, i).entries
    requires Number(m) in Times(ServiceAt(s, own, es, i).entries[lobby], m)
    ensures KeptSince(es, k, i, lobby, m)
  {
    hide Step, Marks, Times, Number, Keep;
    AllLobbies(s, own, es, i - 1);
    MarkStep(ServiceAt(s, own, es, i - 1), own, es[i - 1], lobby, m);
    if Marks(es[i - 1], lobby, m) {
      k := i - 1;
    } else {
      k := MarkedBy(s, own, es, i - 1, lobby, m);
      MarkKept(s, own, es, k, i - 1, lobby, m);
    }
  }

  // A message is cached exactly when it was posted or came in, trusted and in time, and no sweep has
  // come more than twenty minutes after the last time it did. The same holds of the identities a
  // lobby counts as active, with three minutes.
  lemma KnownIff(s: Service, own: Peer, es: seq<Event>, i: nat, lobby: LobbyId, m: Mark)
    requires lobby in s.entries && i <= |es| && Number(m) !in Times(s.entries[lobby], m)
    ensures lobby in ServiceAt(s, own, es, i).entries
    ensures Number(m) in Times(ServiceAt(s, own, es, i).entries[lobby], m)
       <==> exists k: nat :: KeptSince(es, k, i, lobby, m)
  {
    hide Times, Number, KeptSince;
    AllLobbies(s, own, es, i);
    if Number(m) in Times(ServiceAt(s, own, es, i).entries[lobby], m) {
      var k := MarkedBy(s, own, es, i, lobby, m);
    }
    forall k: nat | KeptSince(es, k, i, lobby, m)
      ensures Number(m) in Times(ServiceAt(s, own, es, i).entries[lobby], m)
    {
      MarkKept(s, own, es, k, i, lobby, m);
    }
  }

  // ---- Friends ----

  // Friends of a lobby are those it began with and everyone an item came in from.
  lemma {:induction false} FriendIff(s: Service, own: Peer, es: seq<Event>, i: nat, lobby: LobbyId, w: Peer)
    requires lobby in s.entries && i <= |es|
    ensures lobby in ServiceAt(s, own, es, i).entries
    ensures w in ServiceAt(s, own, es, i).entries[lobby].friends <==>
              || w in s.entries[lobby].friends
              || (w != own && exists k :: 0 <= k < i && Into(es[k], lobby) && Sender(es[k], own) == w)
  {
    hide Into, Step, Sender;
    AllLobbies(s, own, es, i);
    if i > 0 {
      FriendIff(s, own, es, i - 1, lobby, w);
      AllLobbies(s, own, es, i - 1);
      FriendStep(ServiceAt(s, own, es, i - 1), own, es[i - 1], lobby, w);
    }
  }

  lemma FriendStep(s: Service, own: Peer, e: Event, lobby: LobbyId, w: Peer)
    requires lobby in s.entries
    ensures lobby in Step(s, own, e).0.entries
    ensures w in Step(s, own, e).0.entries[lobby].friends <==>
              w in s.entries[lobby].friends || (w != own && Into(e, lobby) && Sender(e, own) == w)
  {
    if e.Sweep? {
      assert Step(s, own, e).0.entries[lobby] == Swept(s.entries[lobby], e.at);
    } else if Into(e, lobby) {
      hide Step;
      IntoLobby(s, own, e, lobby);
    } else {
      hide Step;
      NotInto(s, own, e, lobby);
    }
  }

  // ---- What passes the limiter ----

  predicate From(e: Event, own: Peer, p: Peer, lobby: LobbyId) {
    !e.Sweep? && e.item.lobby == lobby && Sender(e, own) == p
  }

  // The times at which items from a peer were passed on in a lobby.
  ghost function Passed(s: Service, own: Peer, es: seq<Event>, i: nat, p: Peer, lobby: LobbyId): seq<int>
    requires i <= |es|
  {
    if i == 0 then []
    else
      Passed(s, own, es, i - 1, p, lobby)
      + if From(es[i - 1], own, p, lobby) && OutcomeAt(s, own, es, i - 1).used then [es[i - 1].at] else []
  }

  // Whoever is known to take part, with the author of the item.
  function Participants(s: Service, item: Item): nat
    requires item.lobby in s.entries
  {
    if item.lobby in s.visible then s.visible[item.lobby] else |s.entries[item.lobby].ids.Keys + {item.key}|
  }

  predicate IsNew(s: Service, e: Event) {
    LetIn(e) && e.item.lobby in s.entries && e.item.msg !in s.entries[e.item.lobby].cache
  }

  lemma PassStep(s: Service, own: Peer, e: Event)
    requires IsNew(s, e)
    ensures var (log, ok) := Admit(LogAt(s, Sender(e, own), e.item.lobby), Participants(s, e.item), e.at);
            var (t, o) := Step(s, own, e);
            o.used == ok && t.logs == s.logs[(Sender(e, own), e.item.lobby) := log]
  {
    hide Admit, LogAt, Noted, Remembered, Targets, CountOf, Participants;
    NotedCount(s, own, e.item, Sender(e, own), e.at);
  }

  lemma NotedCount(s: Service, own: Peer, item: Item, from: Peer, now: int)
    requires item.lobby in s.entries
    ensures var t := s.(entries := s.entries[item.lobby := Noted(s.entries[item.lobby], own, item, from, now)]);
            CountOf(t, item.lobby) == Participants(s, item)
  {
    var f := s.entries[item.lobby];
    assert Noted(f, own, item, from, now).ids.Keys == f.ids.Keys + {item.key};
  }

  lemma NoPass(s: Service, own: Peer, e: Event)
    requires !IsNew(s, e)
    ensures !Step(s, own, e).1.used && Step(s, own, e).0.logs == s.logs
  {
    hide Admit, LogAt, CountOf, Targets;
  }

  ghost predicate LogIsPassed(s: Service, own: Peer, es: seq<Event>, i: nat, p: Peer, lobby: LobbyId, now: int)
    requires i <= |es|
  {
    LogOf(LogAt(ServiceAt(s, own, es, i), p, lobby), Passed(s, own, es, i, p, lobby), now)
  }

  lemma EmptyLog(now: int)
    ensures LogOf([], [], now)
  {}

  lemma LaterLog(log: seq<int>, history: seq<int>, before: int, now: int)
    requires LogOf(log, history, before) && before <= now
    ensures LogOf(log, history, now)
  {}

  lemma AdmittedLog(log: seq<int>, history: seq<int>, count: nat, before: int, now: int)
    requires LogOf(log, history, before) && before <= now
    ensures var (l, ok) := Admit(log, count, now); LogOf(l, if ok then history + [now] else history, now)
  {
    hide LogOf, Full, Cleaned;
    CleanedLog(log, history, before, now);
    LogGrows(Cleaned(log, now), history, now);
  }

  lemma OneLog(s: Service, own: Peer, e: Event, p: Peer, lobby: LobbyId, history: seq<int>, before: int)
    requires LogOf(LogAt(s, p, lobby), history, before) && before <= e.at
    ensures var (t, o) := Step(s, own, e);
            LogOf(LogAt(t, p, lobby), if From(e, own, p, lobby) && o.used then history + [e.at] else history, e.at)
  {
    hide Step, LogOf, Admit, IsNew, Participants;
    LaterLog(LogAt(s, p, lobby), history, before, e.at);
    if IsNew(s, e) {
      NewInto(s, e);
      PassStep(s, own, e);
      AdmittedLog(LogAt(s, p, lobby), history, Participants(s, e.item), before, e.at);
    } else {
      NoPass(s, own, e);
    }
  }

  lemma NewInto(s: Service, e: Event)
    requires IsNew(s, e)
    ensures !e.Sweep? && e.item.lobby in s.entries
  {}

  lemma {:induction false} LogAtStep(s: Service, own: Peer, es: seq<Event>, i: nat, p: Peer, lobby: LobbyId)
    requires s.logs == map[] && Monotone(es) && i < |es|
    ensures LogIsPassed(s, own, es, i, p, lobby, es[i].at)
  {
    hide Step, LogOf, From;
    if i == 0 {
      EmptyLog(es[0].at);
    } else {
      LogAtStep(s, own, es, i - 1, p, lobby);
      var h := Passed(s, own, es, i - 1, p, lobby);
      OneLog(ServiceAt(s, own, es, i - 1), own, es[i - 1], p, lobby, h, es[i - 1].at);
      assert h + [] == h;
      LaterLog(LogAt(ServiceAt(s, own, es, i), p, lobby), Passed(s, own, es, i, p, lobby), es[i - 1].at, es[i].at);
    }
  }

  lemma ShorterLog(log: seq<int>, history: seq<int>, now: int)
    requires LogOf(log, history, now) && log != []
    ensures history != [] && log[|log| - 1] == history[|history| - 1] <= now
    ensures LogOf(log[..|log| - 1], history[..|history| - 1], now)
  {
    var k := |history| - |log|;
    assert history[k..][|log| - 1] == history[|history| - 1];
    assert history[..|history| - 1][k..] == history[k..][..|log| - 1];
  }

  lemma ShorterHistory(history: seq<int>, now: int)
    requires LogOf([], history, now) && history != []
    ensures history[|history| - 1] + 10 < now && LogOf([], history[..|history| - 1], now)
  {}

  // A cleaned log holds what lies in the last ten seconds of its history.
  lemma {:induction false} AllInWindow(log: seq<int>, history: seq<int>, now: int)
    requires LogOf(log, history, now) && forall i :: 0 <= i < |log| ==> log[i] + 10 >= now
    ensures InWindow(history, now - 10) == |log|
    decreases |history|
  {
    if log != [] {
      ShorterLog(log, history, now);
      hide LogOf;
      AllInWindow(log[..|log| - 1], history[..|history| - 1], now);
    } else if history != [] {
      ShorterHistory(history, now);
      hide LogOf;
      AllInWindow([], history[..|history| - 1], now);
    }
  }

  lemma AdmitsIff(log: seq<int>, history: seq<int>, count: nat, now: int)
    requires LogOf(log, history, now)
    ensures Admit(log, count, now).1 <==> InWindow(history, now - 10) <= Cap(count)
  {
    hide LogOf, Cap, Full, InWindow;
    CleanedLog(log, history, now, now);
    AllInWindow(Cleaned(log, now), history, now);
    FullIsAboveCap(|Cleaned(log, now)|, count);
    hide Cleaned;
  }

  // An item is passed on exactly when it is let in to a subscribed lobby, is not cached, and in the
  // last ten seconds at most ten items of its sender were passed on there, or at most five for every
  // six participants.
  lemma PassedOnIff(s: Service, own: Peer, es: seq<Event>, i: nat)
    requires s.logs == map[] && Monotone(es) && i < |es|
    ensures var e, t := es[i], ServiceAt(s, own, es, i);
            OutcomeAt(s, own, es, i).used <==>
              && LetIn(e) && e.item.lobby in t.entries && e.item.msg !in t.entries[e.item.lobby].cache
              && var n := InWindow(Passed(s, own, es, i, Sender(e, own), e.item.lobby), e.at - 10);
                 n <= 10 || 6 * n <= 5 * Participants(t, e.item)
  {
    hide Step, Admit, LogOf, InWindow, Participants, Passed, ServiceAt, LetIn;
    var e, t := es[i], ServiceAt(s, own, es, i);
    if IsNew(t, e) {
      NewInto(t, e);
      PassStep(t, own, e);
      var p, lobby := Sender(e, own), e.item.lobby;
      LogAtStep(s, own, es, i, p, lobby);
      AdmitsIff(LogAt(t, p, lobby), Passed(s, own, es, i, p, lobby), Participants(t, e.item), e.at);
    } else {
      NoPass(t, own, e);
    }
  }

  // A lobby was last active when a message new to it came in, and counts what it passed on.
  lemma ActivityStep(s: Service, own: Peer, e: Event, lobby: LobbyId)
    requires lobby in s.entries
    ensures lobby in Step(s, own, e).0.entries
    ensures var f, f', o := s.entries[lobby], Step(s, own, e).0.entries[lobby], Step(s, own, e).1;
            && f'.lastActivity == (if Into(e, lobby) && e.item.msg !in f.cache then e.at else f.lastActivity)
            && f'.challenges == (if o.used && e.item.lobby == lobby then f.challenges + 1 else f.challenges)
  {
    hide Admit, LogAt, CountOf, Targets;
    if e.Sweep? { assert Step(s, own, e).0.entries[lobby] == Swept(s.entries[lobby], e.at); }
  }

  // What is passed on goes to the friends of the lobby who are connected, except the sender.
  lemma SentToIff(s: Service, own: Peer, es: seq<Event>, i: nat, w: Peer)
    requires i < |es|
    ensures w in OutcomeAt(s, own, es, i).sends <==>
              && OutcomeAt(s, own, es, i).used
              && var e := es[i]; var t := ServiceAt(s, own, es, i);
                 && !e.Sweep? && e.item.lobby in t.entries
                 && w in t.entries[e.item.lobby].friends && w in e.connected && w != Sender(e, own)
  {
    hide ServiceAt, Admit, LogAt, CountOf;
  }
}
