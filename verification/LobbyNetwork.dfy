// One message in a network of nodes, each of which bounces it and forgets it as in module Lobby.
module LobbyNetwork {
  import opened Lobby

  type Link = (Peer, Peer)

  // The entries of the nodes that are in the lobby, the copies on their way, all copies ever sent, for
  // each node that ever took the message in the peer it first came from and when, and the clocks of
  // the nodes.
  datatype Net = Net(nodes: map<Peer, Entry>, flight: multiset<Link>, sent: multiset<Link>,
                     source: map<Peer, Peer>, since: map<Peer, int>, clocks: map<Peer, int>)

  // A copy arrives, or is lost on its way or not trusted, or a node clears its cache.
  datatype Move =
    | Deliver(from: Peer, to: Peer, at: int, connected: set<Peer>, allowed: bool)
    | Lose(from: Peer, to: Peer)
    | Clean(node: Peer, at: int)

  // Node v has taken the message in, and may have forgotten it since.
  predicate Had(n: Net, v: Peer) {
    v in n.source
  }

  function Links(v: Peer, sends: set<Peer>): set<Link> {
    set w | w in sends :: (v, w)
  }

  // Node v bounces the message that came from a peer, or from itself.
  function BounceAt(n: Net, item: Item, v: Peer, from: Peer, now: int, connected: set<Peer>, allowed: bool): Net
    requires v in n.nodes
  {
    var (e, o) := Bounce(n.nodes[v], v, item, from, now, connected, allowed);
    n.(nodes := n.nodes[v := e],
       flight := n.flight + multiset(Links(v, o.sends)),
       sent := n.sent + multiset(Links(v, o.sends)),
       source := if Had(n, v) then n.source else n.source[v := from],
       since := if v in n.since then n.since else n.since[v := now])
  }

  // Clocks do not run backwards.
  predicate NotBefore(n: Net, v: Peer, at: int) {
    v in n.clocks ==> n.clocks[v] <= at
  }

  predicate Possible(n: Net, m: Move) {
    match m
    case Deliver(from, to, at, _, _) => (from, to) in n.flight && NotBefore(n, to, at)
    case Lose(from, to) => (from, to) in n.flight
    case Clean(v, at) => v in n.nodes && NotBefore(n, v, at)
  }

  predicate InAge(item: Item, now: int) {
    !TooOld(item, now) && !FromTheFuture(item, now)
  }

  function Taken(n: Net, l: Link): Net {
    n.(flight := n.flight - multiset{l})
  }

  // A node that is not in the lobby ignores what arrives, and so does one for which the message is
  // too old or too far ahead. Moves that are not possible change nothing.
  function Next(n: Net, item: Item, m: Move): Net {
    if !Possible(n, m) then n
    else
      match m
      case Lose(from, to) => Taken(n, (from, to))
      case Clean(v, at) => n.(nodes := n.nodes[v := Swept(n.nodes[v], at)], clocks := n.clocks[v := at])
      case Deliver(from, to, at, connected, allowed) =>
        var l := Taken(n, (from, to)).(clocks := n.clocks[to := at]);
        if to in n.nodes && InAge(item, at) then BounceAt(l, item, to, from, at, connected, allowed) else l
  }

  // Nobody knows the message; nobody is its own friend.
  ghost predicate Fresh(n: Net, item: Item) {
    && n.flight == n.sent == multiset{} && n.source == map[] && n.since == map[]
    && (forall v :: v in n.nodes ==> item.msg !in n.nodes[v].cache && v !in n.nodes[v].friends)
  }

  ghost function After(n: Net, item: Item, moves: seq<Move>): Net {
    if moves == [] then n else Next(After(n, item, moves[..|moves| - 1]), item, moves[|moves| - 1])
  }

  // ---- Each copy is sent at most once, and not back ----

  // No node whose clock was more than a hundred seconds behind the sender's took the message in.
  ghost predicate InTime(n: Net, item: Item) {
    forall v :: v in n.since ==> item.sendTime <= n.since[v] + AGE_MARGIN
  }

  ghost predicate LinkOnce(n: Net, l: Link) {
    && n.flight[l] <= n.sent[l] <= 1
    && (l in n.sent ==> l.0 in n.nodes && l.1 in n.nodes[l.0].friends && Had(n, l.0) && l.1 != n.source[l.0])
  }

  // A node that had the message has it in its cache, or its clock shows that any copy is too old.
  ghost predicate Remembers(n: Net, item: Item, v: Peer)
    requires v in n.nodes
  {
    var cache := n.nodes[v].cache;
    && (v in n.since <==> Had(n, v))
    && if !Had(n, v) then item.msg !in cache
       else
         && v in n.clocks && n.since[v] <= n.clocks[v]
         && ((item.msg in cache && cache[item.msg] >= n.since[v]) || n.clocks[v] > n.since[v] + MAX_KEEP_MSG_RECORD)
  }

  ghost predicate SentOnce(n: Net, item: Item) {
    && (forall l: Link :: LinkOnce(n, l))
    && (forall v :: v in n.nodes ==> v !in n.nodes[v].friends && Remembers(n, item, v))
  }

  lemma LinkCount(v: Peer, sends: set<Peer>, l: Link)
    ensures multiset(Links(v, sends))[l] == if l.0 == v && l.1 in sends then 1 else 0
  {
    if l.0 == v && l.1 in sends { assert l in Links(v, sends); }
  }

  // What the links of one bounce add.
  lemma BounceLinks(n: Net, item: Item, v: Peer, from: Peer, now: int, connected: set<Peer>, allowed: bool)
    requires v in n.nodes
    ensures var r := BounceAt(n, item, v, from, now, connected, allowed);
            var o := Bounce(n.nodes[v], v, item, from, now, connected, allowed).1;
            && (forall l: Link :: r.sent[l] == n.sent[l] + if l.0 == v && l.1 in o.sends then 1 else 0)
            && (forall l: Link :: r.flight[l] == n.flight[l] + if l.0 == v && l.1 in o.sends then 1 else 0)
  {
    var o := Bounce(n.nodes[v], v, item, from, now, connected, allowed).1;
    forall l: Link
      ensures multiset(Links(v, o.sends))[l] == if l.0 == v && l.1 in o.sends then 1 else 0
    {
      LinkCount(v, o.sends, l);
    }
  }

  // A copy is bounced by a node that has it cached, or by one that never had it.
  ghost predicate NoEcho(n: Net, item: Item, v: Peer)
    requires v in n.nodes
  {
    Had(n, v) <==> item.msg in n.nodes[v].cache
  }

  lemma BounceLinkOnce(n: Net, item: Item, v: Peer, from: Peer, now: int, connected: set<Peer>, allowed: bool, l: Link)
    requires LinkOnce(n, l) && v in n.nodes && NoEcho(n, item, v)
    ensures LinkOnce(BounceAt(n, item, v, from, now, connected, allowed), l)
  {
    BounceLinks(n, item, v, from, now, connected, allowed);
  }

  lemma BounceRemembers(n: Net, item: Item, v: Peer, from: Peer, now: int, connected: set<Peer>, allowed: bool, w: Peer)
    requires v in n.nodes && w in n.nodes && Remembers(n, item, w) && NoEcho(n, item, v)
    requires v in n.clocks && n.clocks[v] == now
    ensures Remembers(BounceAt(n, item, v, from, now, connected, allowed), item, w)
  {
    hide Links, Targets;
  }

  lemma BounceOnce(n: Net, item: Item, v: Peer, from: Peer, now: int, connected: set<Peer>, allowed: bool)
    requires SentOnce(n, item) && v in n.nodes && NoEcho(n, item, v)
    requires v in n.clocks && n.clocks[v] == now
    ensures SentOnce(BounceAt(n, item, v, from, now, connected, allowed), item)
  {
    var r := BounceAt(n, item, v, from, now, connected, allowed);
    forall l: Link
      ensures LinkOnce(r, l)
    {
      assert LinkOnce(n, l);
      BounceLinkOnce(n, item, v, from, now, connected, allowed, l);
    }
    forall w | w in r.nodes
      ensures w !in r.nodes[w].friends && Remembers(r, item, w)
    {
      BounceRemembers(n, item, v, from, now, connected, allowed, w);
    }
    hide LinkOnce, Remembers;
  }

  lemma TakenOnce(n: Net, item: Item, l: Link)
    requires SentOnce(n, item) && l in n.flight
    ensures SentOnce(Taken(n, l), item)
  {
    var r := Taken(n, l);
    forall k: Link
      ensures LinkOnce(r, k)
    {
      assert LinkOnce(n, k);
    }
    forall v | v in n.nodes
      ensures Remembers(r, item, v)
    {
      assert Remembers(n, item, v);
    }
  }

  lemma TickOnce(n: Net, item: Item, v: Peer, at: int)
    requires SentOnce(n, item) && NotBefore(n, v, at)
    ensures SentOnce(n.(clocks := n.clocks[v := at]), item)
  {
    var r := n.(clocks := n.clocks[v := at]);
    forall k: Link
      ensures LinkOnce(r, k)
    {
      assert LinkOnce(n, k);
    }
    forall w | w in n.nodes
      ensures Remembers(r, item, w)
    {
      assert Remembers(n, item, w);
    }
  }

  // What a node clears from its cache is older than any copy it would take in again.
  lemma CleanOnce(n: Net, item: Item, v: Peer, at: int)
    requires SentOnce(n, item) && v in n.nodes && v in n.clocks && n.clocks[v] == at
    ensures SentOnce(n.(nodes := n.nodes[v := Swept(n.nodes[v], at)]), item)
  {
    var r := n.(nodes := n.nodes[v := Swept(n.nodes[v], at)]);
    forall k: Link
      ensures LinkOnce(r, k)
    {
      assert LinkOnce(n, k);
    }
    forall w | w in n.nodes
      ensures Remembers(r, item, w)
    {
      assert Remembers(n, item, w);
    }
  }

  // A node that takes the message in time and lets only copies in that are not too old has it cached
  // when another copy comes.
  lemma InAgeNoEcho(n: Net, item: Item, v: Peer, now: int)
    requires v in n.nodes && Remembers(n, item, v) && InTime(n, item)
    requires v in n.clocks && n.clocks[v] == now && InAge(item, now)
    ensures NoEcho(n, item, v)
  {}

  lemma StepSendsOnce(n: Net, item: Item, m: Move)
    requires SentOnce(n, item) && InTime(n, item)
    ensures SentOnce(Next(n, item, m), item)
  {
    hide SentOnce, BounceAt, Taken, Swept, InAge, NoEcho, Remembers;
    if Possible(n, m) {
      match m {
        case Lose(from, to) => TakenOnce(n, item, (from, to));
        case Clean(v, at) =>
          TickOnce(n, item, v, at);
          CleanOnce(n.(clocks := n.clocks[v := at]), item, v, at);
        case Deliver(from, to, at, connected, allowed) =>
          TakenOnce(n, item, (from, to));
          TakenKeeps(n, (from, to));
          TickOnce(Taken(n, (from, to)), item, to, at);
          var l := Taken(n, (from, to)).(clocks := n.clocks[to := at]);
          if to in n.nodes && InAge(item, at) {
            RemembersAt(l, item, to);
            InAgeNoEcho(l, item, to, at);
            BounceOnce(l, item, to, from, at, connected, allowed);
          }
      }
    }
  }

  lemma TakenKeeps(n: Net, l: Link)
    ensures Taken(n, l).clocks == n.clocks && Taken(n, l).nodes == n.nodes && Taken(n, l).since == n.since
  {}

  lemma RemembersAt(n: Net, item: Item, v: Peer)
    requires SentOnce(n, item) && v in n.nodes
    ensures Remembers(n, item, v)
  {}

  // The times of first acceptance stay.
  lemma SinceStays(n: Net, item: Item, m: Move)
    requires InTime(Next(n, item, m), item)
    ensures InTime(n, item)
  {
    forall v | v in n.since
      ensures v in Next(n, item, m).since && Next(n, item, m).since[v] == n.since[v]
    {
    }
  }

  // In every run each node sends the message at most once to each peer, only after it took it in, only
  // to its friends, and never to the peer it had it from, although caches are cleared on the way: as
  // long as every clock that first took it in was at most a hundred seconds behind the sender's.
  lemma {:induction false} EveryRunSendsOnce(n: Net, item: Item, moves: seq<Move>)
    requires SentOnce(n, item) && InTime(After(n, item, moves), item)
    ensures SentOnce(After(n, item, moves), item)
    decreases |moves|
  {
    hide SentOnce, Next, InTime;
    if moves != [] {
      var before := After(n, item, moves[..|moves| - 1]);
      SinceStays(before, item, moves[|moves| - 1]);
      EveryRunSendsOnce(n, item, moves[..|moves| - 1]);
      StepSendsOnce(before, item, moves[|moves| - 1]);
    }
  }

  // ---- Finitely many copies ----

  // The network does not reach beyond these peers.
  ghost predicate Enclosed(n: Net, peers: set<Peer>) {
    n.nodes.Keys <= peers && forall v :: v in n.nodes ==> n.nodes[v].friends <= peers
  }

  ghost function AllLinks(a: set<Peer>, b: set<Peer>): set<Link> {
    set v, w | v in a && w in b :: (v, w)
  }

  lemma {:induction false} LinksOfOne(v: Peer, b: set<Peer>)
    ensures |Links(v, b)| == |b|
    decreases |b|
  {
    if b != {} {
      var w :| w in b;
      LinksOfOne(v, b - {w});
      assert Links(v, b) == Links(v, b - {w}) + {(v, w)};
    }
  }

  lemma {:induction false} LinksCounted(a: set<Peer>, b: set<Peer>)
    ensures |AllLinks(a, b)| == |a| * |b|
    decreases |a|
  {
    if a != {} {
      var v :| v in a;
      LinksCounted(a - {v}, b);
      LinksOfOne(v, b);
      assert AllLinks(a, b) == AllLinks(a - {v}, b) + Links(v, b);
      OneMore(|a| - 1, |b|);
    }
  }

  lemma OneMore(x: int, y: int)
    ensures x * y + y == (x + 1) * y
  {}

  lemma AtMostAll(sent: multiset<Link>, all: set<Link>)
    requires forall l :: l in sent ==> l in all && sent[l] <= 1
    ensures |sent| <= |all|
  {
    var rest := multiset(all) - sent;
    assert multiset(all) == sent + rest;
    assert |multiset(all)| == |all|;
  }

  lemma {:induction false} StaysEnclosed(n: Net, item: Item, moves: seq<Move>, peers: set<Peer>)
    requires SentOnce(n, item) && Enclosed(n, peers) && InTime(After(n, item, moves), item)
    ensures Enclosed(After(n, item, moves), peers) && After(n, item, moves).nodes.Keys == n.nodes.Keys
    decreases |moves|
  {
    hide SentOnce, Next, InTime, Enclosed;
    if moves != [] {
      var before := After(n, item, moves[..|moves| - 1]);
      SinceStays(before, item, moves[|moves| - 1]);
      StaysEnclosed(n, item, moves[..|moves| - 1], peers);
      EveryRunSendsOnce(n, item, moves[..|moves| - 1]);
      EnclosedStep(before, item, moves[|moves| - 1], peers);
    }
  }

  lemma EnclosedStep(n: Net, item: Item, m: Move, peers: set<Peer>)
    requires SentOnce(n, item) && Enclosed(n, peers)
    ensures Enclosed(Next(n, item, m), peers) && Next(n, item, m).nodes.Keys == n.nodes.Keys
  {
    if Possible(n, m) && m.Deliver? {
      assert LinkOnce(n, (m.from, m.to));
      hide SentOnce, Links, Targets;
    }
  }

  // However the copies travel, no more are sent than there are pairs of a node and a peer.
  lemma FinitelyManySends(n: Net, item: Item, moves: seq<Move>, peers: set<Peer>)
    requires SentOnce(n, item) && Enclosed(n, peers) && InTime(After(n, item, moves), item)
    ensures |After(n, item, moves).sent| <= |n.nodes| * |peers|
  {
    var r := After(n, item, moves);
    EveryRunSendsOnce(n, item, moves);
    StaysEnclosed(n, item, moves, peers);
    forall l | l in r.sent
      ensures l in AllLinks(r.nodes.Keys, peers) && r.sent[l] <= 1
    {
      assert LinkOnce(r, l);
    }
    AtMostAll(r.sent, AllLinks(r.nodes.Keys, peers));
    LinksCounted(r.nodes.Keys, peers);
  }

  // ---- Who gets the message ----

  // Who is connected to whom.
  function Neighbours(links: set<Link>, v: Peer): set<Peer> {
    set l | l in links && l.0 == v :: l.1
  }

  // What arrives is in age and let through, and the connections are the given ones. Nodes may clear
  // their caches.
  ghost predicate Smooth(m: Move, item: Item, links: set<Link>) {
    m.Clean? || (m.Deliver? && m.allowed && InAge(item, m.at) && m.connected == Neighbours(links, m.to))
  }

  ghost predicate Covered(n: Net, links: set<Link>, v: Peer, w: Peer) {
    Had(n, v) && v in n.nodes && w in n.nodes[v].friends && (v, w) in links && w in n.nodes ==>
      Had(n, w) || (v, w) in n.flight
  }

  // A node that took the message in has sent it to its connected friends, or they have had it already.
  ghost predicate Spreading(n: Net, item: Item, links: set<Link>) {
    && (forall v, w :: Covered(n, links, v, w))
    && (forall l: Link :: l in n.flight ==> Had(n, l.0))
    && (forall v :: v in n.nodes && item.msg in n.nodes[v].cache ==> Had(n, v))
  }

  lemma BounceCovers(n: Net, item: Item, u: Peer, v: Peer, now: int, links: set<Link>, x: Peer, w: Peer)
    requires v in n.nodes && (u == v || Had(n, u)) && (Had(n, v) ==> u != v)
    requires item.msg in n.nodes[v].cache ==> Had(n, v)
    requires Covered(n, links, x, w) || (x, w) == (u, v)
    ensures Covered(BounceAt(n, item, v, u, now, Neighbours(links, v), true), links, x, w)
  {
    BounceLinks(n, item, v, u, now, Neighbours(links, v), true);
    var r := BounceAt(n, item, v, u, now, Neighbours(links, v), true);
    if x == v && w in r.nodes[v].friends && (v, w) in links && w in n.nodes {
      assert (v, w).1 in Neighbours(links, v);
    }
  }

  lemma SpreadStep(n: Net, item: Item, m: Move, links: set<Link>)
    requires Spreading(n, item, links) && SentOnce(n, item) && Smooth(m, item, links)
    ensures Spreading(Next(n, item, m), item, links)
  {
    hide Next, Covered, Smooth;
    SpreadFlight(n, item, m, links);
    CachedHad(n, item, m, links);
    forall v, w
      ensures Covered(Next(n, item, m), links, v, w)
    {
      SpreadPair(n, item, m, links, v, w);
    }
  }

  lemma SpreadPair(n: Net, item: Item, m: Move, links: set<Link>, v: Peer, w: Peer)
    requires Spreading(n, item, links) && SentOnce(n, item) && Smooth(m, item, links)
    ensures Covered(Next(n, item, m), links, v, w)
  {
    assert Covered(n, links, v, w);
    if Possible(n, m) && m.Deliver? {
      var l := Taken(n, (m.from, m.to)).(clocks := n.clocks[m.to := m.at]);
      assert LinkOnce(n, (m.from, m.to));
      if m.to in n.nodes {
        hide Spreading, SentOnce, BounceAt;
        BounceCovers(l, item, m.from, m.to, m.at, links, v, w);
      }
    }
  }

  lemma SpreadFlight(n: Net, item: Item, m: Move, links: set<Link>)
    requires Spreading(n, item, links)
    ensures forall k: Link :: k in Next(n, item, m).flight ==> Had(Next(n, item, m), k.0)
  {
    hide Covered, Next;
    forall k: Link | k in Next(n, item, m).flight
      ensures Had(Next(n, item, m), k.0)
    {
      FlightLink(n, item, m, k);
    }
  }

  lemma FlightLink(n: Net, item: Item, m: Move, k: Link)
    requires (k in n.flight ==> Had(n, k.0)) && k in Next(n, item, m).flight
    ensures Had(Next(n, item, m), k.0)
  {
    hide BounceAt, Bounce, Links, Swept;
    if Possible(n, m) && m.Deliver? && m.to in n.nodes {
      var l := Taken(n, (m.from, m.to)).(clocks := n.clocks[m.to := m.at]);
      BounceLinks(l, item, m.to, m.from, m.at, m.connected, m.allowed);
      BounceHad(l, item, m.to, m.from, m.at, m.connected, m.allowed);
    }
  }

  lemma BounceHad(n: Net, item: Item, v: Peer, from: Peer, now: int, connected: set<Peer>, allowed: bool)
    requires v in n.nodes
    ensures var r := BounceAt(n, item, v, from, now, connected, allowed);
            Had(r, v) && forall w :: Had(n, w) ==> Had(r, w)
  {}

  lemma CachedHad(n: Net, item: Item, m: Move, links: set<Link>)
    requires Spreading(n, item, links)
    ensures var r := Next(n, item, m); forall v :: v in r.nodes && item.msg in r.nodes[v].cache ==> Had(r, v)
  {
    hide Next, Covered;
    forall v | v in Next(n, item, m).nodes && item.msg in Next(n, item, m).nodes[v].cache
      ensures Had(Next(n, item, m), v)
    {
      CachedHadAt(n, item, m, v);
    }
  }

  lemma CachedHadAt(n: Net, item: Item, m: Move, v: Peer)
    requires v in n.nodes && item.msg in n.nodes[v].cache ==> Had(n, v)
    requires v in Next(n, item, m).nodes && item.msg in Next(n, item, m).nodes[v].cache
    ensures Had(Next(n, item, m), v)
  {
    hide Links, Targets, TooOld, FromTheFuture;
  }

  // ---- Whole runs, from the node that posts the message ----

  // The node o posts the message to its connected friends.
  function Posted(n: Net, item: Item, o: Peer, now: int, connected: set<Peer>): Net
    requires o in n.nodes
  {
    BounceAt(n.(clocks := n.clocks[o := now]), item, o, o, now, connected, true)
  }

  lemma PostedSentOnce(n: Net, item: Item, o: Peer, now: int, connected: set<Peer>)
    requires Fresh(n, item) && o in n.nodes
    ensures SentOnce(Posted(n, item, o, now, connected), item)
  {
    assert SentOnce(n.(clocks := n.clocks[o := now]), item);
    BounceOnce(n.(clocks := n.clocks[o := now]), item, o, o, now, connected, true);
  }

  lemma PostedSpreading(n: Net, item: Item, o: Peer, now: int, links: set<Link>)
    requires Fresh(n, item) && o in n.nodes
    ensures Spreading(Posted(n, item, o, now, Neighbours(links, o)), item, links)
  {
    var l := n.(clocks := n.clocks[o := now]);
    var r := Posted(n, item, o, now, Neighbours(links, o));
    BounceLinks(l, item, o, o, now, Neighbours(links, o), true);
    forall v, w
      ensures Covered(r, links, v, w)
    {
      BounceCovers(l, item, o, o, now, links, v, w);
    }
    hide Covered, Links;
  }

  lemma {:induction false} EveryRunSpreads(n: Net, item: Item, moves: seq<Move>, links: set<Link>)
    requires Spreading(n, item, links) && SentOnce(n, item) && forall m :: m in moves ==> Smooth(m, item, links)
    requires InTime(After(n, item, moves), item)
    ensures Spreading(After(n, item, moves), item, links)
    decreases |moves|
  {
    hide Spreading, SentOnce, Next, Smooth, InTime;
    if moves != [] {
      var most := moves[..|moves| - 1];
      assert forall m :: m in most ==> m in moves;
      assert moves[|moves| - 1] in moves;
      SinceStays(After(n, item, most), item, moves[|moves| - 1]);
      EveryRunSpreads(n, item, most, links);
      EveryRunSendsOnce(n, item, most);
      SpreadStep(After(n, item, most), item, moves[|moves| - 1], links);
    }
  }

  // When nothing was dropped and nothing is on its way any more, the nodes that have had the message
  // are closed under connected friends.
  lemma EveryFriendHadIt(n: Net, item: Item, o: Peer, now: int, links: set<Link>, moves: seq<Move>, v: Peer, w: Peer)
    requires Fresh(n, item) && o in n.nodes && forall m :: m in moves ==> Smooth(m, item, links)
    requires var r := After(Posted(n, item, o, now, Neighbours(links, o)), item, moves);
             r.flight == multiset{} && InTime(r, item)
    ensures var r := After(Posted(n, item, o, now, Neighbours(links, o)), item, moves);
            Had(r, v) && v in r.nodes && w in r.nodes[v].friends && (v, w) in links && w in r.nodes ==> Had(r, w)
  {
    var p := Posted(n, item, o, now, Neighbours(links, o));
    PostedSentOnce(n, item, o, now, Neighbours(links, o));
    PostedSpreading(n, item, o, now, links);
    EveryRunSpreads(p, item, moves, links);
    assert Covered(After(p, item, moves), links, v, w);
  }

  // Nodes stay in the lobby, have had what they had, and keep their friends.
  lemma {:induction false} NothingIsLost(n: Net, item: Item, moves: seq<Move>, v: Peer)
    requires v in n.nodes
    ensures var r := After(n, item, moves);
            v in r.nodes && n.nodes[v].friends <= r.nodes[v].friends && (Had(n, v) ==> Had(r, v))
    decreases |moves|
  {
    if moves != [] {
      NothingIsLost(n, item, moves[..|moves| - 1], v);
      hide After, Links, Targets;
    }
  }

  // Each peer on the chain is a friend of the one before and connected to it.
  ghost predicate Chain(n: Net, links: set<Link>, path: seq<Peer>) {
    && (forall i :: 0 <= i < |path| ==> path[i] in n.nodes)
    && (forall i :: 0 < i < |path| ==> path[i] in n.nodes[path[i - 1]].friends && (path[i - 1], path[i]) in links)
  }

  // So everyone at the end of a chain of connected friends from the poster has had the message.
  lemma {:induction false} ReachesChain(n: Net, item: Item, o: Peer, now: int, links: set<Link>,
                                        moves: seq<Move>, path: seq<Peer>)
    requires Fresh(n, item) && o in n.nodes && forall m :: m in moves ==> Smooth(m, item, links)
    requires var r := After(Posted(n, item, o, now, Neighbours(links, o)), item, moves);
             r.flight == multiset{} && InTime(r, item)
    requires path != [] && path[0] == o && Chain(n, links, path)
    ensures Had(After(Posted(n, item, o, now, Neighbours(links, o)), item, moves), path[|path| - 1])
    decreases |path|
  {
    hide Fresh, After, Smooth, InTime;
    var p := Posted(n, item, o, now, Neighbours(links, o));
    if |path| == 1 {
      NothingIsLost(p, item, moves, o);
    } else {
      var most := path[..|path| - 1];
      var v, w := path[|path| - 2], path[|path| - 1];
      assert most[|most| - 1] == v;
      ReachesChain(n, item, o, now, links, moves, most);
      NothingIsLost(p, item, moves, v);
      NothingIsLost(p, item, moves, w);
      EveryFriendHadIt(n, item, o, now, links, moves, v, w);
    }
  }
}
