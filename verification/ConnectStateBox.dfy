// The connection state of one peer: which kind of connection to request next, and when.
module ConnectStateBox {

  const FAILED_WAIT_TIME := 1800
  const TCP_WAIT_TIME := 60
  const DIRECT_MAX_WAIT_TIME := 60
  const PROXY_BASE_WAIT_TIME := 30
  const PROXY_MAX_WAIT_TIME := 120
  const RELAY_MAX_WAIT_TIME := 60
  const REVERSE_WAIT_TIME := 300

  const MAX_DIRECT_ATTEMPTS := 5
  const MAX_PROXY_ATTEMPTS := 10
  const MAX_RELAY_ATTEMPTS := 5

  const MAX_DIRECT_FAILED_ATTEMPTS := 3
  const MAX_PROXY_FAILED_ATTEMPTS := 3
  const MAX_RELAY_FAILED_ATTEMPTS := 3

  datatype State =
    | Start | TcpWait | DirectAttempt | DirectWait | ProxyAttempt | ProxyWait
    | RelayAttempt | RelayWait | ReverseWait | FailedWait | Connected

  datatype NetState = NetUnknown | Forward | StableNat | ExclusiveNat | Firewalled

  datatype NetMode = ModeUnknown | Restarting | Offline | LocalNet | BehindNat | ExternalIp
  datatype NatHole = HoleUnknown | HoleNone | Upnp | NatPmp | Forwarded
  datatype NatType = TypeNone | TypeUnknown | Symmetric | DetermSym | RestrictedCone | FullCone | OtherType

  // The numbers that stand for the states, as far as they are compared across kinds.
  function StateCode(s: State): nat {
    match s
    case Start => 1
    case TcpWait => 2
    case DirectAttempt => 3
    case DirectWait => 4
    case ProxyAttempt => 5
    case ProxyWait => 6
    case RelayAttempt => 7
    case RelayWait => 8
    case ReverseWait => 9
    case FailedWait => 10
    case Connected => 11
  }

  function NetStateCode(n: NetState): nat {
    match n
    case NetUnknown => 0
    case Forward => 1
    case StableNat => 2
    case ExclusiveNat => 3
    case Firewalled => 4
  }

  // What the caller is to do next. Requests also say whether to use the proxy port.
  datatype Action =
    | Wait
    | TcpConn
    | DirectConn(proxyPort: bool)
    | ProxyConn(proxyPort: bool)
    | RelayConn(proxyPort: bool)

  datatype Update = NoUpdate | NowConnected | Disconnected | AuthDenied | RetryAttempt | FailedAttempt | ModeUnavailable

  datatype Network = Network(mode: NetMode, hole: NatHole, natType: NatType)

  function ConvertNetState(n: Network): NetState {
    if n.mode == ExternalIp then Forward
    else if n.hole != HoleUnknown && n.hole != HoleNone then Forward
    else if n.mode == BehindNat then
      if n.natType == RestrictedCone || n.natType == FullCone then StableNat
      else if n.natType == DetermSym then ExclusiveNat
      else Firewalled
    else NetUnknown
  }

  function ShouldUseProxyPort(n: NetState): bool {
    n != Forward
  }

  // ---- The box as a value ----

  datatype Box = Box(state: State, net: NetState, since: int, attempts: nat, failed: nat, next: int, length: int)

  function InitialBox(now: int): Box {
    Box(Start, NetUnknown, now, 0, 0, now, 0)
  }

  function Attempting(s: State): bool {
    s == DirectAttempt || s == ProxyAttempt || s == RelayAttempt
  }

  // A fresh start, counters cleared.
  function Restart(b: Box, now: int): Box {
    b.(state := TcpWait, since := now, attempts := 0, failed := 0, next := now + TCP_WAIT_TIME)
  }

  function GiveUp(b: Box, now: int): Box {
    b.(state := FailedWait, since := now, attempts := 0, failed := 0, next := now + FAILED_WAIT_TIME)
  }

  function First(b: Box, s: State, now: int): Box {
    b.(state := s, since := now, attempts := 0, failed := 0)
  }

  function Again(b: Box, s: State, now: int): Box {
    b.(state := s, since := now, attempts := b.attempts + 1)
  }

  // A peer that can be reached directly is tried directly.
  function Direct(b: Box, now: int): (Box, Action) {
    match b.state
    case DirectAttempt => (b, Wait)
    case ProxyAttempt => (b, Wait)
    case RelayAttempt => (b, Wait)
    case Connected => (b, Wait)
    case FailedWait => if b.next > now then (b, Wait) else (Restart(b, now), TcpConn)
    case TcpWait => if b.next > now then (b, Wait) else (First(b, DirectAttempt, now), DirectConn(false))
    case DirectWait =>
      if b.next > now then (b, Wait)
      else if b.attempts >= MAX_DIRECT_ATTEMPTS || b.failed >= MAX_DIRECT_FAILED_ATTEMPTS then (GiveUp(b, now), Wait)
      else (Again(b, DirectAttempt, now), DirectConn(false))
    case _ => (Restart(b, now), TcpConn)
  }

  // Any other peer is tried through proxies first, then through relays. A box that waited for TCP
  // always goes on to proxies, whatever its network state.
  function Unreachable(b: Box, now: int): (Box, Action) {
    match b.state
    case DirectAttempt => (b, Wait)
    case ProxyAttempt => (b, Wait)
    case RelayAttempt => (b, Wait)
    case Connected => (b, Wait)
    case FailedWait => if b.next > now then (b, Wait) else (Restart(b, now), Wait)
    case TcpWait => if b.next > now then (b, Wait)
      else (First(b, ProxyAttempt, now), ProxyConn(ShouldUseProxyPort(b.net)))
    case ProxyWait =>
      if b.next > now then (b, Wait)
      else if b.attempts >= MAX_PROXY_ATTEMPTS || b.failed >= MAX_PROXY_FAILED_ATTEMPTS then
        (First(b, RelayAttempt, now), RelayConn(false))
      else (Again(b, ProxyAttempt, now), ProxyConn(ShouldUseProxyPort(b.net)))
    case ReverseWait => if b.next > now then (b, Wait) else (First(b, RelayAttempt, now), RelayConn(false))
    case RelayWait =>
      if b.next > now then (b, Wait)
      else if b.attempts >= MAX_RELAY_ATTEMPTS || b.failed >= MAX_RELAY_FAILED_ATTEMPTS then (GiveUp(b, now), Wait)
      else (Again(b, RelayAttempt, now), RelayConn(false))
    case _ => (Restart(b, now), Wait)
  }

  // The waiting state after an attempt that may be repeated; a proxy is not tried again for at least
  // half a minute.
  function Pause(b: Box, now: int, random: nat): Box {
    match b.state
    case DirectAttempt => b.(state := DirectWait, since := now, next := now + random % DIRECT_MAX_WAIT_TIME)
    case ProxyAttempt =>
      b.(state := ProxyWait, since := now,
         next := now + PROXY_BASE_WAIT_TIME + random % (PROXY_MAX_WAIT_TIME - PROXY_BASE_WAIT_TIME))
    case RelayAttempt => b.(state := RelayWait, since := now, next := now + random % RELAY_MAX_WAIT_TIME)
    case _ => b
  }

  // News of an attempt; the flag says whether it was of use.
  function Updated(b: Box, u: Update, now: int, random: nat): (Box, bool) {
    if u == NowConnected then
      (b.(state := Connected, since := now, length := if Attempting(b.state) then now - b.since else 0), false)
    else if u == Disconnected then
      if b.state == Connected then (b.(state := Start, since := now), true) else (b, false)
    else if !Attempting(b.state) then (b, false)
    else
      match u
      case AuthDenied => (b.(state := FailedWait, since := now, length := 0, next := now + FAILED_WAIT_TIME), true)
      case RetryAttempt => (Pause(b.(length := now - b.since), now, random), true)
      case FailedAttempt => (Pause(b.(failed := b.failed + 1, length := now - b.since), now, random), true)
      case ModeUnavailable =>
        var c := b.(length := now - b.since);
        if b.state == ProxyAttempt then
          if b.net == Forward then (c.(state := ReverseWait, since := now, next := now + REVERSE_WAIT_TIME), true)
          else (c.(state := RelayWait, attempts := 0, since := now, next := now + random % RELAY_MAX_WAIT_TIME), true)
        else (c.(state := FailedWait, since := now, next := now + FAILED_WAIT_TIME), false)
      case _ => (b, false)
  }

  // ---- Runs ----

  datatype Event =
    | Call(direct: bool, network: Network, at: int)
    | News(update: Update, at: int, random: nat)

  function Step(b: Box, e: Event): (Box, Action) {
    match e
    case Call(direct, network, now) =>
      var c := b.(net := ConvertNetState(network));
      if direct then Direct(c, now) else Unreachable(c, now)
    case News(u, now, random) => (Updated(b, u, now, random).0, Wait)
  }

  // The box before the i-th event.
  ghost function BoxAt(b: Box, es: seq<Event>, i: nat): Box
    requires i <= |es|
  {
    if i == 0 then b else Step(BoxAt(b, es, i - 1), es[i - 1]).0
  }

  ghost function ActionAt(b: Box, es: seq<Event>, i: nat): Action
    requires i < |es|
  {
    Step(BoxAt(b, es, i), es[i]).1
  }

  ghost predicate Monotone(es: seq<Event>) {
    forall i, j :: 0 <= i <= j < |es| ==> es[i].at <= es[j].at
  }

  // ---- Which request a step makes ----

  // A direct call that brings the box into TcpWait asks for TCP, and nothing else does. Each other
  // request is made exactly when the box enters the attempt it stands for.
  lemma RequestIffEntered(b: Box, e: Event)
    ensures var (c, a) := Step(b, e);
            && (a == TcpConn <==> e.Call? && e.direct && b.state != TcpWait && c.state == TcpWait)
            && (a.DirectConn? <==> b.state != DirectAttempt && c.state == DirectAttempt)
            && (a.ProxyConn? <==> b.state != ProxyAttempt && c.state == ProxyAttempt)
            && (a.RelayConn? <==> b.state != RelayAttempt && c.state == RelayAttempt)
            && (b.state != TcpWait && c.state == TcpWait ==> c.next == e.at + 60 && c.attempts == 0 && c.failed == 0)
  {
    hide ConvertNetState, ShouldUseProxyPort;
  }

  // A box whose pause is over tries again in the same way exactly while it has attempts left and
  // fewer than three of them failed.
  lemma AgainIff(b: Box, direct: bool, n: Network, now: int)
    requires b.next <= now
    ensures var (c, a) := Step(b, Call(direct, n, now));
            var tired := b.failed >= 3;
            && (direct && b.state == DirectWait ==>
                  if b.attempts >= 5 || tired then c.state == FailedWait else a == DirectConn(false))
            && (!direct && b.state == ProxyWait ==>
                  if b.attempts >= 10 || tired then a == RelayConn(false) else a.ProxyConn?)
            && (!direct && b.state == RelayWait ==>
                  if b.attempts >= 5 || tired then c.state == FailedWait else a == RelayConn(false))
            && (direct && b.state == TcpWait ==> a == DirectConn(false))
            && (!direct && b.state == TcpWait ==> a.ProxyConn?)
            && (!direct && b.state == ReverseWait ==> a == RelayConn(false))
  {
    hide ConvertNetState, ShouldUseProxyPort;
  }

  // The pauses after an attempt that may be repeated take every length from 0 to 59 seconds, with
  // proxies from 30 to 119.
  lemma PauseIff(b: Box, u: Update, now: int, t: int)
    requires Attempting(b.state) && (u == RetryAttempt || u == FailedAttempt)
    ensures (exists random :: Step(b, News(u, now, random)).0.next == t) <==>
              if b.state == ProxyAttempt then now + 30 <= t < now + 120 else now <= t < now + 60
  {
    var base := if b.state == ProxyAttempt then 30 else 0;
    if t >= now + base {
      var random := t - now - base;
      if random < 60 || (b.state == ProxyAttempt && random < 90) {
        assert Step(b, News(u, now, random)).0.next == t;
      }
    }
  }

  // What makes a box fail.
  lemma FailsIff(b: Box, e: Event)
    requires b.state != FailedWait
    ensures Step(b, e).0.state == FailedWait <==>
              if e.Call? then
                && b.next <= e.at && (b.attempts >= 5 || b.failed >= 3)
                && b.state == (if e.direct then DirectWait else RelayWait)
              else
                && Attempting(b.state)
                && (e.update == AuthDenied || (e.update == ModeUnavailable && b.state != ProxyAttempt))
  {
    hide ConvertNetState, ShouldUseProxyPort;
  }

  // A box is connected from the news of a connection until the news that it has ended, and then
  // starts afresh, whatever calls come in between.
  lemma ConnectedIff(b: Box, e: Event)
    ensures var c := Step(b, e).0;
            && (c.state == Connected <==>
                  (e.News? && e.update == NowConnected)
                  || (b.state == Connected && !(e.News? && e.update == Disconnected)))
            && (b.state == Connected && c.state != Connected ==> c.state == Start)
            && (b.state == Connected ==> Step(b, e).1 == Wait)
  {
    hide ConvertNetState, ShouldUseProxyPort;
  }

  // ---- TCP before any direct request ----

  ghost predicate OnlyDirect(es: seq<Event>) {
    forall e :: e in es ==> e.Call? ==> e.direct
  }

  predicate OnTheWay(s: State) {
    s == TcpWait || s == DirectAttempt || s == DirectWait
  }

  // TCP was asked for at i, the box has gone on from there without failing, and a minute has passed
  // when it is past TcpWait.
  ghost predicate TcpTried(b: Box, es: seq<Event>, i: nat, j: nat)
    requires i < j <= |es|
  {
    && ActionAt(b, es, i) == TcpConn
    && (forall k :: i < k <= j ==> OnTheWay(BoxAt(b, es, k).state))
    && (if BoxAt(b, es, j).state == TcpWait then BoxAt(b, es, j).next == es[i].at + 60
        else es[j - 1].at >= es[i].at + 60)
  }

  predicate OnlyDirectStates(s: State) {
    s == Start || s == FailedWait || s == Connected || OnTheWay(s)
  }

  lemma WayStep(b: Box, e: Event)
    requires OnlyDirectStates(b.state) && (e.Call? ==> e.direct)
    ensures var (c, a) := Step(b, e);
            && OnlyDirectStates(c.state)
            && (OnTheWay(c.state) && !OnTheWay(b.state) ==> a == TcpConn && c.state == TcpWait)
            && (b.state != TcpWait && c.state == TcpWait ==> c.next == e.at + 60)
            && (b.state == TcpWait && c.state == TcpWait ==> c.next == b.next)
            && (b.state == TcpWait && OnTheWay(c.state) && c.state != TcpWait ==> b.next <= e.at)
            && (OnTheWay(b.state) && b.state != TcpWait ==> c.state != TcpWait)
  {
    hide ConvertNetState;
  }

  lemma WayFurther(b: Box, es: seq<Event>, i: nat, j: nat)
    requires i < j < |es| && Monotone(es) && TcpTried(b, es, i, j) && (es[j].Call? ==> es[j].direct)
    requires OnTheWay(BoxAt(b, es, j + 1).state)
    ensures TcpTried(b, es, i, j + 1)
  {
    hide Step, BoxAt, OnTheWay, OnlyDirectStates;
    assert OnlyDirectStates(BoxAt(b, es, j).state) by { WayStates(BoxAt(b, es, j).state); }
    NextBox(b, es, j);
    WayStep(BoxAt(b, es, j), es[j]);
    assert es[j - 1].at <= es[j].at;
  }

  lemma WayStates(s: State)
    ensures OnTheWay(s) ==> OnlyDirectStates(s)
    ensures !OnTheWay(Start) && OnlyDirectStates(Start) && OnTheWay(TcpWait)
  {}

  lemma WayBegins(b: Box, es: seq<Event>, j: nat)
    requires j < |es| && OnlyDirectStates(BoxAt(b, es, j).state) && (es[j].Call? ==> es[j].direct)
    requires OnTheWay(BoxAt(b, es, j + 1).state) && !OnTheWay(BoxAt(b, es, j).state)
    ensures TcpTried(b, es, j, j + 1)
  {
    hide Step, BoxAt, OnTheWay, OnlyDirectStates;
    WayStates(BoxAt(b, es, j).state);
    NextBox(b, es, j);
    WayStep(BoxAt(b, es, j), es[j]);
  }

  lemma {:induction false} WayFrom(now: int, es: seq<Event>, j: nat) returns (i: nat)
    requires OnlyDirect(es) && Monotone(es) && j <= |es|
    ensures OnlyDirectStates(BoxAt(InitialBox(now), es, j).state)
    ensures OnTheWay(BoxAt(InitialBox(now), es, j).state) ==> i < j && TcpTried(InitialBox(now), es, i, j)
  {
    hide Step, OnTheWay, OnlyDirectStates, TcpTried, Monotone;
    WayStates(Start);
    i := 0;
    if j > 0 {
      i := WayFrom(now, es, j - 1);
      var b := InitialBox(now);
      assert es[j - 1] in es;
      WayStep(BoxAt(b, es, j - 1), es[j - 1]);
      if OnTheWay(BoxAt(b, es, j).state) {
        if OnTheWay(BoxAt(b, es, j - 1).state) {
          WayFurther(b, es, i, j - 1);
        } else {
          i := j - 1;
          WayBegins(b, es, i);
        }
      }
    }
  }

  // Every direct request of a run of direct calls comes at least a minute after a TCP request, with
  // no failure and no connection between the two.
  lemma TcpFirst(now: int, es: seq<Event>, j: nat) returns (i: nat)
    requires OnlyDirect(es) && Monotone(es) && j < |es| && ActionAt(InitialBox(now), es, j).DirectConn?
    ensures i < j && ActionAt(InitialBox(now), es, i) == TcpConn && es[j].at >= es[i].at + 60
    ensures forall k :: i < k <= j ==>
              var s := BoxAt(InitialBox(now), es, k).state; s == TcpWait || s == DirectAttempt || s == DirectWait
  {
    var b := BoxAt(InitialBox(now), es, j);
    i := WayFrom(now, es, j);
    DirectFrom(b, es[j]);
  }

  lemma DirectFrom(b: Box, e: Event)
    requires Step(b, e).1.DirectConn?
    ensures OnTheWay(b.state) && (b.state == TcpWait ==> b.next <= e.at)
  {
    hide ConvertNetState, ShouldUseProxyPort;
  }

  // ---- What the network is good for ----

  // Reachable from outside.
  predicate Open(n: Network) {
    n.mode == ExternalIp || n.hole == Upnp || n.hole == NatPmp || n.hole == Forwarded
  }

  lemma KindsOfNetwork(n: Network)
    ensures ConvertNetState(n) == Forward <==> Open(n)
    ensures ConvertNetState(n) == NetUnknown <==> !Open(n) && n.mode != BehindNat
    ensures ConvertNetState(n) == StableNat <==>
              !Open(n) && n.mode == BehindNat && (n.natType == RestrictedCone || n.natType == FullCone)
    ensures ConvertNetState(n) == ExclusiveNat <==> !Open(n) && n.mode == BehindNat && n.natType == DetermSym
  {}

  // A proxy request uses the proxy port exactly when the network of the call is not open.
  lemma ProxyPortIff(b: Box, e: Event)
    requires Step(b, e).1.ProxyConn?
    ensures e.Call? && (Step(b, e).1.proxyPort <==> !Open(e.network))
  {}

  // Two events that differ at most in the network, which is open in both or in neither.
  predicate Alike(e: Event, f: Event) {
    e == f || (e.Call? && f.Call? && f == e.(network := f.network) && Open(e.network) == Open(f.network))
  }

  // Two boxes that differ at most in the kind of a network that is not open.
  predicate Same(b: Box, c: Box) {
    c == b.(net := c.net) && (b.net == Forward <==> c.net == Forward)
  }

  lemma SameDirect(b: Box, c: Box, now: int)
    requires Same(b, c)
    ensures Same(Direct(b, now).0, Direct(c, now).0) && Direct(b, now).1 == Direct(c, now).1
  {}

  lemma SameUnreachable(b: Box, c: Box, now: int)
    requires Same(b, c)
    ensures Same(Unreachable(b, now).0, Unreachable(c, now).0) && Unreachable(b, now).1 == Unreachable(c, now).1
  {}

  lemma SameUpdated(b: Box, c: Box, u: Update, now: int, random: nat)
    requires Same(b, c)
    ensures Same(Updated(b, u, now, random).0, Updated(c, u, now, random).0)
  {}

  lemma SameStep(b: Box, c: Box, e: Event, f: Event)
    requires Same(b, c) && Alike(e, f)
    ensures Same(Step(b, e).0, Step(c, f).0) && Step(b, e).1 == Step(c, f).1
  {
    hide ConvertNetState, Open, Direct, Unreachable, Updated;
    match e
    case Call(direct, n, now) =>
      KindsOfNetwork(n);
      KindsOfNetwork(f.network);
      var b', c' := b.(net := ConvertNetState(n)), c.(net := ConvertNetState(f.network));
      SameDirect(b', c', now);
      SameUnreachable(b', c', now);
    case News(u, now, random) =>
      SameUpdated(b, c, u, now, random);
  }

  // All that matters of a network is whether it is open: a firewalled peer is treated like one behind
  // any other translator, in every run.
  lemma {:induction false} OnlyOpenMatters(b: Box, es: seq<Event>, fs: seq<Event>, i: nat)
    requires |es| == |fs| && i <= |es| && forall k :: 0 <= k < |es| ==> Alike(es[k], fs[k])
    ensures Same(BoxAt(b, es, i), BoxAt(b, fs, i))
    ensures i < |es| ==> ActionAt(b, es, i) == ActionAt(b, fs, i)
  {
    hide Step, Same, Alike;
    if i > 0 { OnlyOpenMatters(b, es, fs, i - 1); }
    SameBox(b);
    var c, d := BoxAt(b, es, i), BoxAt(b, fs, i);
    if i > 0 { SameStep(BoxAt(b, es, i - 1), BoxAt(b, fs, i - 1), es[i - 1], fs[i - 1]); }
    if i < |es| { SameStep(c, d, es[i], fs[i]); }
  }

  lemma SameBox(b: Box)
    ensures Same(b, b)
  {}

  // When a proxy is out of the question, the box waits five minutes for the peer to come by itself
  // exactly when the network of the last call was open; otherwise it goes on to relays.
  lemma {:induction false} ReverseIffOpen(b: Box, es: seq<Event>, i: nat, j: nat)
    requires i < j < |es| && es[i].Call? && forall k :: i < k < j ==> es[k].News?
    requires es[j].News? && es[j].update == ModeUnavailable && BoxAt(b, es, j).state == ProxyAttempt
    ensures var c := BoxAt(b, es, j + 1);
            if Open(es[i].network) then c.state == ReverseWait && c.next == es[j].at + 300
            else c.state == RelayWait && es[j].at <= c.next < es[j].at + 60
  {
    NetOfLastCall(b, es, i, j);
    KindsOfNetwork(es[i].network);
    hide ConvertNetState, Open, BoxAt;
    assert BoxAt(b, es, j + 1) == Step(BoxAt(b, es, j), es[j]).0 by { NextBox(b, es, j); }
  }

  lemma NextBox(b: Box, es: seq<Event>, j: nat)
    requires j < |es|
    ensures BoxAt(b, es, j + 1) == Step(BoxAt(b, es, j), es[j]).0
  {}

  lemma {:induction false} NetOfLastCall(b: Box, es: seq<Event>, i: nat, j: nat)
    requires i < j <= |es| && es[i].Call? && forall k :: i < k < j ==> es[k].News?
    ensures BoxAt(b, es, j).net == ConvertNetState(es[i].network)
  {
    hide ConvertNetState;
    if j > i + 1 { NetOfLastCall(b, es, i, j - 1); }
  }

  // ---- How long an attempt took ----

  lemma {:induction false} BegunAt(b: Box, es: seq<Event>, i: nat, j: nat)
    requires i < j <= |es| && Request(ActionAt(b, es, i)) && forall k :: i < k < j ==> !Ends(es[k])
    ensures BoxAt(b, es, j).since == es[i].at && Attempting(BoxAt(b, es, j).state)
  {
    hide ConvertNetState, ShouldUseProxyPort;
    if j > i + 1 { BegunAt(b, es, i, j - 1); }
  }

  // The news that ends an attempt records the time since its request, except that a denied
  // authentication records nothing.
  lemma AttemptLength(b: Box, es: seq<Event>, i: nat, j: nat)
    requires i < j < |es| && Request(ActionAt(b, es, i)) && Ends(es[j]) && forall k :: i < k < j ==> !Ends(es[k])
    ensures BoxAt(b, es, j + 1).length == if es[j].update == AuthDenied then 0 else es[j].at - es[i].at
  {
    BegunAt(b, es, i, j);
    NextBox(b, es, j);
    hide BoxAt;
  }

  // News is of use when it changes the state; a connection, and a failure it brings about by an
  // unavailable mode, are not reported.
  lemma UsefulIff(b: Box, u: Update, now: int, random: nat)
    ensures var (c, useful) := Updated(b, u, now, random);
            useful <==> c.state != b.state && u != NowConnected && !(u == ModeUnavailable && c.state == FailedWait)
  {}

  // ---- One request at a time ----

  predicate Request(a: Action) {
    a.DirectConn? || a.ProxyConn? || a.RelayConn?
  }

  // The news that end an attempt.
  predicate Ends(e: Event) {
    e.News? && e.update != NoUpdate && e.update != Disconnected
  }

  lemma {:induction false} AttemptGoesOn(b: Box, es: seq<Event>, i: nat, j: nat)
    requires i < j <= |es| && Request(ActionAt(b, es, i)) && forall k :: i < k < j ==> !Ends(es[k])
    ensures Attempting(BoxAt(b, es, j).state)
  {
    if j > i + 1 { AttemptGoesOn(b, es, i, j - 1); }
  }

  // Between two requests there is news that ends the first attempt.
  lemma NoRequestWhileOneIsOut(b: Box, es: seq<Event>, i: nat, j: nat)
    requires i < j < |es| && Request(ActionAt(b, es, i)) && Request(ActionAt(b, es, j))
    ensures exists k :: i < k < j && Ends(es[k])
  {
    if forall k :: i < k < j ==> !Ends(es[k]) { AttemptGoesOn(b, es, i, j); }
  }

  // ---- Proxy requests are half a minute apart ----

  ghost predicate ProxyHeldUntil(b: Box, t: int) {
    b.state == TcpWait || b.state == ProxyWait ==> b.next >= t
  }

  lemma ProxyTimerStep(b: Box, e: Event, t: int)
    requires ProxyHeldUntil(b, t + PROXY_BASE_WAIT_TIME) && e.at >= t
    ensures ProxyHeldUntil(Step(b, e).0, t + PROXY_BASE_WAIT_TIME)
  {
    hide ConvertNetState, ShouldUseProxyPort;
  }

  lemma ProxyTimerStarts(b: Box, e: Event)
    requires Step(b, e).1.ProxyConn?
    ensures Step(b, e).0.state == ProxyAttempt
  {
    hide ConvertNetState, ShouldUseProxyPort;
  }

  lemma {:induction false} ProxyTimer(b: Box, es: seq<Event>, i: nat, j: nat)
    requires i < j <= |es| && Monotone(es) && ActionAt(b, es, i).ProxyConn?
    ensures ProxyHeldUntil(BoxAt(b, es, j), es[i].at + PROXY_BASE_WAIT_TIME)
  {
    hide Step;
    if j > i + 1 {
      ProxyTimer(b, es, i, j - 1);
      ProxyTimerStep(BoxAt(b, es, j - 1), es[j - 1], es[i].at);
    } else {
      ProxyTimerStarts(BoxAt(b, es, i), es[i]);
    }
  }

  lemma ProxyRequestsApart(b: Box, es: seq<Event>, i: nat, j: nat)
    requires i < j < |es| && Monotone(es) && ActionAt(b, es, i).ProxyConn? && ActionAt(b, es, j).ProxyConn?
    ensures es[j].at >= es[i].at + 30
  {
    ProxyTimer(b, es, i, j);
  }

  // ---- Quiet after a failure ----

  predicate ConnectsByItself(e: Event) {
    e.News? && e.update == NowConnected
  }

  lemma FailureStep(b: Box, e: Event)
    requires b.state == FailedWait && e.at < b.next && !ConnectsByItself(e)
    ensures var c := Step(b, e).0; c.state == FailedWait && c.next == b.next && Step(b, e).1 == Wait
  {}

  lemma FailureStarts(b: Box, e: Event)
    requires b.state != FailedWait && Step(b, e).0.state == FailedWait
    ensures Step(b, e).0.next == e.at + FAILED_WAIT_TIME
  {}

  lemma {:induction false} FailureTimer(b: Box, es: seq<Event>, i: nat, j: nat)
    requires i < j <= |es| && BoxAt(b, es, i).state != FailedWait && BoxAt(b, es, i + 1).state == FailedWait
    requires forall k :: i < k < j ==> es[k].at < es[i].at + FAILED_WAIT_TIME && !ConnectsByItself(es[k])
    ensures BoxAt(b, es, j).state == FailedWait && BoxAt(b, es, j).next == es[i].at + FAILED_WAIT_TIME
  {
    hide Step;
    if j > i + 1 {
      FailureTimer(b, es, i, j - 1);
      FailureStep(BoxAt(b, es, j - 1), es[j - 1]);
    } else {
      FailureStarts(BoxAt(b, es, i), es[i]);
    }
  }

  // Until half an hour after a failure nothing is asked for, unless the peer connects by itself.
  lemma QuietAfterFailure(b: Box, es: seq<Event>, i: nat, j: nat)
    requires i < j < |es| && BoxAt(b, es, i).state != FailedWait && BoxAt(b, es, i + 1).state == FailedWait
    requires forall k :: i < k <= j ==> es[k].at < es[i].at + 1800 && !ConnectsByItself(es[k])
    ensures ActionAt(b, es, j) == Wait
  {
    hide Step;
    FailureTimer(b, es, i, j);
    FailureStep(BoxAt(b, es, j), es[j]);
  }

  // ---- The counters stay small ----

  ghost predicate CountersBounded(b: Box) {
    && b.failed <= 3 && b.attempts <= 10
    && (Attempting(b.state) ==> b.failed <= 2)
    && (b.state == DirectAttempt || b.state == DirectWait || b.state == RelayAttempt || b.state == RelayWait ==>
          b.attempts <= 5)
  }

  lemma {:induction false} CountersStayBounded(b: Box, es: seq<Event>, i: nat)
    requires CountersBounded(b) && i <= |es|
    ensures CountersBounded(BoxAt(b, es, i))
  {
    if i > 0 {
      CountersStayBounded(b, es, i - 1);
      CountersStep(BoxAt(b, es, i - 1), es[i - 1]);
      hide Step, CountersBounded;
    }
  }

  lemma CountersStep(b: Box, e: Event)
    requires CountersBounded(b)
    ensures CountersBounded(Step(b, e).0)
  {}

  // ---- How many requests a round takes ----

  predicate Quiet(e: Event) {
    e.News? && e.update != NowConnected && e.update != Disconnected
  }

  // Only calls of one kind, and no news of a connection.
  predicate OnlyCalls(es: seq<Event>, direct: bool) {
    forall e :: e in es ==> Quiet(e) || (e.Call? && e.direct == direct)
  }

  // No event but the last makes the box fail anew.
  ghost predicate OneRound(b: Box, es: seq<Event>)
    decreases |es|
  {
    |es| <= 1 || (var c := Step(b, es[0]).0; (c.state == FailedWait ==> b.state == FailedWait) && OneRound(c, es[1..]))
  }

  function One(c: bool): nat {
    if c then 1 else 0
  }

  ghost function Proxies(b: Box, es: seq<Event>): nat
    decreases |es|
  {
    if es == [] then 0 else One(Step(b, es[0]).1.ProxyConn?) + Proxies(Step(b, es[0]).0, es[1..])
  }

  ghost function Relays(b: Box, es: seq<Event>): nat
    decreases |es|
  {
    if es == [] then 0 else One(Step(b, es[0]).1.RelayConn?) + Relays(Step(b, es[0]).0, es[1..])
  }

  ghost function Directs(b: Box, es: seq<Event>): nat
    decreases |es|
  {
    if es == [] then 0 else One(Step(b, es[0]).1.DirectConn?) + Directs(Step(b, es[0]).0, es[1..])
  }

  function Left(attempts: nat, most: nat): nat {
    if attempts >= most then 0 else most - attempts
  }

  // What a box can still request before it fails.
  function ProxiesLeft(b: Box): nat {
    match b.state
    case ProxyAttempt => Left(b.attempts, MAX_PROXY_ATTEMPTS)
    case ProxyWait => Left(b.attempts, MAX_PROXY_ATTEMPTS)
    case RelayAttempt => 0
    case RelayWait => 0
    case ReverseWait => 0
    case _ => MAX_PROXY_ATTEMPTS + 1
  }

  function RelaysLeft(b: Box): nat {
    match b.state
    case RelayAttempt => Left(b.attempts, MAX_RELAY_ATTEMPTS)
    case RelayWait => Left(b.attempts, MAX_RELAY_ATTEMPTS)
    case _ => MAX_RELAY_ATTEMPTS + 1
  }

  function DirectsLeft(b: Box): nat {
    match b.state
    case DirectAttempt => Left(b.attempts, MAX_DIRECT_ATTEMPTS)
    case DirectWait => Left(b.attempts, MAX_DIRECT_ATTEMPTS)
    case _ => MAX_DIRECT_ATTEMPTS + 1
  }

  lemma UnreachableStep(b: Box, e: Event)
    requires Quiet(e) || (e.Call? && !e.direct)
    ensures var (c, a) := Step(b, e);
            && (c.state != FailedWait || b.state == FailedWait ==>
                 One(a.ProxyConn?) + ProxiesLeft(c) <= ProxiesLeft(b)
                   && One(a.RelayConn?) + RelaysLeft(c) <= RelaysLeft(b))
            && (c.state == FailedWait ==> !Request(a))
  {
    hide ConvertNetState, ShouldUseProxyPort;
  }

  lemma DirectStep(b: Box, e: Event)
    requires Quiet(e) || (e.Call? && e.direct)
    ensures var (c, a) := Step(b, e);
            && (c.state != FailedWait || b.state == FailedWait ==>
                  One(a.DirectConn?) + DirectsLeft(c) <= DirectsLeft(b))
            && (c.state == FailedWait ==> !Request(a))
  {
    hide ConvertNetState, ShouldUseProxyPort;
  }

  // A round of a peer that cannot be reached directly takes at most 11 proxy and 6 relay requests.
  lemma {:induction false} UnreachableRound(b: Box, es: seq<Event>)
    requires OnlyCalls(es, false) && OneRound(b, es)
    ensures Proxies(b, es) <= ProxiesLeft(b) <= 11 && Relays(b, es) <= RelaysLeft(b) <= 6
    decreases |es|
  {
    hide Step, Quiet;
    if es != [] {
      UnreachableStep(b, es[0]);
      UnreachableRound(Step(b, es[0]).0, es[1..]);
    }
  }

  // A round of a peer that is always reached directly takes at most 6 direct requests.
  lemma {:induction false} DirectRound(b: Box, es: seq<Event>)
    requires OnlyCalls(es, true) && OneRound(b, es)
    ensures Directs(b, es) <= DirectsLeft(b) <= 6
    decreases |es|
  {
    hide Step, Quiet;
    if es != [] {
      DirectStep(b, es[0]);
      DirectRound(Step(b, es[0]).0, es[1..]);
    }
  }

  // ---- The bounds are reached ----

  const ANYWHERE := Network(ModeUnknown, HoleUnknown, TypeUnknown)

  // k failed attempts, each followed by a call when the pause is over.
  function Retries(k: nat, t: int, pause: int): seq<Event> {
    if k == 0 then []
      else [News(RetryAttempt, t, 0), Call(false, ANYWHERE, t + pause)] + Retries(k - 1, t + pause, pause)
  }

  lemma TwoEvents(b: Box, e: Event, f: Event, rest: seq<Event>)
    ensures var c := Step(b, e).0; var d := Step(c, f).0;
            && Proxies(b, [e, f] + rest) ==
                 One(Step(b, e).1.ProxyConn?) + One(Step(c, f).1.ProxyConn?) + Proxies(d, rest)
            && Relays(b, [e, f] + rest) == One(Step(b, e).1.RelayConn?) + One(Step(c, f).1.RelayConn?) + Relays(d, rest)
            && (c.state != FailedWait && d.state != FailedWait && OneRound(d, rest) ==> OneRound(b, [e, f] + rest))
  {
    hide Step;
    var all := [e, f] + rest;
    assert all[1..] == [f] + rest && ([f] + rest)[1..] == rest;
  }

  // The box after k more proxy attempts that could be repeated.
  ghost function AfterRetries(b: Box, k: nat, t: int): Box
    decreases k
  {
    if k == 0 then b
    else AfterRetries(Step(Step(b, News(RetryAttempt, t, 0)).0, Call(false, ANYWHERE, t + PROXY_BASE_WAIT_TIME)).0,
                      k - 1, t + PROXY_BASE_WAIT_TIME)
  }

  lemma ProxyRetry(b: Box, t: int)
    requires b.state == ProxyAttempt && b.attempts < MAX_PROXY_ATTEMPTS && b.failed == 0
    ensures var c := Step(b, News(RetryAttempt, t, 0)).0;
            var (d, a) := Step(c, Call(false, ANYWHERE, t + PROXY_BASE_WAIT_TIME));
            && Step(b, News(RetryAttempt, t, 0)).1 == Wait && a.ProxyConn?
            && c.state == ProxyWait && d.state == ProxyAttempt && d.attempts == b.attempts + 1 && d.failed == 0
  {}

  lemma {:induction false} ProxyRetries(b: Box, k: nat, t: int, rest: seq<Event>)
    requires b.state == ProxyAttempt && b.attempts + k <= MAX_PROXY_ATTEMPTS && b.failed == 0
    ensures var c, es := AfterRetries(b, k, t), Retries(k, t, PROXY_BASE_WAIT_TIME) + rest;
            && c.state == ProxyAttempt && c.attempts == b.attempts + k && c.failed == 0
            && Proxies(b, es) == k + Proxies(c, rest) && Relays(b, es) == Relays(c, rest)
            && (OneRound(c, rest) ==> OneRound(b, es))
    decreases k
  {
    hide Step, Proxies, Relays, OneRound;
    if k == 0 {
      assert Retries(0, t, PROXY_BASE_WAIT_TIME) + rest == rest;
    } else {
      var e, f := News(RetryAttempt, t, 0), Call(false, ANYWHERE, t + PROXY_BASE_WAIT_TIME);
      var d := Step(Step(b, e).0, f).0;
      var more := Retries(k - 1, t + PROXY_BASE_WAIT_TIME, PROXY_BASE_WAIT_TIME) + rest;
      assert Retries(k, t, PROXY_BASE_WAIT_TIME) + rest == [e, f] + more;
      TwoEvents(b, e, f, more);
      ProxyRetry(b, t);
      ProxyRetries(d, k - 1, t + PROXY_BASE_WAIT_TIME, rest);
    }
  }

  lemma RelayRetry(b: Box, t: int)
    requires b.state == RelayAttempt && b.attempts < MAX_RELAY_ATTEMPTS && b.failed == 0
    ensures var c := Step(b, News(RetryAttempt, t, 0)).0;
            var (d, a) := Step(c, Call(false, ANYWHERE, t));
            && Step(b, News(RetryAttempt, t, 0)).1 == Wait && a.RelayConn?
            && c.state == RelayWait && d.state == RelayAttempt && d.attempts == b.attempts + 1 && d.failed == 0
  {}

  lemma {:induction false} RelayRetries(b: Box, k: nat, t: int)
    requires b.state == RelayAttempt && b.attempts + k <= MAX_RELAY_ATTEMPTS && b.failed == 0
    ensures Proxies(b, Retries(k, t, 0)) == 0 && Relays(b, Retries(k, t, 0)) == k && OneRound(b, Retries(k, t, 0))
    decreases k
  {
    hide Step;
    if k > 0 {
      RelayRetry(b, t);
      var e, f := News(RetryAttempt, t, 0), Call(false, ANYWHERE, t);
      var d := Step(Step(b, e).0, f).0;
      assert Retries(k, t, 0) == [e, f] + Retries(k - 1, t, 0);
      TwoEvents(b, e, f, Retries(k - 1, t, 0));
      RelayRetries(d, k - 1, t);
    }
  }

  // From the start: a wait, a first proxy request and ten retries, then a relay request and five.
  function LongestRound(t: int): seq<Event> {
    [Call(false, ANYWHERE, t), Call(false, ANYWHERE, t + TCP_WAIT_TIME)]
    + (Retries(10, t + TCP_WAIT_TIME, PROXY_BASE_WAIT_TIME)
       + ([News(RetryAttempt, t + 360, 0), Call(false, ANYWHERE, t + 390)] + Retries(5, t + 390, 0)))
  }

  lemma {:induction false} RetriesCalls(k: nat, t: int, pause: int)
    ensures OnlyCalls(Retries(k, t, pause), false)
  {
    if k > 0 { RetriesCalls(k - 1, t + pause, pause); }
  }

  lemma FirstProxy(t: int)
    ensures var b := InitialBox(t);
            var (c, a) := Step(b, Call(false, ANYWHERE, t));
            var (d, x) := Step(c, Call(false, ANYWHERE, t + TCP_WAIT_TIME));
            a == Wait && x.ProxyConn? && c.state == TcpWait && d.state == ProxyAttempt && d.attempts == 0
              && d.failed == 0
  {}

  lemma FirstRelay(b: Box, t: int)
    requires b.state == ProxyAttempt && b.attempts == MAX_PROXY_ATTEMPTS && b.failed == 0
    ensures var (c, a) := Step(b, News(RetryAttempt, t, 0));
            var (d, x) := Step(c, Call(false, ANYWHERE, t + PROXY_BASE_WAIT_TIME));
            a == Wait && x.RelayConn? && c.state == ProxyWait && d.state == RelayAttempt && d.attempts == 0
              && d.failed == 0
  {}

  lemma BoundsReached(t: int)
    ensures OnlyCalls(LongestRound(t), false) && OneRound(InitialBox(t), LongestRound(t))
    ensures Proxies(InitialBox(t), LongestRound(t)) == 11 && Relays(InitialBox(t), LongestRound(t)) == 6
  {
    hide Step, Proxies, Relays, OneRound, Retries, AfterRetries, InitialBox;
    FirstProxy(t);
    var b := InitialBox(t);
    var e, f := Call(false, ANYWHERE, t), Call(false, ANYWHERE, t + TCP_WAIT_TIME);
    var g, h := News(RetryAttempt, t + 360, 0), Call(false, ANYWHERE, t + 390);
    var last := Retries(5, t + 390, 0);
    var tail := [g, h] + last;
    TwoEvents(b, e, f, Retries(10, t + TCP_WAIT_TIME, PROXY_BASE_WAIT_TIME) + tail);
    var c := Step(Step(b, e).0, f).0;
    ProxyRetries(c, 10, t + TCP_WAIT_TIME, tail);
    var d := AfterRetries(c, 10, t + TCP_WAIT_TIME);
    FirstRelay(d, t + 360);
    TwoEvents(d, g, h, last);
    RelayRetries(Step(Step(d, g).0, h).0, 5, t + 390);
    RetriesCalls(10, t + TCP_WAIT_TIME, PROXY_BASE_WAIT_TIME);
    RetriesCalls(5, t + 390, 0);
  }

  // ---- The box itself ----

  class PeerConnectStateBox {
    var state: State
    var netState: NetState
    var stateTS: int
    var noAttempts: nat
    var noFailedAttempts: nat
    var nextAttemptTS: int
    var attemptLength: int

    function Value(): Box
      reads this
    {
      Box(state, netState, stateTS, noAttempts, noFailedAttempts, nextAttemptTS, attemptLength)
    }

    constructor (now: int)
      ensures Value() == InitialBox(now) && CountersBounded(Value())
    {
      state, netState := Start, NetUnknown;
      stateTS, nextAttemptTS := now, now;
      noAttempts, noFailedAttempts, attemptLength := 0, 0, 0;
    }

    method ConnectCb(direct: bool, network: Network, now: int) returns (action: Action)
      modifies this
      ensures (Value(), action) == Step(old(Value()), Call(direct, network, now))
      ensures old(CountersBounded(Value())) ==> CountersBounded(Value())
    {
      var n := ConvertNetState(network);
      if n != netState { netState := n; }
      if direct {
        action := ConnectDirect(now);
      } else {
        action := ConnectUnreachable(now);
      }
    }

    method ConnectDirect(now: int) returns (action: Action)
      modifies this
      ensures (Value(), action) == Direct(old(Value()), now)
    {
      match state
      case DirectAttempt => action := Wait;
      case ProxyAttempt => action := Wait;
      case RelayAttempt => action := Wait;
      case TcpWait =>
        if nextAttemptTS > now {
          action := Wait;
        } else {
          action := DirectConn(false);
          Begin(DirectAttempt, now);
        }
      case DirectWait =>
        if nextAttemptTS > now {
          action := Wait;
        } else if noAttempts >= MAX_DIRECT_ATTEMPTS || noFailedAttempts >= MAX_DIRECT_FAILED_ATTEMPTS {
          action := Wait;
          Begin(FailedWait, now);
          nextAttemptTS := now + FAILED_WAIT_TIME;
        } else {
          action := DirectConn(false);
          Repeat(DirectAttempt, now);
        }
      case Connected => action := Wait;
      case _ =>
        if state == FailedWait && nextAttemptTS > now { return Wait; }
        action := TcpConn;
        Begin(TcpWait, now);
        nextAttemptTS := now + TCP_WAIT_TIME;
    }

    method ConnectUnreachable(now: int) returns (action: Action)
      modifies this
      ensures (Value(), action) == Unreachable(old(Value()), now)
    {
      var proxyPort := ShouldUseProxyPort(netState);
      match state
      case DirectAttempt => action := Wait;
      case ProxyAttempt => action := Wait;
      case RelayAttempt => action := Wait;
      case TcpWait =>
        if nextAttemptTS > now {
          action := Wait;
        } else {
          // The state is compared where the network state was meant, so this is never so.
          var firewalled := StateCode(state) == NetStateCode(Firewalled);
          action := if firewalled then RelayConn(false) else ProxyConn(proxyPort);
          Begin(if firewalled then RelayAttempt else ProxyAttempt, now);
        }
      case ProxyWait =>
        if nextAttemptTS > now {
          action := Wait;
        } else if noAttempts >= MAX_PROXY_ATTEMPTS || noFailedAttempts >= MAX_PROXY_FAILED_ATTEMPTS {
          action := RelayConn(false);
          Begin(RelayAttempt, now);
        } else {
          action := ProxyConn(proxyPort);
          Repeat(ProxyAttempt, now);
        }
      case ReverseWait =>
        if nextAttemptTS > now {
          action := Wait;
        } else {
          action := RelayConn(false);
          Begin(RelayAttempt, now);
        }
      case RelayWait =>
        if nextAttemptTS > now {
          action := Wait;
        } else if noAttempts >= MAX_RELAY_ATTEMPTS || noFailedAttempts >= MAX_RELAY_FAILED_ATTEMPTS {
          action := Wait;
          Begin(FailedWait, now);
          nextAttemptTS := now + FAILED_WAIT_TIME;
        } else {
          action := RelayConn(false);
          Repeat(RelayAttempt, now);
        }
      case Connected => action := Wait;
      case _ =>
        action := Wait;
        if state == FailedWait && nextAttemptTS > now { return; }
        Begin(TcpWait, now);
        nextAttemptTS := now + TCP_WAIT_TIME;
    }

    method Begin(s: State, now: int)
      modifies this
      ensures Value() == First(old(Value()), s, now)
    {
      state, stateTS, noAttempts, noFailedAttempts := s, now, 0, 0;
    }

    method Repeat(s: State, now: int)
      modifies this
      ensures Value() == Again(old(Value()), s, now)
    {
      state, stateTS, noAttempts := s, now, noAttempts + 1;
    }

    // The random number spreads the repetitions.
    method UpdateCb(update: Update, now: int, random: nat) returns (useful: bool)
      modifies this
      ensures (Value(), useful) == Updated(old(Value()), update, now, random)
      ensures old(CountersBounded(Value())) ==> CountersBounded(Value())
    {
      if update == NowConnected {
        attemptLength := if Attempting(state) then now - stateTS else 0;
        state, stateTS := Connected, now;
        return false;
      }
      if update == Disconnected {
        if state != Connected { return false; }
        state, stateTS := Start, now;
        return true;
      }
      if !Attempting(state) { return false; }
      match update
      case AuthDenied =>
        state, stateTS := FailedWait, now;
        attemptLength := now - stateTS;
        nextAttemptTS := now + FAILED_WAIT_TIME;
        return true;
      case RetryAttempt =>
        attemptLength := now - stateTS;
        SwitchToWait(now, random);
        return true;
      case FailedAttempt =>
        noFailedAttempts := noFailedAttempts + 1;
        attemptLength := now - stateTS;
        SwitchToWait(now, random);
        return true;
      case ModeUnavailable =>
        attemptLength := now - stateTS;
        if state == ProxyAttempt {
          if netState == Forward {
            state, stateTS := ReverseWait, now;
            nextAttemptTS := now + REVERSE_WAIT_TIME;
          } else {
            state, noAttempts, stateTS := RelayWait, 0, now;
            nextAttemptTS := now + random % RELAY_MAX_WAIT_TIME;
          }
          return true;
        }
        state, stateTS := FailedWait, now;
        nextAttemptTS := now + FAILED_WAIT_TIME;
        // The state has just been overwritten, so it is never one of these.
        return state == DirectAttempt || state == ProxyAttempt;
      case _ =>
        return false;
    }

    method SwitchToWait(now: int, random: nat)
      requires Attempting(state)
      modifies this
      ensures Value() == Pause(old(Value()), now, random)
    {
      match state
      case DirectAttempt =>
        state, stateTS := DirectWait, now;
        nextAttemptTS := now + random % DIRECT_MAX_WAIT_TIME;
      case ProxyAttempt =>
        state, stateTS := ProxyWait, now;
        nextAttemptTS := now + PROXY_BASE_WAIT_TIME + random % (PROXY_MAX_WAIT_TIME - PROXY_BASE_WAIT_TIME);
      case RelayAttempt =>
        state, stateTS := RelayWait, now;
        nextAttemptTS := now + random % RELAY_MAX_WAIT_TIME;
    }
  }
}
