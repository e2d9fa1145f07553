// The store that maps addresses and subnets to keys and holds back packets for unknown ones.
// Every method of the class runs under the store's mutex, so an interleaving of sends, updates and
// timer callbacks is a sequence of them. The first part states one such call as a step on a value
// and proves what any sequence of steps keeps; the class then performs exactly these steps.
module KeyStore {
  import opened Words
  import opened Address
  import opened Options

  datatype Destination = ToAddress(address: seq<byte>) | ToSubnet(subnet: seq<byte>)

  // What a caller asked to be sent. Requests are numbered in the order of the calls.
  datatype Request = Request(to: Destination, packet: seq<byte>)

  // A record of a known key. Records are compared by identity.
  class KeyInfo {
    const key: seq<byte>
    const address: seq<byte>
    const subnet: seq<byte>

    ghost predicate Valid() {
      |key| == KEY_SIZE && address == AddressOf(key) && subnet == SubnetOf(key)
    }

    constructor (key: seq<byte>)
      requires |key| == KEY_SIZE
      ensures Valid() && this.key == key
    {
      var a := AddrForKey(key);
      var s := SubnetForKey(key);
      this.key := key;
      address := a.value;
      subnet := s.value;
    }
  }

  // A place for one held-back packet. Buffers are compared by identity.
  class Buffer {
    var packet: seq<byte>
    ghost var serial: nat

    constructor ()
    {
      packet := [];
    }
  }

  // ---- The store as a value ----

  datatype Held = Held(buffer: Buffer, serial: nat, packet: seq<byte>)

  datatype View = View(
    keys: map<seq<byte>, KeyInfo>,
    addrs: map<seq<byte>, KeyInfo>,
    subnets: map<seq<byte>, KeyInfo>,
    addrHeld: map<seq<byte>, Held>,
    subnetHeld: map<seq<byte>, Held>,
    requests: seq<Request>,
    written: map<nat, seq<byte>>,
    writes: nat,
    dropped: set<nat>)

  ghost const Empty: View := View(map[], map[], map[], map[], map[], [], map[], 0, {})

  function Get<T>(m: map<seq<byte>, T>, k: seq<byte>): Option<T> {
    if k in m then Some(m[k]) else None
  }

  function Resolved(v: View, d: Destination): Option<KeyInfo> {
    match d
    case ToAddress(a) => Get(v.addrs, a)
    case ToSubnet(s) => Get(v.subnets, s)
  }

  function Waiting(v: View, d: Destination): Option<Held> {
    match d
    case ToAddress(a) => Get(v.addrHeld, a)
    case ToSubnet(s) => Get(v.subnetHeld, s)
  }

  function Resolve(v: View, d: Destination, i: KeyInfo): View {
    match d
    case ToAddress(a) => v.(addrs := v.addrs[a := i])
    case ToSubnet(s) => v.(subnets := v.subnets[s := i])
  }

  function Hold(v: View, d: Destination, h: Held): View {
    match d
    case ToAddress(a) => v.(addrHeld := v.addrHeld[a := h])
    case ToSubnet(s) => v.(subnetHeld := v.subnetHeld[s := h])
  }

  function Release(v: View, d: Destination): View {
    match d
    case ToAddress(a) => v.(addrHeld := v.addrHeld - {a})
    case ToSubnet(s) => v.(subnetHeld := v.subnetHeld - {s})
  }

  // The map without the key, when the key points to that very object.
  function Without(m: map<seq<byte>, KeyInfo>, k: seq<byte>, i: KeyInfo): map<seq<byte>, KeyInfo> {
    if k in m && m[k] == i then m - {k} else m
  }

  // ---- What always holds ----

  predicate Reaches(key: seq<byte>, d: Destination) {
    |key| == KEY_SIZE &&
    match d
    case ToAddress(a) => AddressOf(key) == a
    case ToSubnet(s) => SubnetOf(key) == s
  }

  // Every address or subnet entry points to a record made for it, which the key index also holds.
  ghost predicate Indexed(v: View) {
    && (forall k :: k in v.keys ==> v.keys[k].Valid() && v.keys[k].key == k)
    && (forall d :: Resolved(v, d).Some? ==> GoodEntry(v.keys, d, Resolved(v, d).value))
  }

  ghost predicate GoodEntry(keys: map<seq<byte>, KeyInfo>, d: Destination, i: KeyInfo) {
    i.Valid() && Reaches(i.key, d) && i.key in keys && keys[i.key] == i
  }

  // No destination is both resolved and waiting.
  ghost predicate Exclusive(v: View) {
    forall d :: Resolved(v, d).None? || Waiting(v, d).None?
  }

  // Each buffer holds the packet of a request for its own destination.
  ghost predicate Faithful(v: View) {
    forall d :: Waiting(v, d).Some? ==>
      var h := Waiting(v, d).value;
      h.serial < |v.requests| && v.requests[h.serial] == Request(d, h.packet)
  }

  ghost predicate IsHeld(v: View, n: nat)
    requires n < |v.requests|
  {
    var w := Waiting(v, v.requests[n].to);
    w.Some? && w.value.serial == n
  }

  // Every request has exactly one fate: written, held back, or dropped. The number of writes is
  // the number of requests written, so none was written twice.
  ghost predicate OneFate(v: View, n: nat)
    requires n < |v.requests|
  {
    if n in v.written then n !in v.dropped && !IsHeld(v, n)
    else n in v.dropped <==> !IsHeld(v, n)
  }

  ghost predicate Accounted(v: View) {
    && (forall n :: n in v.written ==> n < |v.requests| && Reaches(v.written[n], v.requests[n].to))
    && (forall n :: n in v.dropped ==> n < |v.requests|)
    && v.writes == |v.written|
    && (forall n: nat :: n < |v.requests| ==> OneFate(v, n))
  }

  ghost predicate Coherent(v: View) {
    Indexed(v) && Exclusive(v) && Faithful(v) && Accounted(v)
  }

  // ---- The steps ----

  ghost predicate NewWhenNeeded(v: View, d: Destination, b: Buffer?) {
    b == null ==> Resolved(v, d).Some? || Waiting(v, d).Some?
  }

  // Sends to the record's key when the destination is resolved; otherwise holds the packet back.
  ghost function Send(v: View, d: Destination, packet: seq<byte>, b: Buffer?): View
    requires NewWhenNeeded(v, d, b)
  {
    var n := |v.requests|;
    var v1 := v.(requests := v.requests + [Request(d, packet)]);
    match Resolved(v, d)
    case Some(i) => v1.(written := v.written[n := i.key], writes := v.writes + 1)
    case None => Keep(v1, d, packet, n, b)
  }

  // Holds packet n back in place of an older one, in the buffer already there or in the new one given.
  ghost function Keep(v: View, d: Destination, packet: seq<byte>, n: nat, b: Buffer?): View
    requires b == null ==> Waiting(v, d).Some?
  {
    match Waiting(v, d)
    case Some(h) => Hold(v, d, Held(h.buffer, n, packet)).(dropped := v.dropped + {h.serial})
    case None => Hold(v, d, Held(b, n, packet))
  }

  // Writes the packet held back for a destination, if any, to a key.
  ghost function Flush(v: View, d: Destination, key: seq<byte>): View {
    match Waiting(v, d)
    case Some(h) => Release(v, d).(written := v.written[h.serial := key], writes := v.writes + 1)
    case None => v
  }

  // A key has been learned; a new key gets the record given.
  ghost function Learn(v: View, key: seq<byte>, i: KeyInfo): View {
    if key in v.keys then v
    else Flush(Flush(WithRecord(v, key, i), ToAddress(i.address), key), ToSubnet(i.subnet), key)
  }

  // The indexes with a new record.
  ghost function WithRecord(v: View, key: seq<byte>, i: KeyInfo): View {
    Resolve(Resolve(v.(keys := v.keys[key := i]), ToAddress(i.address), i), ToSubnet(i.subnet), i)
  }

  // The timer of a record fires, perhaps late: the record leaves the indexes that point to it.
  ghost function Expire(v: View, i: KeyInfo): View {
    v.(keys := Without(v.keys, i.key, i), addrs := Without(v.addrs, i.address, i),
       subnets := Without(v.subnets, i.subnet, i))
  }

  // The timer of a buffer fires, perhaps late: its packet is dropped if the buffer is still there.
  ghost function Discard(v: View, d: Destination, b: Buffer): View {
    match Waiting(v, d)
    case Some(h) => if h.buffer == b then Release(v, d).(dropped := v.dropped + {h.serial}) else v
    case None => v
  }

  // ---- Every step keeps the invariant ----

  // A request was written once and for all: later steps neither change nor repeat it.
  ghost predicate Grows(v: View, v': View) {
    && |v.requests| <= |v'.requests| && v.requests == v'.requests[..|v.requests|]
    && (forall n :: n in v.written ==> n in v'.written && v'.written[n] == v.written[n])
    && v.dropped <= v'.dropped
  }

  lemma HoldFrame(v: View, d: Destination, h: Held)
    ensures Waiting(Hold(v, d, h), d) == Some(h) && Waiting(Release(v, d), d) == None
    ensures forall e :: e != d ==>
      Waiting(Hold(v, d, h), e) == Waiting(v, e) && Waiting(Release(v, d), e) == Waiting(v, e)
    ensures forall e :: Resolved(Hold(v, d, h), e) == Resolved(v, e) && Resolved(Release(v, d), e) == Resolved(v, e)
  {}

  lemma SendCoherent(v: View, d: Destination, packet: seq<byte>, b: Buffer?)
    requires NewWhenNeeded(v, d, b) && Coherent(v)
    ensures Coherent(Send(v, d, packet, b)) && Grows(v, Send(v, d, packet, b))
  {
    hide AddressOf, SubnetOf;
    if Resolved(v, d).Some? {
      SendResolved(v, d, packet, b);
    } else {
      SendHeld(v, d, packet, b);
    }
  }

  lemma SendResolved(v: View, d: Destination, packet: seq<byte>, b: Buffer?)
    requires NewWhenNeeded(v, d, b) && Coherent(v) && Resolved(v, d).Some?
    ensures Coherent(Send(v, d, packet, b)) && Grows(v, Send(v, d, packet, b))
  {
    hide Reaches;
    var v' := Send(v, d, packet, b);
    assert forall e :: Waiting(v', e) == Waiting(v, e) && Resolved(v', e) == Resolved(v, e);
    assert GoodEntry(v.keys, d, Resolved(v, d).value);
    WrittenAccounted(v, v', d, packet, Resolved(v, d).value.key);
    hide Send, Resolved, Waiting, Accounted, GoodEntry;
  }

  lemma WrittenAccounted(v: View, v': View, d: Destination, packet: seq<byte>, key: seq<byte>)
    requires Faithful(v) && Accounted(v) && Reaches(key, d)
    requires v'.requests == v.requests + [Request(d, packet)] && v'.dropped == v.dropped
    requires v'.written == v.written[|v.requests| := key] && v'.writes == v.writes + 1
    requires forall e :: Waiting(v', e) == Waiting(v, e)
    ensures Faithful(v') && Accounted(v') && Grows(v, v')
  {
    hide Reaches, Waiting;
    StillFaithful(v, v', d, packet);
    NotYetHeld(v, d);
    assert |v.requests| !in v.written && |v.requests| !in v.dropped;
    forall n: nat | n < |v'.requests|
      ensures OneFate(v', n)
    {
      WrittenFate(v, v', d, packet, key, n);
    }
    hide Faithful, OneFate;
  }

  lemma WrittenFate(v: View, v': View, d: Destination, packet: seq<byte>, key: seq<byte>, n: nat)
    requires n < |v.requests| ==> OneFate(v, n)
    requires |v.requests| !in v.dropped && (Waiting(v, d).Some? ==> Waiting(v, d).value.serial != |v.requests|)
    requires v'.requests == v.requests + [Request(d, packet)] && v'.dropped == v.dropped
    requires v'.written == v.written[|v.requests| := key]
    requires forall e :: Waiting(v', e) == Waiting(v, e)
    requires n < |v'.requests|
    ensures OneFate(v', n)
  {
    hide Waiting;
  }

  lemma StillFaithful(v: View, v': View, d: Destination, packet: seq<byte>)
    requires Faithful(v) && v'.requests == v.requests + [Request(d, packet)]
    requires forall e :: Waiting(v', e) == Waiting(v, e)
    ensures Faithful(v')
  {
    hide Waiting;
  }

  // The number of the next request is in no buffer.
  lemma NotYetHeld(v: View, d: Destination)
    requires Faithful(v)
    ensures Waiting(v, d).Some? ==> Waiting(v, d).value.serial != |v.requests|
  {
    hide Waiting;
  }

  // What holding a packet back changes.
  ghost predicate HeldStep(v: View, v': View, d: Destination, h: Held) {
    && v'.requests == v.requests + [Request(d, h.packet)] && h.serial == |v.requests|
    && v'.written == v.written && v'.writes == v.writes && v'.keys == v.keys
    && v'.dropped == (match Waiting(v, d) case Some(was) => v.dropped + {was.serial} case None => v.dropped)
    && Waiting(v', d) == Some(h)
    && (forall e :: e != d ==> Waiting(v', e) == Waiting(v, e))
    && (forall e :: Resolved(v', e) == Resolved(v, e))
  }

  lemma SendHeld(v: View, d: Destination, packet: seq<byte>, b: Buffer?)
    requires NewWhenNeeded(v, d, b) && Coherent(v) && Resolved(v, d).None?
    ensures Coherent(Send(v, d, packet, b)) && Grows(v, Send(v, d, packet, b))
  {
    hide Send, HeldStep, Accounted, Indexed, Exclusive, Faithful, Grows;
    var h := SendHolds(v, d, packet, b);
    HeldAccounted(v, Send(v, d, packet, b), d, h);
    HeldRest(v, Send(v, d, packet, b), d, h);
  }

  lemma SendHolds(v: View, d: Destination, packet: seq<byte>, b: Buffer?) returns (h: Held)
    requires NewWhenNeeded(v, d, b) && Resolved(v, d).None?
    ensures HeldStep(v, Send(v, d, packet, b), d, h)
  {
    h := Held(match Waiting(v, d) case Some(w) => w.buffer case None => b, |v.requests|, packet);
    HoldFrame(v.(requests := v.requests + [Request(d, packet)]), d, h);
  }

  lemma HeldAccounted(v: View, v': View, d: Destination, h: Held)
    requires Faithful(v) && Accounted(v) && HeldStep(v, v', d, h)
    ensures Accounted(v') && Grows(v, v')
  {
    hide Reaches, Resolved, Waiting;
    if Waiting(v, d).Some? {
      var n := Waiting(v, d).value.serial;
      assert n < |v.requests| && v.requests[n].to == d;
      assert OneFate(v, n) && IsHeld(v, n);
    }
    forall m: nat | m < |v'.requests|
      ensures OneFate(v', m)
    {
      if m < |v.requests| { assert OneFate(v, m); }
    }
  }

  lemma HeldRest(v: View, v': View, d: Destination, h: Held)
    requires Indexed(v) && Exclusive(v) && Faithful(v) && HeldStep(v, v', d, h) && Resolved(v, d).None?
    ensures Indexed(v') && Exclusive(v') && Faithful(v')
  {
    hide Reaches, Resolved, Waiting, GoodEntry;
    assert forall e :: Resolved(v', e).Some? ==> Resolved(v, e).Some?;
  }

  // What taking a packet out of its buffer changes, besides its fate.
  ghost predicate ReleaseStep(v: View, v': View, d: Destination) {
    && v'.requests == v.requests
    && Waiting(v, d).Some? && Waiting(v', d).None?
    && (forall e :: e != d ==> Waiting(v', e) == Waiting(v, e))
  }

  lemma ReleaseAccounted(v: View, v': View, d: Destination)
    requires Faithful(v) && Accounted(v) && ReleaseStep(v, v', d)
    requires var n := Waiting(v, d).value.serial;
             || (v'.dropped == v.dropped + {n} && v'.written == v.written && v'.writes == v.writes)
             || (v'.dropped == v.dropped && v'.writes == v.writes + 1 &&
                 exists key :: Reaches(key, d) && v'.written == v.written[n := key])
    ensures Faithful(v') && Accounted(v') && Grows(v, v')
  {
    hide Reaches, Resolved, Waiting;
    var n := Waiting(v, d).value.serial;
    assert n < |v.requests| && v.requests[n].to == d;
    assert OneFate(v, n) && IsHeld(v, n);
    forall m: nat | m < |v'.requests|
      ensures OneFate(v', m)
    {
      assert OneFate(v, m);
    }
  }

  lemma FlushAccounted(v: View, d: Destination, key: seq<byte>)
    requires Faithful(v) && Accounted(v) && Reaches(key, d)
    ensures var v' := Flush(v, d, key);
            Faithful(v') && Accounted(v') && Grows(v, v') && Waiting(v', d).None?
  {
    hide Reaches, Faithful, Accounted;
    if Waiting(v, d).Some? {
      HoldFrame(v, d, Waiting(v, d).value);
      FlushFrame(v, d, key);
      ReleaseAccounted(v, Flush(v, d, key), d);
    }
  }

  lemma FlushFrame(v: View, d: Destination, key: seq<byte>)
    ensures var v' := Flush(v, d, key);
            v'.keys == v.keys && v'.addrs == v.addrs && v'.subnets == v.subnets
    ensures forall e :: e != d ==> Waiting(Flush(v, d, key), e) == Waiting(v, e)
  {}

  lemma LearnCoherent(v: View, key: seq<byte>, i: KeyInfo)
    requires Coherent(v) && i.Valid() && i.key == key
    ensures Coherent(Learn(v, key, i)) && Grows(v, Learn(v, key, i))
  {
    hide AddressOf, SubnetOf, Coherent, Faithful, Accounted, Indexed, Grows, WithRecord, Resolve, Flush;
    if key in v.keys {
      GrowsItself(v);
    } else {
      var a, s := ToAddress(i.address), ToSubnet(i.subnet);
      var v2 := WithRecord(v, key, i);
      LearnStarts(v, key, i);
      FlushBoth(v2, a, s, key);
      LearnIs(v, key, i);
      GrowsTwice(v, v2, Learn(v, key, i));
      LearnDone(v, v2, Learn(v, key, i), a, s);
    }
  }

  lemma LearnIs(v: View, key: seq<byte>, i: KeyInfo)
    requires key !in v.keys
    ensures Learn(v, key, i) == Flush(Flush(WithRecord(v, key, i), ToAddress(i.address), key), ToSubnet(i.subnet), key)
  {
    hide Flush;
  }

  lemma LearnStarts(v: View, key: seq<byte>, i: KeyInfo)
    requires Coherent(v) && i.Valid() && i.key == key && key !in v.keys
    ensures var v2, a, s := WithRecord(v, key, i), ToAddress(i.address), ToSubnet(i.subnet);
            && Indexed(v2) && Faithful(v2) && Accounted(v2) && Grows(v, v2) && Reaches(key, a) && Reaches(key, s)
            && (forall d :: d != a && d != s ==> Resolved(v2, d) == Resolved(v, d))
            && (forall d :: Waiting(v2, d) == Waiting(v, d))
  {
    hide AddressOf, SubnetOf, Faithful, Accounted, Grows;
    LearnIndexed(v, key, i);
    ResolvedAccounted(v, WithRecord(v, key, i));
    hide Indexed;
  }

  lemma FlushBoth(v: View, a: Destination, s: Destination, key: seq<byte>)
    requires Faithful(v) && Accounted(v) && Reaches(key, a) && Reaches(key, s)
    ensures var v' := Flush(Flush(v, a, key), s, key);
            && Faithful(v') && Accounted(v') && Grows(v, v') && Waiting(v', a).None? && Waiting(v', s).None?
            && v'.keys == v.keys && v'.addrs == v.addrs && v'.subnets == v.subnets
            && forall e :: e != a && e != s ==> Waiting(v', e) == Waiting(v, e)
  {
    hide Faithful, Accounted, Grows, Reaches;
    var v1 := Flush(v, a, key);
    FlushAccounted(v, a, key);
    FlushFrame(v, a, key);
    FlushAccounted(v1, s, key);
    FlushFrame(v1, s, key);
    GrowsTwice(v, v1, Flush(v1, s, key));
  }

  lemma GrowsTwice(v: View, v1: View, v2: View)
    requires Grows(v, v1) && Grows(v1, v2)
    ensures Grows(v, v2)
  {}

  lemma LearnDone(v: View, v2: View, v': View, a: Destination, s: Destination)
    requires Coherent(v) && Indexed(v2) && Faithful(v') && Accounted(v')
    requires v'.keys == v2.keys && v'.addrs == v2.addrs && v'.subnets == v2.subnets
    requires forall d :: d != a && d != s ==> Resolved(v2, d) == Resolved(v, d)
    requires forall d :: d != a && d != s ==> Waiting(v', d) == Waiting(v, d)
    requires Waiting(v', a).None? && Waiting(v', s).None?
    ensures Coherent(v')
  {
    hide Faithful, Accounted, GoodEntry;
    assert forall d :: Resolved(v', d) == Resolved(v2, d);
  }

  lemma ResolvedAccounted(v: View, v': View)
    requires Faithful(v) && Accounted(v)
    requires v' == v.(keys := v'.keys, addrs := v'.addrs, subnets := v'.subnets)
    ensures Faithful(v') && Accounted(v') && Grows(v, v')
    ensures forall d :: Waiting(v', d) == Waiting(v, d)
  {
    hide AddressOf, SubnetOf, Reaches;
    assert forall d :: Waiting(v', d) == Waiting(v, d);
    forall n: nat | n < |v'.requests|
      ensures OneFate(v', n)
    {
      assert OneFate(v, n);
    }
  }

  lemma LearnIndexed(v: View, key: seq<byte>, i: KeyInfo)
    requires Indexed(v) && i.Valid() && i.key == key && key !in v.keys
    ensures Indexed(WithRecord(v, key, i))
  {
    hide AddressOf, SubnetOf;
    var a, s := ToAddress(i.address), ToSubnet(i.subnet);
    var v' := Resolve(Resolve(v.(keys := v.keys[key := i]), a, i), s, i);
    forall d | Resolved(v', d).Some?
      ensures GoodEntry(v'.keys, d, Resolved(v', d).value)
    {
      if d != a && d != s {
        assert Resolved(v', d) == Resolved(v, d);
        assert GoodEntry(v.keys, d, Resolved(v, d).value);
      }
    }
  }

  lemma ExpireCoherent(v: View, i: KeyInfo)
    requires Coherent(v) && i.Valid()
    ensures Coherent(Expire(v, i)) && Grows(v, Expire(v, i))
  {
    hide AddressOf, SubnetOf, Faithful, Accounted, Grows;
    var v' := Expire(v, i);
    ResolvedAccounted(v, v');
    assert forall d :: Resolved(v', d).Some? ==> Resolved(v, d) == Resolved(v', d);
    hide Expire, Resolved, Waiting;
    forall d | Resolved(v', d).Some?
      ensures GoodEntry(v'.keys, d, Resolved(v', d).value)
    {
      assert Resolved(v, d) == Resolved(v', d);
    }
  }

  lemma DiscardCoherent(v: View, d: Destination, b: Buffer)
    requires Coherent(v)
    ensures Coherent(Discard(v, d, b)) && Grows(v, Discard(v, d, b))
  {
    hide Reaches, Faithful, Accounted, GoodEntry, Grows;
    if Waiting(v, d).Some? && Waiting(v, d).value.buffer == b {
      var h := Waiting(v, d).value;
      var v' := Discard(v, d, b);
      HoldFrame(v, d, h);
      assert forall e :: Resolved(v', e) == Resolved(v, e);
      assert forall e :: e != d ==> Waiting(v', e) == Waiting(v, e);
      ReleaseAccounted(v, v', d);
    } else {
      GrowsItself(v);
    }
  }

  lemma GrowsItself(v: View)
    ensures Grows(v, v)
  {}

  lemma SendKeeps(v: View, d: Destination, packet: seq<byte>, b: Buffer?)
    requires Resolved(v, d).None? && (b == null ==> Waiting(v, d).Some?)
    ensures NewWhenNeeded(v, d, b)
    ensures var v1 := v.(requests := v.requests + [Request(d, packet)]);
            Waiting(v1, d) == Waiting(v, d) && Send(v, d, packet, b) == Keep(v1, d, packet, |v.requests|, b)
  {}

  lemma FlushHeld(v: View, k: seq<byte>, key: seq<byte>)
    ensures Flush(v, ToAddress(k), key) ==
              if k in v.addrHeld then
                v.(addrHeld := v.addrHeld - {k}, written := v.written[v.addrHeld[k].serial := key],
                   writes := v.writes + 1)
              else v
    ensures Flush(v, ToSubnet(k), key) ==
              if k in v.subnetHeld then
                v.(subnetHeld := v.subnetHeld - {k}, written := v.written[v.subnetHeld[k].serial := key],
                   writes := v.writes + 1)
              else v
    ensures Packets(Waiting(v, ToAddress(k))) == if k in v.addrHeld then [v.addrHeld[k].packet] else []
    ensures Packets(Waiting(v, ToSubnet(k))) == if k in v.subnetHeld then [v.subnetHeld[k].packet] else []
  {}

  lemma DiscardHeld(v: View, k: seq<byte>, b: Buffer)
    ensures Discard(v, ToAddress(k), b) ==
              if k in v.addrHeld && v.addrHeld[k].buffer == b then
                v.(addrHeld := v.addrHeld - {k}, dropped := v.dropped + {v.addrHeld[k].serial})
              else v
    ensures Discard(v, ToSubnet(k), b) ==
              if k in v.subnetHeld && v.subnetHeld[k].buffer == b then
                v.(subnetHeld := v.subnetHeld - {k}, dropped := v.dropped + {v.subnetHeld[k].serial})
              else v
  {}

  // ---- Whole runs ----

  datatype Event =
    | Sending(d: Destination, packet: seq<byte>, b: Buffer)
    | Learning(key: seq<byte>, i: KeyInfo)
    | Expiring(i: KeyInfo)
    | Discarding(d: Destination, b: Buffer)

  // Records are the ones made for their keys. Nothing is asked of the order or the time of events:
  // a timer may fire after it was stopped, and for a record or a buffer long replaced.
  ghost predicate Possible(e: Event) {
    match e
    case Learning(key, i) => i.Valid() && i.key == key
    case Expiring(i) => i.Valid()
    case _ => true
  }

  ghost function Step(v: View, e: Event): View {
    match e
    case Sending(d, packet, b) => Send(v, d, packet, b)
    case Learning(key, i) => Learn(v, key, i)
    case Expiring(i) => Expire(v, i)
    case Discarding(d, b) => Discard(v, d, b)
  }

  ghost function Run(v: View, events: seq<Event>): View {
    if events == [] then v else Step(Run(v, events[..|events| - 1]), events[|events| - 1])
  }

  lemma StepCoherent(v: View, e: Event)
    requires Coherent(v) && Possible(e)
    ensures Coherent(Step(v, e)) && Grows(v, Step(v, e))
  {
    hide Coherent, Grows, Send, Learn, Expire, Discard;
    match e {
      case Sending(d, packet, b) => SendCoherent(v, d, packet, b);
      case Learning(key, i) => LearnCoherent(v, key, i);
      case Expiring(i) =>
        ExpireCoherent(v, i);
      case Discarding(d, b) => DiscardCoherent(v, d, b);
    }
  }

  // Whatever the interleaving, the store stays coherent, and what was written or dropped by some
  // point of the run stays so.
  lemma {:induction false} RunCoherent(events: seq<Event>, n: nat)
    requires n <= |events| && forall e :: e in events ==> Possible(e)
    ensures Coherent(Run(Empty, events))
    ensures Grows(Run(Empty, events[..n]), Run(Empty, events))
  {
    hide Coherent, Grows, Step;
    if events == [] {
      EmptyCoherent();
      GrowsItself(Empty);
    } else {
      var most := events[..|events| - 1];
      var m := if n < |events| then n else n - 1;
      RunCoherent(most, m);
      StepCoherent(Run(Empty, most), events[|events| - 1]);
      if n < |events| {
        assert most[..n] == events[..n];
        GrowsTwice(Run(Empty, events[..n]), Run(Empty, most), Run(Empty, events));
      } else {
        assert events[..n] == events;
        GrowsItself(Run(Empty, events));
      }
    }
  }

  lemma EntryReaches(v: View, d: Destination)
    requires Coherent(v) && Resolved(v, d).Some?
    ensures Reaches(Resolved(v, d).value.key, d)
  {
    assert GoodEntry(v.keys, d, Resolved(v, d).value);
  }

  lemma RecordOf(v: View, k: seq<byte>)
    requires Coherent(v) && k in v.keys
    ensures v.keys[k].Valid() && v.keys[k].key == k
  {}

  lemma EmptyCoherent()
    ensures Coherent(Empty)
  {}

  // Each packet handed to the core went to a key of the destination it was meant for, and no packet
  // was handed over twice.
  lemma WritesReachTheirDestination(events: seq<Event>, n: nat)
    requires forall e :: e in events ==> Possible(e)
    requires n in Run(Empty, events).written
    ensures var v := Run(Empty, events);
            && n < |v.requests| && Reaches(v.written[n], v.requests[n].to) && v.writes == |v.written|
  {
    RunCoherent(events, 0);
  }

  // ---- Which record a destination resolves to ----

  // The n-th event stores a record for d: it teaches a key of d that is not known at that time.
  ghost predicate Teaches(events: seq<Event>, n: nat, d: Destination)
    requires n < |events|
  {
    && events[n].Learning? && Reaches(events[n].i.key, d)
    && events[n].key !in Run(Empty, events[..n]).keys
  }

  // The first event is the timer of the second one's record.
  predicate Ends(e: Event, f: Event) {
    f.Learning? && e == Expiring(f.i)
  }

  // Since the n-th event no timer of its record has run.
  predicate Unexpired(events: seq<Event>, n: nat)
    requires n < |events|
  {
    events[n].Learning? && forall m :: n < m < |events| ==> !Ends(events[m], events[n])
  }

  // The n-th event stored the record of d, and it was neither replaced nor let go since.
  ghost predicate InPlace(events: seq<Event>, n: nat, d: Destination)
    requires n < |events|
  {
    Teaches(events, n, d) && Unexpired(events, n) && forall m: nat :: n < m < |events| ==> !Teaches(events, m, d)
  }

  // The n-th event stored a record for its key, which has not expired since.
  ghost predicate Known(events: seq<Event>, n: nat)
    requires n < |events|
  {
    Unexpired(events, n) && events[n].key !in Run(Empty, events[..n]).keys
  }

  lemma StepResolves(v: View, e: Event, d: Destination)
    requires Coherent(v) && Possible(e)
    ensures Resolved(Step(v, e), d) ==
              if e.Learning? && e.key !in v.keys && Reaches(e.i.key, d) then Some(e.i)
              else if e.Expiring? && Resolved(v, d) == Some(e.i) then None
              else Resolved(v, d)
  {
    hide Learn, Expire, Coherent, Resolved, Reaches;
    match e {
      case Sending(to, packet, b) => SendResolves(v, to, packet, b, d);
      case Learning(key, i) => LearnResolves(v, key, i, d);
      case Expiring(i) => ExpireResolves(v, i, d);
      case Discarding(to, b) => DiscardResolves(v, to, b, d);
    }
  }

  lemma SendResolves(v: View, to: Destination, packet: seq<byte>, b: Buffer, d: Destination)
    ensures Resolved(Send(v, to, packet, b), d) == Resolved(v, d) && Send(v, to, packet, b).keys == v.keys
  {}

  lemma DiscardResolves(v: View, to: Destination, b: Buffer, d: Destination)
    ensures Resolved(Discard(v, to, b), d) == Resolved(v, d) && Discard(v, to, b).keys == v.keys
  {}

  lemma LearnResolves(v: View, key: seq<byte>, i: KeyInfo, d: Destination)
    requires i.Valid() && i.key == key
    ensures Resolved(Learn(v, key, i), d) == if key !in v.keys && Reaches(key, d) then Some(i) else Resolved(v, d)
    ensures Learn(v, key, i).keys == if key in v.keys then v.keys else v.keys[key := i]
  {
    hide AddressOf, SubnetOf, Flush;
    var a, s := ToAddress(i.address), ToSubnet(i.subnet);
    var v2 := WithRecord(v, key, i);
    FlushFrame(v2, a, key);
    FlushFrame(Flush(v2, a, key), s, key);
  }

  lemma ExpireResolves(v: View, i: KeyInfo, d: Destination)
    requires Coherent(v) && i.Valid()
    ensures Resolved(Expire(v, i), d) == if Resolved(v, d) == Some(i) then None else Resolved(v, d)
  {
    hide AddressOf, SubnetOf, Exclusive, Faithful, Accounted;
    if Resolved(v, d).Some? { assert GoodEntry(v.keys, d, Resolved(v, d).value); }
  }

  lemma ExpireKnows(v: View, i: KeyInfo, k: seq<byte>)
    requires Coherent(v) && i.Valid()
    ensures Get(Expire(v, i).keys, k) == if Get(v.keys, k) == Some(i) then None else Get(v.keys, k)
  {
    hide AddressOf, SubnetOf, Exclusive, Faithful, Accounted;
  }

  lemma StepKnows(v: View, e: Event, k: seq<byte>)
    requires Coherent(v) && Possible(e)
    ensures Get(Step(v, e).keys, k) ==
              if e.Learning? && k !in v.keys && e.key == k then Some(e.i)
              else if e.Expiring? && Get(v.keys, k) == Some(e.i) then None
              else Get(v.keys, k)
  {
    hide Learn, Expire, Coherent, Resolved, Reaches;
    match e {
      case Sending(to, packet, b) => SendResolves(v, to, packet, b, to);
      case Learning(key, i) => LearnResolves(v, key, i, ToAddress([]));
      case Expiring(i) => ExpireKnows(v, i, k);
      case Discarding(to, b) => DiscardResolves(v, to, b, to);
    }
  }

  // What the last event changes about the earlier ones.
  lemma SameBefore(events: seq<Event>, n: nat, d: Destination)
    requires n < |events| - 1
    ensures var most, last := events[..|events| - 1], events[|events| - 1];
            && (Teaches(events, n, d) <==> Teaches(most, n, d))
            && (Unexpired(events, n) <==> Unexpired(most, n) && !Ends(last, events[n]))
            && (InPlace(events, n, d) <==>
                  InPlace(most, n, d) && !Teaches(events, |events| - 1, d) && !Ends(last, events[n]))
            && (Known(events, n) <==> Known(most, n) && !Ends(last, events[n]))
            && (InPlace(most, n, d) || Known(most, n) ==> events[n].Learning? && most[n] == events[n])
  {
    hide Reaches, Run;
    var most := events[..|events| - 1];
    forall m: nat | m < |most|
      ensures most[m] == events[m] && (Teaches(events, m, d) <==> Teaches(most, m, d))
    {
      assert most[..m] == events[..m];
    }
    assert most[..n] == events[..n];
  }

  // After any run a destination resolves to the record of the key that was last taught for it, as
  // long as that record has not expired, and to nothing otherwise.
  lemma {:induction false} ResolvedIff(events: seq<Event>, d: Destination, i: KeyInfo)
    requires forall e :: e in events ==> Possible(e)
    ensures Resolved(Run(Empty, events), d) == Some(i) <==>
              exists n: nat :: n < |events| && InPlace(events, n, d) && events[n].i == i
  {
    hide Run, Step, Coherent, Reaches, InPlace, Known;
    RunStep(events);
    if events != [] {
      var most, last := events[..|events| - 1], events[|events| - 1];
      ResolvedIff(most, d, i);
      RunCoherent(most, 0);
      StepResolves(Run(Empty, most), last, d);
      InPlaceNow(events, d, i);
    }
  }

  // What the last event makes of the question which event is in place.
  lemma InPlaceNow(events: seq<Event>, d: Destination, i: KeyInfo)
    requires events != []
    ensures var last, most := events[|events| - 1], events[..|events| - 1];
            (exists n: nat :: n < |events| && InPlace(events, n, d) && events[n].i == i) <==>
              if last.Learning? && last.key !in Run(Empty, most).keys && Reaches(last.i.key, d) then last.i == i
              else (exists n: nat :: n < |most| && InPlace(most, n, d) && most[n].i == i) && last != Expiring(i)
  {
    hide Run, Reaches, Teaches, Unexpired, InPlace, Known;
    var most, last := events[..|events| - 1], events[|events| - 1];
    LastInPlace(events, d);
    forall n: nat | n < |most|
      ensures InPlace(events, n, d) <==>
                InPlace(most, n, d) && !Teaches(events, |events| - 1, d) && !Ends(last, events[n])
      ensures most[n] == events[n] && (InPlace(most, n, d) ==> events[n].Learning?)
    {
      SameBefore(events, n, d);
    }
  }

  lemma RunStep(events: seq<Event>)
    ensures Run(Empty, events) == if events == [] then Empty
                                  else Step(Run(Empty, events[..|events| - 1]), events[|events| - 1])
  {}

  lemma LastInPlace(events: seq<Event>, d: Destination)
    requires events != []
    ensures var n, last := |events| - 1, events[|events| - 1];
            && (InPlace(events, n, d) <==> Teaches(events, n, d))
            && (Teaches(events, n, d) <==>
                  last.Learning? && last.key !in Run(Empty, events[..n]).keys && Reaches(last.i.key, d))
            && (Known(events, n) <==> last.Learning? && last.key !in Run(Empty, events[..n]).keys)
  {}

  // A key is known exactly when some event taught it and the record has not expired since.
  lemma {:induction false} KnownIff(events: seq<Event>, k: seq<byte>, i: KeyInfo)
    requires forall e :: e in events ==> Possible(e)
    ensures Get(Run(Empty, events).keys, k) == Some(i) <==>
              exists n: nat :: n < |events| && Known(events, n) && events[n].key == k && events[n].i == i
  {
    hide Run, Step, Coherent, Reaches, InPlace, Known;
    RunStep(events);
    if events != [] {
      var most, last := events[..|events| - 1], events[|events| - 1];
      KnownIff(most, k, i);
      RunCoherent(most, 0);
      StepKnows(Run(Empty, most), last, k);
      KnownNow(events, k, i);
    }
  }

  lemma KnownNow(events: seq<Event>, k: seq<byte>, i: KeyInfo)
    requires events != []
    ensures var last, most := events[|events| - 1], events[..|events| - 1];
            (exists n: nat :: n < |events| && Known(events, n) && events[n].key == k && events[n].i == i) <==>
              || (last.Learning? && last.key == k && k !in Run(Empty, most).keys && last.i == i)
              || ((exists n: nat :: n < |most| && Known(most, n) && most[n].key == k && most[n].i == i)
                  && last != Expiring(i))
  {
    hide Run, Reaches, Teaches, Unexpired, InPlace, Known;
    var most, last := events[..|events| - 1], events[|events| - 1];
    LastInPlace(events, ToAddress([]));
    forall n: nat | n < |most|
      ensures Known(events, n) <==> Known(most, n) && !Ends(last, events[n])
      ensures most[n] == events[n] && (Known(most, n) ==> events[n].Learning?)
    {
      SameBefore(events, n, ToAddress([]));
    }
  }

  // A known key's address and subnet lead to its record exactly when no other key with that address
  // or subnet was taught after it. Learning the key again changes nothing about it.
  lemma KnownKeyResolved(events: seq<Event>, n: nat, d: Destination)
    requires forall e :: e in events ==> Possible(e)
    requires n < |events| && Known(events, n) && Reaches(events[n].key, d)
    ensures Resolved(Run(Empty, events), d) == Some(events[n].i) <==>
              forall m: nat :: n < m < |events| ==> !Teaches(events, m, d)
    ensures forall i :: Learn(Run(Empty, events), events[n].key, i) == Run(Empty, events)
  {
    hide Run, Reaches;
    KnownIff(events, events[n].key, events[n].i);
    assert Possible(events[n]);
    ResolvedIff(events, d, events[n].i);
    if Resolved(Run(Empty, events), d) == Some(events[n].i) {
      var l: nat :| l < |events| && InPlace(events, l, d) && events[l].i == events[n].i;
      if n < l {
        assert Possible(events[l]);
        KnownMeanwhile(events, n, l);
      }
    }
  }

  lemma KnownMeanwhile(events: seq<Event>, n: nat, l: nat)
    requires forall e :: e in events ==> Possible(e)
    requires n < l < |events| && Known(events, n)
    ensures events[n].key in Run(Empty, events[..l]).keys
  {
    hide Run;
    assert events[..l][..n] == events[..n];
    assert Known(events[..l], n);
    KnownIff(events[..l], events[n].key, events[n].i);
  }

  // Two keys with one address: when the record of the second expires, the first is still known but
  // its address resolves to nothing, and learning it again does not help.
  lemma Stranded(k: seq<byte>, l: seq<byte>, i: KeyInfo, j: KeyInfo, d: Destination)
    requires i.Valid() && j.Valid() && i.key == k && j.key == l && k != l && Reaches(k, d) && Reaches(l, d)
    ensures var v := Run(Empty, [Learning(k, i), Learning(l, j), Expiring(j), Learning(k, i)]);
            Get(v.keys, k) == Some(i) && Resolved(v, d).None?
  {
    hide Step, Coherent, Reaches;
    var e := [Learning(k, i), Learning(l, j), Expiring(j), Learning(k, i)];
    assert e[..3][..2] == e[..2] && e[..2][..1] == e[..1] && e[..1][..0] == [];
    forall n: nat | n < 4
      ensures Run(Empty, e[..n + 1]) == Step(Run(Empty, e[..n]), e[n])
    {
      assert e[..n + 1][..n] == e[..n];
    }
    assert e[..4] == e && e[..0] == [];
    forall n: nat | n < 4
      ensures Coherent(Run(Empty, e[..n]))
    {
      assert forall x :: x in e[..n] ==> x in e;
      RunCoherent(e[..n], 0);
    }
    hide Run;
    StrandedStep(Run(Empty, e[..0]), e[0], k, d);
    StrandedStep(Run(Empty, e[..1]), e[1], k, d);
    StrandedStep(Run(Empty, e[..2]), e[2], k, d);
    StrandedStep(Run(Empty, e[..3]), e[3], k, d);
    StepKnows(Run(Empty, e[..0]), e[0], l);
  }

  lemma StrandedStep(v: View, e: Event, k: seq<byte>, d: Destination)
    requires Coherent(v) && Possible(e)
    ensures Resolved(Step(v, e), d) ==
              if e.Learning? && e.key !in v.keys && Reaches(e.i.key, d) then Some(e.i)
              else if e.Expiring? && Resolved(v, d) == Some(e.i) then None
              else Resolved(v, d)
    ensures Get(Step(v, e).keys, k) ==
              if e.Learning? && k !in v.keys && e.key == k then Some(e.i)
              else if e.Expiring? && Get(v.keys, k) == Some(e.i) then None
              else Get(v.keys, k)
  {
    hide Step, Coherent, Reaches, Resolved;
    StepResolves(v, e, d);
    StepKnows(v, e, k);
  }

  // There are such keys.
  lemma TwoKeysOneAddress() returns (k: seq<byte>, l: seq<byte>)
    ensures |k| == |l| == KEY_SIZE && k != l && AddressOf(k) == AddressOf(l)
  {
    k, l := seq(KEY_SIZE, i => 255), seq(KEY_SIZE, i => if i == 31 then 0 else 255);
    assert k[31] != l[31];
    SharedAddress(k, l);
  }

  // ---- The store ----

  // The key as the store indexes it: cut or padded with zeros to the size of a key.
  function KeyArray(key: seq<byte>): (k: seq<byte>)
    ensures |k| == KEY_SIZE
    ensures |key| >= KEY_SIZE ==> k == key[..KEY_SIZE]
    ensures |key| < KEY_SIZE ==> k == key + seq(KEY_SIZE - |key|, i => 0)
  {
    seq(KEY_SIZE, i requires 0 <= i < KEY_SIZE => if i < |key| then key[i] else 0)
  }

  ghost function Packets(w: Option<Held>): seq<seq<byte>> {
    if w.Some? then [w.value.packet] else []
  }

  ghost function HeldIn(m: map<seq<byte>, Buffer>): map<seq<byte>, Held>
    reads m.Values
  {
    map k | k in m :: Held(m[k], m[k].serial, m[k].packet)
  }

  class KeyStore {
    var keyToInfo: map<seq<byte>, KeyInfo>
    var addrToInfo: map<seq<byte>, KeyInfo>
    var subnetToInfo: map<seq<byte>, KeyInfo>
    var addrBuffer: map<seq<byte>, Buffer>
    var subnetBuffer: map<seq<byte>, Buffer>
    ghost var requests: seq<Request>
    ghost var written: map<nat, seq<byte>>
    ghost var writes: nat
    ghost var dropped: set<nat>

    // No two destinations share a buffer.
    ghost predicate Separate()
      reads this`addrBuffer, this`subnetBuffer
    {
      && (forall a, b :: a in addrBuffer && b in addrBuffer && a != b ==> addrBuffer[a] != addrBuffer[b])
      && (forall a, b :: a in subnetBuffer && b in subnetBuffer && a != b ==> subnetBuffer[a] != subnetBuffer[b])
      && (forall a, b :: a in addrBuffer && b in subnetBuffer ==> addrBuffer[a] != subnetBuffer[b])
    }

    ghost function Value(): View
      reads this, addrBuffer.Values, subnetBuffer.Values
    {
      View(keyToInfo, addrToInfo, subnetToInfo, HeldIn(addrBuffer), HeldIn(subnetBuffer), requests, written, writes,
           dropped)
    }

    ghost predicate Valid()
      reads this, addrBuffer.Values, subnetBuffer.Values
    {
      Separate() && Coherent(Value())
    }

    constructor ()
      ensures Valid() && Value() == Empty
    {
      keyToInfo, addrToInfo, subnetToInfo := map[], map[], map[];
      addrBuffer, subnetBuffer := map[], map[];
      requests, written, writes, dropped := [], map[], 0, {};
      new;
      EmptyCoherent();
    }

    // Puts the packet into the address's buffer, which is created when there is none.
    method KeepForAddress(addr: seq<byte>, packet: seq<byte>, ghost n: nat) returns (made: Buffer?)
      requires Separate()
      modifies `addrBuffer, `dropped, addrBuffer.Values
      ensures Separate() && (made == null || fresh(made))
      ensures made == null <==> Waiting(old(Value()), ToAddress(addr)).Some?
      ensures Value() == Keep(old(Value()), ToAddress(addr), packet, n, made)
    {
      hide Separate, Keep;
      made := null;
      if addr in addrBuffer {
        RefillAddress(addr, packet, n);
      } else {
        made := NewForAddress(addr, packet, n);
      }
    }

    method RefillAddress(addr: seq<byte>, packet: seq<byte>, ghost n: nat)
      requires Separate() && addr in addrBuffer
      modifies `dropped, addrBuffer[addr]
      ensures Separate() && Value() == Keep(old(Value()), ToAddress(addr), packet, n, null)
    {
      ghost var held := HeldIn(addrBuffer);
      ghost var others := HeldIn(subnetBuffer);
      var buf := addrBuffer[addr];
      dropped := dropped + {buf.serial};
      buf.packet, buf.serial := packet, n;
      assert HeldIn(addrBuffer) == held[addr := Held(buf, n, packet)];
      assert HeldIn(subnetBuffer) == others;
    }

    method NewForAddress(addr: seq<byte>, packet: seq<byte>, ghost n: nat) returns (buf: Buffer)
      requires Separate() && addr !in addrBuffer
      modifies `addrBuffer
      ensures Separate() && fresh(buf) && Value() == Keep(old(Value()), ToAddress(addr), packet, n, buf)
    {
      ghost var held := HeldIn(addrBuffer);
      buf := new Buffer();
      addrBuffer := addrBuffer[addr := buf];
      buf.packet, buf.serial := packet, n;
      assert HeldIn(addrBuffer) == held[addr := Held(buf, n, packet)];
    }

    method HoldForAddress(addr: seq<byte>, packet: seq<byte>) returns (ghost made: Buffer?)
      requires Separate() && addr !in addrToInfo
      modifies `requests, `addrBuffer, `dropped, addrBuffer.Values
      ensures Separate() && NewWhenNeeded(old(Value()), ToAddress(addr), made) && (made == null || fresh(made))
      ensures Value() == Send(old(Value()), ToAddress(addr), packet, made)
    {
      hide Send, Keep, NewWhenNeeded, HeldIn, Separate;
      ghost var before := Value();
      requests := requests + [Request(ToAddress(addr), packet)];
      made := KeepForAddress(addr, packet, |before.requests|);
      SendKeeps(before, ToAddress(addr), packet, made);
    }

    // Returns the key the packet is written to, or else the partial key to look up.
    method SendToAddress(addr: seq<byte>, packet: seq<byte>)
      returns (to: Option<seq<byte>>, lookup: Option<seq<byte>>, ghost made: Buffer?)
      requires Valid() && |addr| == ADDRESS_SIZE
      modifies this, addrBuffer.Values
      ensures NewWhenNeeded(old(Value()), ToAddress(addr), made)
      ensures Valid() && Value() == Send(old(Value()), ToAddress(addr), packet, made)
      ensures made == null || fresh(made)
      ensures match old(Get(addrToInfo, addr))
              case Some(i) => to == Some(i.key) && Reaches(i.key, ToAddress(addr)) && lookup == None
              case None => to == None && lookup == Some(KeyOf(addr))
    {
      hide AddressOf, KeyOf, Reaches, Coherent, Grows, HeldIn, Separate;
      to, lookup, made := None, None, null;
      ghost var before := Value();
      if addr in addrToInfo {
        var info := addrToInfo[addr];
        to := Some(info.key);
        EntryReaches(before, ToAddress(addr));
        written, writes := written[|requests| := info.key], writes + 1;
        requests := requests + [Request(ToAddress(addr), packet)];
        assert HeldIn(addrBuffer) == before.addrHeld && HeldIn(subnetBuffer) == before.subnetHeld;
        assert Value() == Send(before, ToAddress(addr), packet, made) by { hide HeldIn; }
      } else {
        made := HoldForAddress(addr, packet);
        var k := GetKey(addr);
        lookup := Some(k);
      }
      hide Send, Value;
      SendCoherent(before, ToAddress(addr), packet, made);
    }

    // Puts the packet into the subnet's buffer, which is created when there is none.
    method KeepForSubnet(subnet: seq<byte>, packet: seq<byte>, ghost n: nat) returns (made: Buffer?)
      requires Separate()
      modifies `subnetBuffer, `dropped, subnetBuffer.Values
      ensures Separate() && (made == null || fresh(made))
      ensures made == null <==> Waiting(old(Value()), ToSubnet(subnet)).Some?
      ensures Value() == Keep(old(Value()), ToSubnet(subnet), packet, n, made)
    {
      hide Separate, Keep;
      made := null;
      if subnet in subnetBuffer {
        RefillSubnet(subnet, packet, n);
      } else {
        made := NewForSubnet(subnet, packet, n);
      }
    }

    method RefillSubnet(subnet: seq<byte>, packet: seq<byte>, ghost n: nat)
      requires Separate() && subnet in subnetBuffer
      modifies `dropped, subnetBuffer[subnet]
      ensures Separate() && Value() == Keep(old(Value()), ToSubnet(subnet), packet, n, null)
    {
      ghost var held := HeldIn(subnetBuffer);
      ghost var others := HeldIn(addrBuffer);
      var buf := subnetBuffer[subnet];
      dropped := dropped + {buf.serial};
      buf.packet, buf.serial := packet, n;
      assert HeldIn(subnetBuffer) == held[subnet := Held(buf, n, packet)];
      assert HeldIn(addrBuffer) == others;
    }

    method NewForSubnet(subnet: seq<byte>, packet: seq<byte>, ghost n: nat) returns (buf: Buffer)
      requires Separate() && subnet !in subnetBuffer
      modifies `subnetBuffer
      ensures Separate() && fresh(buf) && Value() == Keep(old(Value()), ToSubnet(subnet), packet, n, buf)
    {
      ghost var held := HeldIn(subnetBuffer);
      buf := new Buffer();
      subnetBuffer := subnetBuffer[subnet := buf];
      buf.packet, buf.serial := packet, n;
      assert HeldIn(subnetBuffer) == held[subnet := Held(buf, n, packet)];
    }

    method HoldForSubnet(subnet: seq<byte>, packet: seq<byte>) returns (ghost made: Buffer?)
      requires Separate() && subnet !in subnetToInfo
      modifies `requests, `subnetBuffer, `dropped, subnetBuffer.Values
      ensures Separate() && NewWhenNeeded(old(Value()), ToSubnet(subnet), made) && (made == null || fresh(made))
      ensures Value() == Send(old(Value()), ToSubnet(subnet), packet, made)
    {
      hide Send, Keep, NewWhenNeeded, HeldIn, Separate;
      ghost var before := Value();
      requests := requests + [Request(ToSubnet(subnet), packet)];
      made := KeepForSubnet(subnet, packet, |before.requests|);
      SendKeeps(before, ToSubnet(subnet), packet, made);
    }

    // Returns the key the packet is written to, or else the partial key to look up.
    method SendToSubnet(subnet: seq<byte>, packet: seq<byte>)
      returns (to: Option<seq<byte>>, lookup: Option<seq<byte>>, ghost made: Buffer?)
      requires Valid() && |subnet| == SUBNET_SIZE
      modifies this, subnetBuffer.Values
      ensures NewWhenNeeded(old(Value()), ToSubnet(subnet), made)
      ensures Valid() && Value() == Send(old(Value()), ToSubnet(subnet), packet, made)
      ensures made == null || fresh(made)
      ensures match old(Get(subnetToInfo, subnet))
              case Some(i) => to == Some(i.key) && Reaches(i.key, ToSubnet(subnet)) && lookup == None
              case None => to == None && lookup == Some(SubnetKeyOf(subnet))
    {
      hide SubnetOf, SubnetKeyOf, Reaches, Coherent, Grows, HeldIn, Separate;
      to, lookup, made := None, None, null;
      ghost var before := Value();
      if subnet in subnetToInfo {
        var info := subnetToInfo[subnet];
        to := Some(info.key);
        EntryReaches(before, ToSubnet(subnet));
        written, writes := written[|requests| := info.key], writes + 1;
        requests := requests + [Request(ToSubnet(subnet), packet)];
        assert HeldIn(addrBuffer) == before.addrHeld && HeldIn(subnetBuffer) == before.subnetHeld;
        assert Value() == Send(before, ToSubnet(subnet), packet, made) by { hide HeldIn; }
      } else {
        made := HoldForSubnet(subnet, packet);
        var k := SubnetGetKey(subnet);
        lookup := Some(k);
      }
      hide Send, Value;
      SendCoherent(before, ToSubnet(subnet), packet, made);
    }

    // Takes the packet held back for an address out of its buffer.
    method TakeAddress(addr: seq<byte>, ghost key: seq<byte>) returns (packets: seq<seq<byte>>)
      requires Separate()
      modifies `addrBuffer, `written, `writes
      ensures Separate() && Value() == Flush(old(Value()), ToAddress(addr), key)
      ensures packets == Packets(Waiting(old(Value()), ToAddress(addr)))
    {
      hide Flush, Packets;
      packets := [];
      ghost var before := Value();
      if addr in addrBuffer {
        packets := [addrBuffer[addr].packet];
        written, writes := written[addrBuffer[addr].serial := key], writes + 1;
        addrBuffer := addrBuffer - {addr};
        assert HeldIn(addrBuffer) == before.addrHeld - {addr};
      }
      FlushHeld(before, addr, key);
    }

    method TakeSubnet(subnet: seq<byte>, ghost key: seq<byte>) returns (packets: seq<seq<byte>>)
      requires Separate()
      modifies `subnetBuffer, `written, `writes
      ensures Separate() && Value() == Flush(old(Value()), ToSubnet(subnet), key)
      ensures packets == Packets(Waiting(old(Value()), ToSubnet(subnet)))
    {
      hide Flush, Packets;
      packets := [];
      ghost var before := Value();
      if subnet in subnetBuffer {
        packets := [subnetBuffer[subnet].packet];
        written, writes := written[subnetBuffer[subnet].serial := key], writes + 1;
        subnetBuffer := subnetBuffer - {subnet};
        assert HeldIn(subnetBuffer) == before.subnetHeld - {subnet};
      }
      FlushHeld(before, subnet, key);
    }

    method AddRecord(k: seq<byte>) returns (info: KeyInfo)
      requires Separate() && |k| == KEY_SIZE
      modifies `keyToInfo, `addrToInfo, `subnetToInfo
      ensures fresh(info) && info.Valid() && info.key == k && keyToInfo == old(keyToInfo)[k := info] && Separate()
      ensures Value() == WithRecord(old(Value()), k, info)
    {
      hide AddressOf, SubnetOf, HeldIn;
      info := new KeyInfo(k);
      keyToInfo := keyToInfo[k := info];
      addrToInfo := addrToInfo[info.address := info];
      subnetToInfo := subnetToInfo[info.subnet := info];
    }

    // Returns the record of the key and the packets that are now written to it.
    method Update(key: seq<byte>) returns (info: KeyInfo, packets: seq<seq<byte>>)
      requires Valid()
      modifies this
      ensures info.Valid() && info.key == KeyArray(key) && (fresh(info) <==> KeyArray(key) !in old(keyToInfo))
      ensures Valid() && Value() == Learn(old(Value()), KeyArray(key), info)
      ensures KeyArray(key) in keyToInfo && keyToInfo[KeyArray(key)] == info
      ensures var v := old(Value());
              packets == if KeyArray(key) in old(keyToInfo) then []
                         else Packets(Waiting(v, ToAddress(info.address))) + Packets(Waiting(v, ToSubnet(info.subnet)))
    {
      hide AddressOf, SubnetOf, Coherent, Grows, Flush, KeyArray;
      ghost var before := Value();
      var k := KeyArray(key);
      packets := [];
      if k in keyToInfo {
        info := keyToInfo[k];
        RecordOf(before, k);
      } else {
        info := AddRecord(k);
        var first := TakeAddress(info.address, k);
        var second := TakeSubnet(info.subnet, k);
        packets := first + second;
      }
      LearnCoherent(before, k, info);
    }

    static method DeleteOwn(index: map<seq<byte>, KeyInfo>, k: seq<byte>, info: KeyInfo)
      returns (m: map<seq<byte>, KeyInfo>)
      ensures m == Without(index, k, info)
    {
      m := index;
      if k in m && m[k] == info { m := m - {k}; }
    }

    // The cleanup a record's timer runs, whenever it runs.
    method ExpireInfo(info: KeyInfo)
      requires Valid() && info.Valid()
      modifies this
      ensures Valid() && Value() == Expire(old(Value()), info)
    {
      hide AddressOf, SubnetOf, Coherent, Grows, Without;
      ghost var before := Value();
      keyToInfo := DeleteOwn(keyToInfo, info.key, info);
      addrToInfo := DeleteOwn(addrToInfo, info.address, info);
      subnetToInfo := DeleteOwn(subnetToInfo, info.subnet, info);
      assert HeldIn(addrBuffer) == before.addrHeld && HeldIn(subnetBuffer) == before.subnetHeld;
      assert Value() == Expire(before, info) by { hide HeldIn; }
      hide Expire, Value;
      ExpireCoherent(before, info);
    }

    // The cleanup a buffer's timer runs, for the buffer the timer was made for.
    method ExpireAddrBuffer(addr: seq<byte>, buf: Buffer)
      requires Valid()
      modifies this
      ensures Valid() && Value() == Discard(old(Value()), ToAddress(addr), buf)
    {
      hide Coherent, Discard;
      ghost var before := Value();
      if addr in addrBuffer && addrBuffer[addr] == buf {
        dropped := dropped + {buf.serial};
        addrBuffer := addrBuffer - {addr};
        assert HeldIn(addrBuffer) == before.addrHeld - {addr};
      }
      DiscardHeld(before, addr, buf);
      DiscardCoherent(before, ToAddress(addr), buf);
    }

    method ExpireSubnetBuffer(subnet: seq<byte>, buf: Buffer)
      requires Valid()
      modifies this
      ensures Valid() && Value() == Discard(old(Value()), ToSubnet(subnet), buf)
    {
      hide Coherent, Discard;
      ghost var before := Value();
      if subnet in subnetBuffer && subnetBuffer[subnet] == buf {
        dropped := dropped + {buf.serial};
        subnetBuffer := subnetBuffer - {subnet};
        assert HeldIn(subnetBuffer) == before.subnetHeld - {subnet};
      }
      DiscardHeld(before, subnet, buf);
      DiscardCoherent(before, ToSubnet(subnet), buf);
    }
  }
}
