// What becomes of a packet handed to the store, read off the events of the run.
module KeyFates {
  import opened Words
  import opened Address
  import opened Options
  import opened KeyStore

  // ---- One step ----

  // A packet for a resolved destination is written to the record's key at once; any other is held,
  // in the buffer that is in place or else in a new one.
  lemma SentNow(v: View, d: Destination, packet: seq<byte>, b: Buffer)
    ensures var v', n := Step(v, Sending(d, packet, b)), |v.requests|;
            match Resolved(v, d)
            case Some(i) => n in v'.written && v'.written[n] == i.key && Waiting(v', d) == Waiting(v, d)
            case None =>
              Waiting(v', d) == Some(Held(if Waiting(v, d).Some? then Waiting(v, d).value.buffer else b, n, packet))
  {}

  // The events that end the wait of a packet for d: its key is learned, a later packet takes its
  // place, or the timer of its buffer fires.
  ghost predicate EndsWait(v: View, e: Event, d: Destination) {
    match e
    case Learning(key, i) => key !in v.keys && Reaches(i.key, d)
    case Sending(to, _, _) => to == d
    case Discarding(to, b) => to == d && Waiting(v, d).Some? && Waiting(v, d).value.buffer == b
    case Expiring(_) => false
  }

  // A learned key gets the packet; otherwise the packet is lost.
  ghost predicate EndedWith(v': View, e: Event, n: nat) {
    if e.Learning? then n in v'.written && v'.written[n] == e.key else n in v'.dropped
  }

  lemma WaitStep(v: View, e: Event, d: Destination)
    requires Coherent(v) && Possible(e) && Waiting(v, d).Some?
    ensures if EndsWait(v, e, d) then EndedWith(Step(v, e), e, Waiting(v, d).value.serial)
            else Waiting(Step(v, e), d) == Waiting(v, d)
  {
    hide AddressOf, SubnetOf, Reaches, Indexed, Exclusive, Faithful, Accounted, Waiting, Send, Learn, Expire, Discard;
    match e
    case Sending(to, packet, b) => ReplacedWait(v, to, packet, b, d);
    case Discarding(to, b) => DiscardedWait(v, to, b, d);
    case Expiring(i) => ExpiredWait(v, i, d);
    case Learning(key, i) => LearnedWait(v, key, i, d);
  }

  lemma ReplacedWait(v: View, to: Destination, packet: seq<byte>, b: Buffer, d: Destination)
    requires Exclusive(v) && Waiting(v, d).Some?
    ensures var v' := Send(v, to, packet, b);
            if to == d then Waiting(v, d).value.serial in v'.dropped else Waiting(v', d) == Waiting(v, d)
  {
    if Resolved(v, to).Some? {
      SentElsewhere(v, to, packet, b, d);
    } else {
      hide Send, Waiting, Resolved;
      var h := SendHolds(v, to, packet, b);
    }
  }

  lemma SentElsewhere(v: View, to: Destination, packet: seq<byte>, b: Buffer, d: Destination)
    requires Exclusive(v) && Waiting(v, d).Some? && Resolved(v, to).Some?
    ensures to != d && Waiting(Send(v, to, packet, b), d) == Waiting(v, d)
  {}

  lemma DiscardedWait(v: View, to: Destination, b: Buffer, d: Destination)
    requires Waiting(v, d).Some?
    ensures var v' := Discard(v, to, b);
            if to == d && Waiting(v, d).value.buffer == b then Waiting(v, d).value.serial in v'.dropped
            else Waiting(v', d) == Waiting(v, d)
  {}

  lemma ExpiredWait(v: View, i: KeyInfo, d: Destination)
    ensures Waiting(Expire(v, i), d) == Waiting(v, d)
  {}

  lemma LearnedWait(v: View, key: seq<byte>, i: KeyInfo, d: Destination)
    requires i.Valid() && i.key == key && Waiting(v, d).Some?
    ensures var v', n := Learn(v, key, i), Waiting(v, d).value.serial;
            if key !in v.keys && Reaches(key, d) then n in v'.written && v'.written[n] == key
              else Waiting(v', d) == Waiting(v, d)
  {
    hide AddressOf, SubnetOf, Flush;
    if key in v.keys { return; }
    var v2, a, s := WithRecord(v, key, i), ToAddress(i.address), ToSubnet(i.subnet);
    assert forall e :: Waiting(v2, e) == Waiting(v, e);
    FlushFrame(v2, a, key);
    FlushFrame(Flush(v2, a, key), s, key);
    Flushed(v2, a, key, Waiting(v, d).value.serial);
    Flushed(Flush(v2, a, key), s, key, Waiting(v, d).value.serial);
  }

  // A flush writes the packet of its destination, and what was written to this key stays so.
  lemma Flushed(v: View, d: Destination, key: seq<byte>, n: nat)
    ensures var v' := Flush(v, d, key);
            && (Waiting(v, d).Some? && Waiting(v, d).value.serial == n ==> n in v'.written && v'.written[n] == key)
            && (n in v.written && v.written[n] == key ==> n in v'.written && v'.written[n] == key)
  {}

  // ---- Whole runs ----

  ghost function After(events: seq<Event>, j: nat): View
    requires j <= |events|
  {
    Run(Empty, events[..j])
  }

  lemma AfterNext(events: seq<Event>, j: nat)
    requires j < |events|
    ensures After(events, j + 1) == Step(After(events, j), events[j])
  {
    assert events[..j + 1][..j] == events[..j];
  }

  lemma AfterCoherent(events: seq<Event>, j: nat)
    requires j <= |events| && forall e :: e in events ==> Possible(e)
    ensures Coherent(After(events, j))
  {
    forall e | e in events[..j]
      ensures Possible(e)
    {
      assert e in events;
    }
    RunCoherent(events[..j], 0);
  }

  // The k-th event hands over a packet for a destination nothing is known of.
  ghost predicate Unresolved(events: seq<Event>, k: nat)
    requires k < |events|
  {
    events[k].Sending? && Resolved(After(events, k), events[k].d).None?
  }

  // No event since the k-th and before the j-th ends the wait of its packet.
  ghost predicate NotEnded(events: seq<Event>, k: nat, j: nat)
    requires k < j <= |events| && events[k].Sending?
  {
    forall m :: k < m < j ==> !EndsWait(After(events, m), events[m], events[k].d)
  }

  lemma {:induction false} StillHeld(events: seq<Event>, k: nat, j: nat)
    requires k < j <= |events| && forall e :: e in events ==> Possible(e)
    requires Unresolved(events, k) && NotEnded(events, k, j)
    ensures var w := Waiting(After(events, j), events[k].d);
            w.Some? && w.value.serial == |After(events, k).requests| && w.value.packet == events[k].packet
  {
    hide Step, Waiting, Resolved, Coherent, Possible, After, EndsWait;
    AfterNext(events, j - 1);
    if j == k + 1 {
      SentNow(After(events, k), events[k].d, events[k].packet, events[k].b);
    } else {
      StillHeld(events, k, j - 1);
      AfterCoherent(events, j - 1);
      assert events[j - 1] in events;
      WaitStep(After(events, j - 1), events[j - 1], events[k].d);
    }
  }

  lemma LaterGrows(events: seq<Event>, j: nat)
    requires j <= |events| && forall e :: e in events ==> Possible(e)
    ensures Grows(After(events, j), Run(Empty, events))
  {
    RunCoherent(events, j);
  }

  // A packet sent to a destination that was resolved went to the key it was resolved to.
  lemma ResolvedFate(events: seq<Event>, k: nat)
    requires k < |events| && forall e :: e in events ==> Possible(e)
    requires events[k].Sending? && Resolved(After(events, k), events[k].d).Some?
    ensures var v, n := Run(Empty, events), |After(events, k).requests|;
            n in v.written && v.written[n] == Resolved(After(events, k), events[k].d).value.key
  {
    hide Step, Waiting, Resolved, Coherent, Possible, After, EndsWait;
    AfterNext(events, k);
    SentNow(After(events, k), events[k].d, events[k].packet, events[k].b);
    LaterGrows(events, k + 1);
  }

  // Any other packet waits until the first event that ends its wait, and then has the fate that
  // event gives it.
  lemma EndedFate(events: seq<Event>, k: nat, m: nat)
    requires k < m < |events| && forall e :: e in events ==> Possible(e)
    requires Unresolved(events, k) && NotEnded(events, k, m)
    requires EndsWait(After(events, m), events[m], events[k].d)
    ensures EndedWith(Run(Empty, events), events[m], |After(events, k).requests|)
  {
    hide Step, Waiting, Resolved, Coherent, Possible, After, EndsWait;
    StillHeld(events, k, m);
    AfterCoherent(events, m);
    assert events[m] in events;
    WaitStep(After(events, m), events[m], events[k].d);
    AfterNext(events, m);
    LaterGrows(events, m + 1);
  }

  // It is still held when there was no such event.
  lemma HeldFate(events: seq<Event>, k: nat)
    requires k < |events| && forall e :: e in events ==> Possible(e)
    requires Unresolved(events, k) && NotEnded(events, k, |events|)
    ensures var w := Waiting(Run(Empty, events), events[k].d);
            w.Some? && w.value.serial == |After(events, k).requests| && w.value.packet == events[k].packet
  {
    StillHeld(events, k, |events|);
    assert events[..|events|] == events;
  }
}
