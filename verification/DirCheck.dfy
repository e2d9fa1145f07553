// The consistency check of the slots: what a clean slot array is, and what one pass of the check
// makes of any other.
module DirCheck {
  import opened Options
  import opened DirTree

  // The child references of a slot.
  function Refs(n: Slots, k: nat): seq<nat> {
    if IsDir(n, k) then n[k].value.subdirs + n[k].value.subfiles else []
  }

  // All references lead to slots other than the first, and no two lead to the same.
  ghost predicate RefsGood(n: Slots) {
    && (forall k: nat :: NoDup(Refs(n, k)))
    && (forall k: nat, c: nat :: c in Refs(n, k) ==> 0 < c < |n|)
    && (forall k: nat, l: nat, c: nat :: c in Refs(n, k) && c in Refs(n, l) ==> k == l)
  }

  ghost predicate Referenced(n: Slots, c: nat) {
    exists k: nat :: c in Refs(n, k)
  }

  // Nothing for the check to repair. It does not look at the kinds of the children, at empty
  // children or at cycles.
  ghost predicate Clean(n: Slots) {
    RefsGood(n) && forall c: nat :: Live(n, c) && c != 0 ==> Referenced(n, c)
  }

  // Every well-formed tree is clean.
  lemma TreeClean(n: Slots, depth: seq<nat>)
    requires Tree(n, depth)
    ensures Clean(n)
  {
    forall k: nat
      ensures NoDup(Refs(n, k))
      ensures forall c: nat :: c in Refs(n, k) ==> 0 < c < |n| && n[c].Some? && n[c].value.parent == k
    {
      if IsDir(n, k) { TreeRefs(n, depth, k); }
    }
    forall c: nat | Live(n, c) && c != 0
      ensures Referenced(n, c)
    {
      assert Listed(n, c);
      assert c in Refs(n, n[c].value.parent);
    }
  }

  lemma TreeRefs(n: Slots, depth: seq<nat>, k: nat)
    requires Tree(n, depth) && IsDir(n, k)
    ensures NoDup(Refs(n, k))
    ensures forall c: nat :: c in Refs(n, k) ==> 0 < c < |n| && n[c].Some? && n[c].value.parent == k
  {
    GoodKids(n, depth, k);
    hide Tree;
    var ds, fs := n[k].value.subdirs, n[k].value.subfiles;
    forall i, j | 0 <= i < |ds| && 0 <= j < |fs|
      ensures ds[i] != fs[j]
    {
      assert ds[i] in ds && fs[j] in fs;
    }
  }

  // ---- One list swept ----

  // The list after the sweep from its j-th entry on: the last entry takes the place of one that is
  // out of range or already hit.
  function Sifted(list: seq<nat>, j: nat, hit: set<nat>, size: nat): (r: seq<nat>)
    requires j <= |list|
    decreases |list| - j
  {
    if j == |list| then list
    else if list[j] >= size || list[j] in hit then Sifted(SwapPop(list, j), j, hit, size)
    else Sifted(list, j + 1, hit + {list[j]}, size)
  }

  // What the sweep keeps: once each, the slots that exist and were not hit before.
  ghost predicate SweptList(list: seq<nat>, kept: seq<nat>, hit: set<nat>, size: nat) {
    && NoDup(kept) && |kept| <= |list|
    && (forall c :: c in kept <==> c in list && c < size && c !in hit)
    && (|kept| == |list| ==> kept == list)
  }

  lemma SiftedIs(list: seq<nat>, hit: set<nat>, size: nat)
    ensures SweptList(list, Sifted(list, 0, hit, size), hit, size)
  {
    SiftedFrom(list, 0, hit, size);
  }

  lemma {:induction false} SiftedFrom(list: seq<nat>, j: nat, hit: set<nat>, size: nat)
    requires j <= |list| && NoDup(list[..j]) && forall i :: 0 <= i < j ==> list[i] in hit
    ensures var r := Sifted(list, j, hit, size);
            && NoDup(r) && j <= |r| <= |list| && (|r| == |list| ==> r == list)
            && (forall c :: c in r <==> c in list[..j] || (c in list && c < size && c !in hit))
    decreases |list| - j
  {
    hide SwapPop, NoDup;
    if j == |list| {
      assert list[..j] == list;
    } else if list[j] >= size || list[j] in hit {
      SwapPopRest(list, j);
      SiftedFrom(SwapPop(list, j), j, hit, size);
    } else {
      NoDupNext(list, j, hit);
      assert list[..j + 1] == list[..j] + [list[j]];
      SiftedFrom(list, j + 1, hit + {list[j]}, size);
    }
  }

  lemma SwapPopRest(list: seq<nat>, j: nat)
    requires j < |list|
    ensures var r := SwapPop(list, j);
            && |r| == |list| - 1 && r[..j] == list[..j] && (forall i :: 0 <= i < j ==> r[i] == list[i])
            && (forall c :: c in r ==> c in list) && (forall c :: c in list && c != list[j] ==> c in r)
  {
    var r := SwapPop(list, j);
    assert forall i :: 0 <= i < |r| ==> r[i] == if i == j then list[|list| - 1] else list[i];
    forall c | c in list && c != list[j]
      ensures c in r
    {
      var i :| 0 <= i < |list| && list[i] == c;
      assert if i == |list| - 1 then r[j] == c else r[i] == c;
    }
  }

  lemma NoDupNext(list: seq<nat>, j: nat, hit: set<nat>)
    requires j < |list| && NoDup(list[..j]) && list[j] !in hit && forall i :: 0 <= i < j ==> list[i] in hit
    ensures NoDup(list[..j + 1])
  {
    assert forall i :: 0 <= i < j ==> list[..j][i] == list[i];
  }

  lemma {:induction false} NoDupSize(s: seq<nat>)
    requires NoDup(s)
    ensures |ToSet(s)| == |s|
  {
    if s != [] {
      var most := s[..|s| - 1];
      NoDupSize(most);
      assert s == most + [s[|s| - 1]];
      assert ToSet(s) == ToSet(most) + {s[|s| - 1]};
    }
  }

  // A list of slots that exist, were not hit and are distinct is kept as it is.
  lemma GoodListKept(list: seq<nat>, kept: seq<nat>, hit: set<nat>, size: nat)
    requires SweptList(list, kept, hit, size) && NoDup(list)
    requires forall c :: c in list ==> c < size && c !in hit
    ensures kept == list
  {
    assert ToSet(list) == ToSet(kept);
    NoDupSize(list);
    NoDupSize(kept);
  }

  // ---- The first pass: every list of every directory swept, in the order of the slots ----

  // The slots reached by way of the first i slots, and the first slot itself.
  ghost function HitBefore(n: Slots, i: nat): (s: set<nat>) {
    set c | 0 <= c < |n| && (c == 0 || ReferencedBefore(n, i, c))
  }

  ghost predicate ReferencedBefore(n: Slots, i: nat, c: nat) {
    exists k: nat :: k < i && c in Refs(n, k)
  }

  // The subdirectories of a directory are swept before its files.
  ghost function SiftedDir(n: Slots, i: nat): (d: Node)
    requires IsDir(n, i)
    ensures d.Dir? && d == n[i].value.(subdirs := d.subdirs, subfiles := d.subfiles)
  {
    var hit := HitBefore(n, i);
    var ds := Sifted(n[i].value.subdirs, 0, hit, |n|);
    n[i].value.(subdirs := ds, subfiles := Sifted(n[i].value.subfiles, 0, hit + ToSet(ds), |n|))
  }

  ghost function SiftedSlot(n: Slots, i: nat): Option<Node>
    requires i < |n|
  {
    if IsDir(n, i) then Some(SiftedDir(n, i)) else n[i]
  }

  // The first i slots are swept.
  ghost predicate Stamped(n: Slots, m: Slots, i: nat) {
    |m| == |n| && i <= |n| && forall k :: 0 <= k < |n| ==> m[k] == if k < i then SiftedSlot(n, k) else n[k]
  }

  lemma StampNothing(n: Slots)
    requires n != []
    ensures Stamped(n, n, 0) && HitBefore(n, 0) == {0}
  {}

  lemma StampOther(n: Slots, m: Slots, i: nat)
    requires Stamped(n, m, i) && i < |n| && !IsDir(m, i)
    ensures m[i] == n[i] && Stamped(n, m, i + 1) && HitBefore(n, i + 1) == HitBefore(n, i)
  {
    hide SiftedDir;
    assert Refs(n, i) == [];
  }

  lemma StampedHere(n: Slots, m: Slots, i: nat)
    requires Stamped(n, m, i) && i < |n|
    ensures |m| == |n| && m[i] == n[i]
  {}

  // What the sweep of one directory keeps and hits.
  lemma SiftedParts(n: Slots, i: nat)
    requires IsDir(n, i)
    ensures var d, was := SiftedDir(n, i), n[i].value;
            && SweptList(was.subdirs, d.subdirs, HitBefore(n, i), |n|)
            && SweptList(was.subfiles, d.subfiles, HitBefore(n, i) + ToSet(d.subdirs), |n|)
            && HitBefore(n, i + 1) == HitBefore(n, i) + ToSet(d.subdirs) + ToSet(d.subfiles)
  {
    hide HitBefore, SweptList;
    var d, was, hit := SiftedDir(n, i), n[i].value, HitBefore(n, i);
    SiftedIs(was.subdirs, hit, |n|);
    SiftedIs(was.subfiles, hit + ToSet(d.subdirs), |n|);
    HitNext(n, i, d.subdirs, d.subfiles);
  }

  lemma HitNext(n: Slots, i: nat, ds: seq<nat>, fs: seq<nat>)
    requires IsDir(n, i) && SweptList(n[i].value.subdirs, ds, HitBefore(n, i), |n|)
    requires SweptList(n[i].value.subfiles, fs, HitBefore(n, i) + ToSet(ds), |n|)
    ensures HitBefore(n, i + 1) == HitBefore(n, i) + ToSet(ds) + ToSet(fs)
  {
    hide NoDup;
    assert forall c :: c in Refs(n, i) <==> c in n[i].value.subdirs || c in n[i].value.subfiles;
    hide Refs;
    forall c: nat | c < |n|
      ensures c in HitBefore(n, i + 1) <==> c in HitBefore(n, i) || c in ToSet(ds) || c in ToSet(fs)
    {
      if c in Refs(n, i) && c !in HitBefore(n, i) { assert c in ToSet(ds) || c in ToSet(fs); }
      if c in HitBefore(n, i + 1) && c !in HitBefore(n, i) { assert c in Refs(n, i); }
    }
  }

  lemma StampDir(n: Slots, m: Slots, i: nat, r: Slots)
    requires Stamped(n, m, i) && IsDir(m, i) && IsDir(n, i) && r == m[i := Some(SiftedDir(n, i))]
    ensures Stamped(n, r, i + 1)
  {
    hide SiftedDir;
  }

  lemma SweptSame(n: Slots, i: nat)
    requires IsDir(n, i)
    ensures var d, was := SiftedDir(n, i), n[i].value;
            |d.subdirs| == |was.subdirs| && |d.subfiles| == |was.subfiles| <==> d == was
  {
    SiftedParts(n, i);
    hide SiftedDir;
  }

  // ---- The second pass: nodes that nothing leads to are deleted ----

  ghost function Orphans(m: Slots, hit: set<nat>, i: nat): set<nat> {
    set c | 0 <= c < i && c < |m| && c !in hit && m[c].Some?
  }

  lemma OrphansSnoc(m: Slots, hit: set<nat>, i: nat)
    requires i < |m|
    ensures Orphans(m, hit, i + 1) == Orphans(m, hit, i) + if i !in hit && m[i].Some? then {i} else {}
    ensures Orphans(m, hit, 0) == {} && i !in Orphans(m, hit, i)
  {}

  lemma NoOrphans(m: Slots, hit: set<nat>)
    ensures Orphans(m, hit, 0) == {}
  {}

  // The result of a whole check, slot by slot: swept, and empty unless it is the first or something
  // referred to it.
  ghost predicate Checked(n: Slots, r: Slots) {
    |r| == |n| && forall i :: 0 <= i < |n| ==> r[i] == if i == 0 || Referenced(n, i) then SiftedSlot(n, i) else None
  }

  lemma CheckDone(n: Slots, m: Slots)
    requires Stamped(n, m, |n|)
    ensures var orphans := Orphans(m, HitBefore(n, |n|), |n|);
            && Checked(n, Emptied(m, orphans))
            && (Emptied(m, orphans) == n <==> m == n && orphans == {})
  {
    var orphans := Orphans(m, HitBefore(n, |n|), |n|);
    var r := Emptied(m, orphans);
    forall i: nat | i < |n|
      ensures i in HitBefore(n, |n|) <==> i == 0 || Referenced(n, i)
    {
      HitAtEnd(n, i);
    }
    hide HitBefore, Referenced, SiftedDir;
    assert orphans == {} ==> r == m;
    forall c | c in orphans
      ensures c < |n| && r[c] != n[c]
    {
    }
  }

  lemma HitAtEnd(n: Slots, i: nat)
    requires i < |n|
    ensures i in HitBefore(n, |n|) <==> i == 0 || Referenced(n, i)
  {
    if Referenced(n, i) {
      var k: nat :| i in Refs(n, k);
      assert k < |n|;
    }
  }

  // ---- What a check keeps ----

  // Of the slots that refer to c, k is the first.
  ghost predicate First(n: Slots, k: nat, c: nat) {
    c in Refs(n, k) && forall l: nat :: l < k ==> c !in Refs(n, l)
  }

  lemma FirstExists(n: Slots, c: nat) returns (k: nat)
    requires Referenced(n, c)
    ensures First(n, k, c)
  {
    hide Refs;
    var some: nat :| c in Refs(n, some);
    k := 0;
    while c !in Refs(n, k)
      invariant k <= some && forall l: nat :: l < k ==> c !in Refs(n, l)
      decreases some - k
    {
      k := k + 1;
    }
  }

  // The references that a swept directory keeps: those to slots it is the first to refer to.
  lemma SiftedRefs(n: Slots, k: nat, c: nat)
    requires IsDir(n, k)
    ensures var d := SiftedDir(n, k);
            c in d.subdirs + d.subfiles <==> 0 < c < |n| && First(n, k, c)
  {
    SiftedParts(n, k);
    hide SiftedDir, NoDup;
    var d, was := SiftedDir(n, k), n[k].value;
    assert c in was.subdirs + was.subfiles <==> c in was.subdirs || c in was.subfiles;
    assert c in d.subdirs + d.subfiles <==> c in d.subdirs || c in d.subfiles;
    assert Refs(n, k) == was.subdirs + was.subfiles;
    hide Refs;
  }

  lemma SiftedNoDup(n: Slots, k: nat)
    requires IsDir(n, k)
    ensures var d := SiftedDir(n, k); NoDup(d.subdirs + d.subfiles)
  {
    SiftedParts(n, k);
    hide SiftedDir, HitBefore;
    var ds, fs := SiftedDir(n, k).subdirs, SiftedDir(n, k).subfiles;
    forall a, b | 0 <= a < |ds| && 0 <= b < |fs|
      ensures ds[a] != fs[b]
    {
      assert ds[a] in ToSet(ds) && fs[b] in fs;
    }
  }

  // A reference survives the check exactly when it leads to an existing slot other than the first, no
  // earlier slot refers to it, and the node that holds it survives.
  lemma CheckedRefs(n: Slots, r: Slots, k: nat, c: nat)
    requires Checked(n, r)
    ensures c in Refs(r, k) <==> 0 < c < |n| && First(n, k, c) && (k == 0 || Referenced(n, k))
    ensures NoDup(Refs(r, k))
  {
    hide SiftedDir, NoDup, Referenced;
    NoDupNone();
    if IsDir(n, k) {
      SiftedRefs(n, k, c);
      SiftedNoDup(n, k);
    }
  }

  lemma NoDupNone()
    ensures NoDup<nat>([])
  {}

  lemma CheckedGood(n: Slots, r: Slots)
    requires Checked(n, r)
    ensures RefsGood(r)
  {
    hide Refs, NoDup, Referenced, SiftedDir, Checked, First;
    forall k: nat
      ensures NoDup(Refs(r, k))
    {
      CheckedRefs(n, r, k, 0);
    }
    forall k: nat, c: nat | c in Refs(r, k)
      ensures 0 < c < |n|
    {
      CheckedRefs(n, r, k, c);
    }
    forall k: nat, l: nat, c: nat | c in Refs(r, k) && c in Refs(r, l)
      ensures k == l
    {
      CheckedRefs(n, r, k, c);
      CheckedRefs(n, r, l, c);
      OneFirst(n, k, l, c);
    }
    SameSize(n, r);
  }

  lemma OneFirst(n: Slots, k: nat, l: nat, c: nat)
    requires First(n, k, c) && First(n, l, c)
    ensures k == l
  {}

  lemma SameSize(n: Slots, r: Slots)
    requires Checked(n, r)
    ensures |r| == |n|
  {}

  // No deleted node was the first to refer to a live one.
  ghost predicate SettledByOne(n: Slots) {
    forall k: nat, c: nat :: c != 0 && Live(n, c) && First(n, k, c) ==> k == 0 || Referenced(n, k)
  }

  // One check is enough exactly then.
  lemma CleanNextIff(n: Slots, r: Slots)
    requires Checked(n, r)
    ensures Clean(r) <==> SettledByOne(n)
  {
    CheckedGood(n, r);
    hide RefsGood, SiftedDir;
    if SettledByOne(n) {
      forall c: nat | Live(r, c) && c != 0
        ensures Referenced(r, c)
      {
        SettledStays(n, r, c);
      }
    }
    if Clean(r) {
      forall k: nat, c: nat | c != 0 && Live(n, c) && First(n, k, c)
        ensures k == 0 || Referenced(n, k)
      {
        StaysSettled(n, r, k, c);
      }
    }
  }

  lemma SettledStays(n: Slots, r: Slots, c: nat)
    requires Checked(n, r) && SettledByOne(n) && Live(r, c) && c != 0
    ensures Referenced(r, c)
  {
    hide SiftedDir, Refs;
    var k := FirstExists(n, c);
    CheckedRefs(n, r, k, c);
  }

  lemma StaysSettled(n: Slots, r: Slots, k: nat, c: nat)
    requires Checked(n, r) && Clean(r) && c != 0 && Live(n, c) && First(n, k, c)
    ensures k == 0 || Referenced(n, k)
  {
    hide SiftedDir, Refs, RefsGood;
    assert Referenced(n, c) && Live(r, c) && Referenced(r, c);
    var l: nat :| c in Refs(r, l);
    CheckedRefs(n, r, l, c);
    assert l == k;
  }

  // A directory that nothing leads to, with a directory in it: the first check makes the inner one
  // an orphan.
  lemma OrphansAgain(r: Slots)
    requires Checked([Some(Dir(0, 0, DirInfo("", NO_HASH, 0, 0, 0, 0), [], [])),
                      Some(Dir(0, 0, DirInfo("a", 1, 0, 0, 0, 0), [2], [])),
                      Some(Dir(1, 0, DirInfo("b", 2, 0, 0, 0, 0), [], []))], r)
    ensures Live(r, 2) && !Clean(r)
  {
    var n := [Some(Dir(0, 0, DirInfo("", NO_HASH, 0, 0, 0, 0), [], [])),
              Some(Dir(0, 0, DirInfo("a", 1, 0, 0, 0, 0), [2], [])),
              Some(Dir(1, 0, DirInfo("b", 2, 0, 0, 0, 0), [], []))];
    assert Refs(n, 1) == [2];
    assert forall k: nat :: k != 1 ==> Refs(n, k) == [];
    assert First(n, 1, 2) && Referenced(n, 2) && !Referenced(n, 1);
    hide SiftedDir, Clean;
    CleanNextIff(n, r);
  }

  // ---- A check changes nothing exactly when the slots are clean ----

  lemma UnchangedIsClean(n: Slots, r: Slots)
    requires Checked(n, r)
    ensures r == n ==> Clean(n)
  {
    CheckedGood(n, r);
    hide RefsGood, SiftedDir;
  }

  lemma CleanUnchanged(n: Slots, r: Slots)
    requires Checked(n, r) && Clean(n)
    ensures r == n
  {
    hide SiftedDir, Referenced;
    forall i: nat | IsDir(n, i)
      ensures SiftedDir(n, i) == n[i].value
    {
      CleanSifted(n, i);
    }
    hide RefsGood;
    assert forall i :: 0 <= i < |n| && n[i].None? ==> SiftedSlot(n, i) == None;
  }

  lemma CleanSifted(n: Slots, i: nat)
    requires RefsGood(n) && IsDir(n, i)
    ensures SiftedDir(n, i) == n[i].value
  {
    SiftedParts(n, i);
    var d, was, hit := SiftedDir(n, i), n[i].value, HitBefore(n, i);
    hide SiftedDir;
    assert Refs(n, i) == was.subdirs + was.subfiles && NoDup(Refs(n, i));
    ListsOfGood(was.subdirs, was.subfiles);
    NotYetHit(n, i);
    assert forall c :: c in was.subdirs || c in was.subfiles ==> c in Refs(n, i);
    hide RefsGood, Refs, HitBefore, SweptList;
    GoodListKept(was.subdirs, d.subdirs, hit, |n|);
    GoodListKept(was.subfiles, d.subfiles, hit + ToSet(d.subdirs), |n|);
  }

  lemma NotYetHit(n: Slots, i: nat)
    requires RefsGood(n)
    ensures forall c: nat :: c in Refs(n, i) ==> c < |n| && c !in HitBefore(n, i)
  {
    hide Refs, NoDup;
  }

  lemma ListsOfGood(ds: seq<nat>, fs: seq<nat>)
    requires NoDup(ds + fs)
    ensures NoDup(ds) && NoDup(fs) && forall c :: c in fs ==> c !in ds
  {
    forall a, b | 0 <= a < b < |ds|
      ensures ds[a] != ds[b]
    {
      assert (ds + fs)[a] == ds[a] && (ds + fs)[b] == ds[b];
    }
    forall a, b | 0 <= a < b < |fs|
      ensures fs[a] != fs[b]
    {
      assert (ds + fs)[|ds| + a] == fs[a] && (ds + fs)[|ds| + b] == fs[b];
    }
    forall a, b | 0 <= a < |ds| && 0 <= b < |fs|
      ensures ds[a] != fs[b]
    {
      assert (ds + fs)[a] == ds[a] && (ds + fs)[|ds| + b] == fs[b];
    }
  }

  // ---- How much there is to repair ----

  function Weight(s: Option<Node>): nat {
    match s
    case None => 0
    case Some(File(_, _, _)) => 1
    case Some(Dir(_, _, _, ds, fs)) => 1 + |ds| + |fs|
  }

  // Live nodes and references.
  function Measure(n: Slots): nat {
    if n == [] then 0 else Measure(n[..|n| - 1]) + Weight(n[|n| - 1])
  }

  lemma {:induction false} MeasureLess(n: Slots, m: Slots)
    requires |n| == |m| && forall i :: 0 <= i < |n| ==> Weight(m[i]) <= Weight(n[i])
    ensures Measure(m) <= Measure(n)
    ensures (exists i :: 0 <= i < |n| && Weight(m[i]) < Weight(n[i])) ==> Measure(m) < Measure(n)
  {
    if n != [] {
      MeasureLess(n[..|n| - 1], m[..|m| - 1]);
    }
  }

  // Each check that changes something leaves less to check.
  lemma CheckedLess(n: Slots, r: Slots)
    requires Checked(n, r) && r != n
    ensures Measure(r) < Measure(n)
  {
    hide SiftedDir, Referenced, Weight;
    forall i: nat | i < |n|
      ensures Weight(r[i]) <= Weight(n[i]) && (Weight(r[i]) == Weight(n[i]) ==> r[i] == n[i])
    {
      LighterSlot(n, i);
    }
    var i :| 0 <= i < |n| && r[i] != n[i];
    MeasureLess(n, r);
  }

  lemma LighterSlot(n: Slots, i: nat)
    requires i < |n|
    ensures Weight(SiftedSlot(n, i)) <= Weight(n[i])
    ensures Weight(SiftedSlot(n, i)) == Weight(n[i]) ==> SiftedSlot(n, i) == n[i]
    ensures Weight(None) <= Weight(n[i]) && (Weight(None) == Weight(n[i]) ==> n[i] == None)
  {
    if IsDir(n, i) {
      SiftedParts(n, i);
      SweptSame(n, i);
      hide SiftedDir;
    }
  }

  // ---- The bookkeeping of the two passes ----

  ghost predicate Hits(counts: seq<nat>, hit: set<nat>) {
    forall c :: 0 <= c < |counts| ==> (counts[c] != 0 <==> c in hit)
  }

  lemma FirstHit(counts: seq<nat>)
    requires counts != [] && counts[0] != 0 && forall c :: 0 < c < |counts| ==> counts[c] == 0
    ensures Hits(counts, {0})
  {}

  // The free list holds the empty slots among the first i.
  ghost predicate FreeBelow(n: Slots, free: seq<nat>, i: nat) {
    NoDup(free) && forall f: nat :: f in free <==> f < i && f < |n| && n[f].None?
  }

  lemma FreeNone(n: Slots)
    ensures FreeBelow(n, [], 0)
  {}

  lemma FreeNext(n: Slots, free: seq<nat>, i: nat)
    requires FreeBelow(n, free, i) && i < |n|
    ensures FreeBelow(n, if n[i].None? then free + [i] else free, i + 1)
  {}

  lemma FreeNextDir(m: Slots, r: Slots, free: seq<nat>, i: nat)
    requires FreeBelow(m, free, i) && i < |m| == |r| && m[i].Some? && r[i].Some?
    requires forall k: nat :: k < |m| && k != i ==> r[k] == m[k]
    ensures FreeBelow(r, free, i + 1)
  {}

  lemma FreeAll(n: Slots, free: seq<nat>)
    requires FreeBelow(n, free, |n|)
    ensures FreeExact(n, free)
  {}

  lemma HitOne(counts: seq<nat>, hit: set<nat>, c: nat)
    requires Hits(counts, hit) && c < |counts|
    ensures counts[c] != 0 <==> c in hit
    ensures Hits(counts[c := 1], hit + {c})
  {}

  // ---- What a clean store lacks to be a tree ----

  // Following parents from a slot ends at slot 0 within k steps.
  predicate Climbs(n: Slots, i: nat, k: nat)
    decreases k
  {
    i == 0 || (k > 0 && Live(n, i) && Climbs(n, n[i].value.parent, k - 1))
  }

  ghost predicate Anchored(n: Slots) {
    forall i: nat :: Live(n, i) ==> exists k :: Climbs(n, i, k)
  }

  // The children of a directory are live, of the right kind, and name it as their parent.
  predicate TrueParent(n: Slots, p: nat)
    requires IsDir(n, p)
  {
    && (forall c :: c in n[p].value.subdirs ==> IsDir(n, c) && n[c].value.parent == p)
    && (forall c :: c in n[p].value.subfiles ==> IsFile(n, c) && n[c].value.parent == p)
  }

  ghost predicate TrueParents(n: Slots) {
    forall p: nat :: IsDir(n, p) ==> TrueParent(n, p)
  }

  // The number of steps up to slot 0.
  ghost function Level(n: Slots, i: nat, k: nat): nat
    requires Climbs(n, i, k)
    decreases k
  {
    if i == 0 then 0 else 1 + Level(n, n[i].value.parent, k - 1)
  }

  lemma {:induction false} LevelSame(n: Slots, i: nat, k: nat, l: nat)
    requires Climbs(n, i, k) && Climbs(n, i, l)
    ensures Level(n, i, k) == Level(n, i, l)
    decreases k
  {
    if i != 0 { LevelSame(n, n[i].value.parent, k - 1, l - 1); }
  }

  ghost function LevelOf(n: Slots, i: nat): (l: nat)
    requires exists k :: Climbs(n, i, k)
    ensures forall k: nat :: Climbs(n, i, k) ==> l == Level(n, i, k)
  {
    var k: nat :| Climbs(n, i, k);
    forall j: nat | Climbs(n, i, j)
      ensures Level(n, i, k) == Level(n, i, j)
    {
      LevelSame(n, i, k, j);
    }
    Level(n, i, k)
  }

  ghost function Levels(n: Slots): (depth: seq<nat>)
    requires Anchored(n)
    ensures |depth| == |n|
  {
    seq(|n|, i requires 0 <= i < |n| => if Live(n, i) then LevelOf(n, i) else 0)
  }

  lemma LevelBelow(n: Slots, p: nat, c: nat)
    requires Anchored(n) && Live(n, c) && Live(n, p) && c != 0 && n[c].value.parent == p
    ensures Levels(n)[c] == Levels(n)[p] + 1
  {
    var k: nat :| Climbs(n, c, k);
    assert Climbs(n, p, k - 1) && Level(n, c, k) == 1 + Level(n, p, k - 1);
    assert Levels(n)[c] == LevelOf(n, c) && Levels(n)[p] == LevelOf(n, p);
  }

  lemma {:induction false} TreeClimbs(n: Slots, depth: seq<nat>, i: nat) returns (k: nat)
    requires Tree(n, depth) && Live(n, i)
    ensures Climbs(n, i, k)
    decreases if i < |depth| then depth[i] else 0
  {
    k := 0;
    if i != 0 {
      ParentAbove(n, depth, i);
      var l := TreeClimbs(n, depth, n[i].value.parent);
      k := l + 1;
    }
  }

  // A store is a tree exactly when it is clean, its first slot is a directory, children are live, of
  // the right kind and name their parent, and every live slot leads up to the first.
  lemma TreeIffClean(n: Slots)
    ensures (exists depth :: Tree(n, depth)) <==> Clean(n) && IsDir(n, 0) && TrueParents(n) && Anchored(n)
  {
    hide Tree, Clean, TrueParents, Anchored;
    if depth :| Tree(n, depth) {
      TreeClean(n, depth);
      TreeSound(n, depth);
    }
    if Clean(n) && IsDir(n, 0) && TrueParents(n) && Anchored(n) {
      CleanTree(n);
    }
  }

  lemma TreeSound(n: Slots, depth: seq<nat>)
    requires Tree(n, depth)
    ensures IsDir(n, 0) && TrueParents(n) && Anchored(n)
  {
    forall i: nat | Live(n, i)
      ensures exists k :: Climbs(n, i, k)
    {
      var k := TreeClimbs(n, depth, i);
    }
    forall p: nat | IsDir(n, p)
      ensures TrueParent(n, p)
    {
      GoodKids(n, depth, p);
    }
  }

  lemma CleanTree(n: Slots)
    requires Clean(n) && IsDir(n, 0) && TrueParents(n) && Anchored(n)
    ensures Tree(n, Levels(n))
  {
    hide Levels, Anchored;
    forall p: nat | IsDir(n, p)
      ensures GoodDir(n, Levels(n), p)
    {
      CleanDir(n, p);
    }
    forall c: nat | Live(n, c) && c != 0
      ensures Listed(n, c)
    {
      CleanListed(n, c);
    }
  }

  lemma CleanDir(n: Slots, p: nat)
    requires Clean(n) && TrueParents(n) && Anchored(n) && IsDir(n, p)
    ensures GoodDir(n, Levels(n), p)
  {
    hide Levels, Anchored;
    var ds, fs := n[p].value.subdirs, n[p].value.subfiles;
    assert Refs(n, p) == ds + fs && NoDup(Refs(n, p)) && TrueParent(n, p);
    ListsOfGood(ds, fs);
    assert forall c :: c in Refs(n, p) ==> 0 < c < |n|;
    hide Clean, TrueParents, NoDup;
    forall c | c in ds || c in fs
      ensures ChildOf(n, Levels(n), p, c)
    {
      assert c in Refs(n, p);
      LevelBelow(n, p, c);
    }
  }

  lemma CleanListed(n: Slots, c: nat)
    requires Clean(n) && TrueParents(n) && Live(n, c) && c != 0
    ensures Listed(n, c)
  {
    assert Referenced(n, c);
    var k: nat :| c in Refs(n, k);
    assert TrueParent(n, k);
  }

  // Two directories that list each other: the check leaves them alone, but they hang in the air.
  lemma CleanCycle()
    ensures var loop := [Some(Dir(0, 0, DirInfo("", NO_HASH, 0, 0, 0, 0), [], [])),
                         Some(Dir(2, 0, DirInfo("a", 1, 0, 0, 0, 0), [2], [])),
                         Some(Dir(1, 0, DirInfo("b", 2, 0, 0, 0, 0), [1], []))];
            Clean(loop) && TrueParents(loop) && !exists depth :: Tree(loop, depth)
  {
    var loop := [Some(Dir(0, 0, DirInfo("", NO_HASH, 0, 0, 0, 0), [], [])),
                 Some(Dir(2, 0, DirInfo("a", 1, 0, 0, 0, 0), [2], [])),
                 Some(Dir(1, 0, DirInfo("b", 2, 0, 0, 0, 0), [1], []))];
    assert Refs(loop, 1) == [2] && Refs(loop, 2) == [1];
    assert forall k: nat :: k != 1 && k != 2 ==> Refs(loop, k) == [];
    assert Referenced(loop, 1) && Referenced(loop, 2);
    forall depth
      ensures !Tree(loop, depth)
    {
      if Tree(loop, depth) {
        ChildDeeper(loop, depth, 1, 2);
        ChildDeeper(loop, depth, 2, 1);
        assert false;
      }
    }
  }

  lemma ChildDeeper(n: Slots, depth: seq<nat>, p: nat, c: nat)
    requires Tree(n, depth) && IsDir(n, p) && c in n[p].value.subdirs
    ensures p < |depth| && c < |depth| && depth[c] == depth[p] + 1
  {
    GoodKids(n, depth, p);
  }

  // A file listed among the subdirectories, and a subdirectory that is not there.
  lemma CleanMisfits()
    ensures var root := DirInfo("", NO_HASH, 0, 0, 0, 0);
            var wrong := [Some(Dir(0, 0, root, [1], [])), Some(File(0, 0, FileInfo("a", 1, 2, 3)))];
            Clean(wrong) && Anchored(wrong) && !exists depth :: Tree(wrong, depth)
    ensures var absent := [Some(Dir(0, 0, DirInfo("", NO_HASH, 0, 0, 0, 0), [1], [])), None];
            Clean(absent) && Anchored(absent) && !exists depth :: Tree(absent, depth)
  {
    var root := DirInfo("", NO_HASH, 0, 0, 0, 0);
    var wrong := [Some(Dir(0, 0, root, [1], [])), Some(File(0, 0, FileInfo("a", 1, 2, 3)))];
    var absent := [Some(Dir(0, 0, root, [1], [])), None];
    OneChild(wrong);
    OneChild(absent);
    assert !TrueParent(wrong, 0) && !TrueParent(absent, 0);
    TreeIffClean(wrong);
    TreeIffClean(absent);
  }

  lemma OneChild(n: Slots)
    requires |n| == 2 && IsDir(n, 0) && n[0].value.subdirs == [1] && n[0].value.subfiles == []
    requires n[1].Some? ==> n[1].value.File? && n[1].value.parent == 0
    ensures Clean(n) && Anchored(n)
  {
    assert Refs(n, 0) == [1];
    assert forall k: nat :: k != 0 ==> Refs(n, k) == [];
    assert Referenced(n, 1);
    assert Climbs(n, 0, 0);
    if Live(n, 1) { assert Climbs(n, 1, 1); }
  }
}
