// The subdirectories of one directory brought in line with the local disk, by name.
module DirSubdirs {
  import opened Options
  import opened DirTree
  import opened DirUpdate
  import opened DirLocal

  // ---- The old subdirectories that stay ----

  // The list after the sweep from its i-th entry on: the last entry takes the place of one that is
  // not wanted.
  function NamedOnly(n: Slots, ds: seq<nat>, wanted: set<string>, i: nat): (r: seq<nat>)
    requires i <= |ds|
    decreases |ds| - i
  {
    if i == |ds| then ds
    else if DirName(n, ds[i]) in wanted then NamedOnly(n, ds, wanted, i + 1)
    else NamedOnly(n, SwapPop(ds, i), wanted, i)
  }

  // Exactly the wanted ones are left.
  lemma {:induction false} NamedOnlyIs(n: Slots, ds: seq<nat>, wanted: set<string>, i: nat)
    requires i <= |ds| && NoDup(ds) && forall j :: 0 <= j < i ==> DirName(n, ds[j]) in wanted
    ensures var r := NamedOnly(n, ds, wanted, i);
            NoDup(r) && forall c :: c in r <==> c in ds && DirName(n, c) in wanted
    decreases |ds| - i
  {
    hide NoDup, SwapPop;
    if i < |ds| {
      if DirName(n, ds[i]) in wanted {
        NamedOnlyIs(n, ds, wanted, i + 1);
      } else {
        SwapPopSame(ds, i);
        SwapPopFirst(ds, i);
        NamedOnlyIs(n, SwapPop(ds, i), wanted, i);
      }
    }
  }

  lemma SwapPopFirst(ds: seq<nat>, i: nat)
    requires i < |ds|
    ensures SwapPop(ds, i)[..i] == ds[..i]
    ensures forall j :: 0 <= j < i ==> SwapPop(ds, i)[j] == ds[j]
  {}

  // ---- The slots with fewer subdirectories ----

  ghost function SubSet(n: Slots, depth: seq<nat>, s: set<nat>): set<nat>
    requires Tree(n, depth)
  {
    set c, i | c in s && i in Sub(n, depth, c) :: i
  }

  // Directory d lists only the given ones of its subdirectories; the subtrees of the others are gone.
  ghost function Reduced(n: Slots, depth: seq<nat>, d: nat, cur: seq<nat>): (r: Slots)
    requires Tree(n, depth) && IsDir(n, d)
    ensures |r| == |n|
  {
    Emptied(n[d := Some(n[d].value.(subdirs := cur))], Dropped(n, depth, d, cur))
  }

  ghost function Dropped(n: Slots, depth: seq<nat>, d: nat, cur: seq<nat>): set<nat>
    requires Tree(n, depth) && IsDir(n, d)
  {
    SubSet(n, depth, ToSet(n[d].value.subdirs) - ToSet(cur))
  }

  predicate SomeOf(cur: seq<nat>, ds: seq<nat>) {
    NoDup(cur) && forall c :: c in cur ==> c in ds
  }

  // Nothing has moved from one subtree to another.
  ghost predicate SameSubs(n: Slots, m: Slots, depth: seq<nat>)
    requires Tree(n, depth) && Tree(m, depth)
  {
    && (forall i: nat :: Live(m, i) ==> Live(n, i))
    && (forall x: nat, i: nat :: Live(m, i) ==> (i in Sub(m, depth, x) <==> i in Sub(n, depth, x)))
  }

  lemma NothingDropped(n: Slots, depth: seq<nat>, d: nat)
    requires Tree(n, depth) && IsDir(n, d)
    ensures Reduced(n, depth, d, n[d].value.subdirs) == n && Dropped(n, depth, d, n[d].value.subdirs) == {}
    ensures SomeOf(n[d].value.subdirs, n[d].value.subdirs) && SameSubs(n, n, depth)
  {
    assert GoodDir(n, depth, d);
    assert n[d].value.(subdirs := n[d].value.subdirs) == n[d].value;
  }

  // Neither d nor anything below a subdirectory that stays is dropped.
  lemma StaysWhole(n: Slots, depth: seq<nat>, d: nat, cur: seq<nat>, c: nat)
    requires Tree(n, depth) && IsDir(n, d) && SomeOf(cur, n[d].value.subdirs) && c in cur
    ensures IsDir(n, c) && c != d && d !in Sub(n, depth, c)
    ensures forall x :: x in Sub(n, depth, c) ==> x !in Dropped(n, depth, d, cur)
  {
    var ds := n[d].value.subdirs;
    var k :| 0 <= k < |ds| && ds[k] == c;
    SubdirFacts(n, depth, d, k);
    assert GoodDir(n, depth, d);
    forall x | x in Sub(n, depth, c)
      ensures x !in Dropped(n, depth, d, cur)
    {
      if x in Dropped(n, depth, d, cur) {
        var e :| e in ds && e !in cur && x in Sub(n, depth, e);
        assert ChildOf(n, depth, d, e) && ChildOf(n, depth, d, c);
        LevelDisjoint(n, depth, c, e, x);
      }
    }
  }

  lemma SelfStays(n: Slots, depth: seq<nat>, d: nat, cur: seq<nat>)
    requires Tree(n, depth) && IsDir(n, d)
    ensures d !in Dropped(n, depth, d, cur) && Reduced(n, depth, d, cur)[d] == Some(n[d].value.(subdirs := cur))
  {
    if d in Dropped(n, depth, d, cur) {
      var e :| e in n[d].value.subdirs && d in Sub(n, depth, e);
      var k :| 0 <= k < |n[d].value.subdirs| && n[d].value.subdirs[k] == e;
      SubdirFacts(n, depth, d, k);
    }
  }

  // One more subdirectory goes.
  lemma DropOneMore(n: Slots, depth: seq<nat>, d: nat, cur: seq<nat>, i: nat)
    requires Tree(n, depth) && IsDir(n, d) && SomeOf(cur, n[d].value.subdirs) && i < |cur|
    requires var m := Reduced(n, depth, d, cur); Tree(m, depth) && SameSubs(n, m, depth)
    ensures var m := Reduced(n, depth, d, cur);
            && IsDir(m, d) && m[d].value.subdirs == cur && SomeOf(SwapPop(cur, i), n[d].value.subdirs)
            && Pruned(m, depth, d, i) == Reduced(n, depth, d, SwapPop(cur, i))
            && Tree(Pruned(m, depth, d, i), depth) && SameSubs(n, Pruned(m, depth, d, i), depth)
            && IsDir(Pruned(m, depth, d, i), d) && Pruned(m, depth, d, i)[d].value.subdirs == SwapPop(cur, i)
            && HashesIn(m, Sub(m, depth, cur[i])) == HashesIn(n, Sub(n, depth, cur[i]))
            && Dropped(n, depth, d, SwapPop(cur, i)) == Dropped(n, depth, d, cur) + Sub(n, depth, cur[i])
  {
    hide Tree, Sub, SwapPop, NoDup, Reduced, Dropped, Pruned, SameSubs, HashesIn;
    var m := Reduced(n, depth, d, cur);
    SelfStays(n, depth, d, cur);
    SelfStays(n, depth, d, SwapPop(cur, i));
    SwapPopSame(cur, i);
    SameBelow(n, depth, d, cur, cur[i]);
    DroppedMore(n, depth, d, cur, i);
    PrunedTree(m, depth, d, i);
    PrunedReduced(n, depth, d, cur, i);
    SameSubsMore(n, m, depth, d, i);
  }

  lemma SameBelow(n: Slots, depth: seq<nat>, d: nat, cur: seq<nat>, c: nat)
    requires Tree(n, depth) && IsDir(n, d) && SomeOf(cur, n[d].value.subdirs) && c in cur
    requires var m := Reduced(n, depth, d, cur); Tree(m, depth) && SameSubs(n, m, depth)
    ensures var m := Reduced(n, depth, d, cur);
            && Sub(m, depth, c) == Sub(n, depth, c) && IsDir(m, c) && m[c] == n[c]
            && HashesIn(m, Sub(m, depth, c)) == HashesIn(n, Sub(n, depth, c))
  {
    var m := Reduced(n, depth, d, cur);
    StaysWhole(n, depth, d, cur, c);
    SubStep(n, depth, c, c);
    hide Dropped, Tree;
    forall i | i in Sub(n, depth, c)
      ensures i in Sub(m, depth, c) && m[i] == n[i]
    {
      assert m[i] == n[i];
      assert Live(m, i);
    }
    assert forall i :: i in Sub(m, depth, c) ==> Live(m, i);
  }

  lemma DroppedMore(n: Slots, depth: seq<nat>, d: nat, cur: seq<nat>, i: nat)
    requires Tree(n, depth) && IsDir(n, d) && SomeOf(cur, n[d].value.subdirs) && i < |cur|
    ensures Dropped(n, depth, d, SwapPop(cur, i)) == Dropped(n, depth, d, cur) + Sub(n, depth, cur[i])
  {
    SwapPopSame(cur, i);
    hide Tree, Sub, SwapPop;
    var ds := n[d].value.subdirs;
    assert ToSet(ds) - ToSet(SwapPop(cur, i)) == ToSet(ds) - ToSet(cur) + {cur[i]};
  }

  lemma PrunedReduced(n: Slots, depth: seq<nat>, d: nat, cur: seq<nat>, i: nat)
    requires Tree(n, depth) && IsDir(n, d) && i < |cur|
    requires var m := Reduced(n, depth, d, cur);
             && Tree(m, depth) && IsDir(m, d) && m[d] == Some(n[d].value.(subdirs := cur))
             && Sub(m, depth, cur[i]) == Sub(n, depth, cur[i])
    requires Dropped(n, depth, d, SwapPop(cur, i)) == Dropped(n, depth, d, cur) + Sub(n, depth, cur[i])
    ensures Pruned(Reduced(n, depth, d, cur), depth, d, i) == Reduced(n, depth, d, SwapPop(cur, i))
  {
    hide Tree, Sub, SwapPop, Dropped;
  }

  lemma SameSubsMore(n: Slots, m: Slots, depth: seq<nat>, d: nat, i: nat)
    requires Tree(n, depth) && Tree(m, depth) && SameSubs(n, m, depth)
    requires IsDir(m, d) && i < |m[d].value.subdirs| && Tree(Pruned(m, depth, d, i), depth)
    ensures SameSubs(n, Pruned(m, depth, d, i), depth)
  {
    hide Tree, Sub, SwapPop, Pruned;
    var r := Pruned(m, depth, d, i);
    forall j: nat | Live(r, j)
      ensures Live(n, j)
    {
      PrunedWithin(m, depth, d, i, 0, j);
    }
    forall x: nat, j: nat | Live(r, j)
      ensures j in Sub(r, depth, x) <==> j in Sub(n, depth, x)
    {
      PrunedWithin(m, depth, d, i, x, j);
    }
  }

  // ---- The new subdirectories ----

  // The directory created for a name in a given slot of directory d.
  function NewNamed(d: nat, slot: nat, name: string, parent: Hash, seed: Hash,
                    hashOf: (string, Hash, Hash) -> Hash): Node {
    Dir(d, slot, DirInfo(name, hashOf(name, parent, seed), 0, 0, 0, 0), [], [])
  }

  function ParentHash(m: Slots, d: nat): Hash
    requires IsDir(m, d)
  {
    m[d].value.dir.hash
  }

  // The slots with a new subdirectory of d at their end for each name.
  ghost function WithNew(m: Slots, d: nat, names: seq<string>, seed: Hash,
                         hashOf: (string, Hash, Hash) -> Hash): (r: Slots)
    requires IsDir(m, d)
    ensures IsDir(r, d) && |r| == |m| + |names| && ParentHash(r, d) == ParentHash(m, d)
  {
    if names == [] then m
    else
      var r := WithNew(m, d, names[..|names| - 1], seed, hashOf);
      AddedDir(r, d, NewNamed(d, |r|, names[|names| - 1], ParentHash(r, d), seed, hashOf))
  }

  lemma WithNewSnoc(m: Slots, d: nat, names: seq<string>, x: string, seed: Hash, hashOf: (string, Hash, Hash) -> Hash)
    requires IsDir(m, d)
    ensures var r := WithNew(m, d, names, seed, hashOf);
            WithNew(m, d, names + [x], seed, hashOf) ==
              AddedDir(r, d, NewNamed(d, |r|, x, ParentHash(r, d), seed, hashOf))
  {
    assert (names + [x])[..|names|] == names;
  }

  function From(k: nat, count: nat): (s: seq<nat>)
    ensures |s| == count
  {
    seq(count, j => k + j)
  }

  // The old slots but d are as they were, d lists the new ones behind the others, and each new slot
  // holds an empty directory of its name.
  lemma {:induction false} WithNewIs(m: Slots, d: nat, names: seq<string>, seed: Hash,
                                     hashOf: (string, Hash, Hash) -> Hash)
    requires IsDir(m, d)
    ensures var r := WithNew(m, d, names, seed, hashOf);
            && (forall i :: 0 <= i < |m| && i != d ==> r[i] == m[i])
            && r[d] == Some(m[d].value.(subdirs := m[d].value.subdirs + From(|m|, |names|)))
            && (forall j :: 0 <= j < |names| ==>
                  r[|m| + j] == Some(NewNamed(d, |m| + j, names[j], ParentHash(m, d), seed, hashOf)))
  {
    if names == [] {
      assert m[d].value.subdirs + From(|m|, 0) == m[d].value.subdirs;
    } else {
      var most := names[..|names| - 1];
      WithNewIs(m, d, most, seed, hashOf);
      hide NewNamed;
      assert From(|m|, |names|) == From(|m|, |most|) + [|m| + |most|];
      assert m[d].value.subdirs + From(|m|, |names|) == m[d].value.subdirs + From(|m|, |most|) + [|m| + |most|];
    }
  }

  // A new subdirectory has its given name, the hash made of that name, of the hash of the directory it
  // is in and of the seed, and nothing in it.
  lemma NewDirectoryIs(n: Slots, depth: seq<nat>, d: nat, wanted: set<string>, names: seq<string>, seed: Hash,
                       hashOf: (string, Hash, Hash) -> Hash, j: nat)
    requires Tree(n, depth) && IsDir(n, d) && j < |names|
    ensures var r, c := Listing(n, depth, d, wanted, names, seed, hashOf), |n| + j;
            && IsDir(r, d) && c in r[d].value.subdirs && IsDir(r, c) && r[c].value.parent == d
            && r[c].value.dir == DirInfo(names[j], hashOf(names[j], n[d].value.dir.hash, seed), 0, 0, 0, 0)
            && r[c].value.subdirs == [] && r[c].value.subfiles == []
  {
    ListingIs(n, depth, d, wanted, names, seed, hashOf);
    hide Listing, SubSet, Unwanted, Tree;
    var r, c := Listing(n, depth, d, wanted, names, seed, hashOf), |n| + j;
    assert r[|n| + j] == Some(NewNamed(d, c, names[j], ParentHash(n, d), seed, hashOf));
  }

  // ---- The whole update ----

  // The slots after the update: the subtrees of unwanted names are gone, a new directory is there
  // for each missing name, and nothing else has changed.
  ghost function Listing(n: Slots, depth: seq<nat>, d: nat, wanted: set<string>, names: seq<string>, seed: Hash,
                         hashOf: (string, Hash, Hash) -> Hash): (r: Slots)
    requires Tree(n, depth) && IsDir(n, d)
    ensures |r| == |n| + |names|
  {
    SelfStays(n, depth, d, NamedOnly(n, n[d].value.subdirs, wanted, 0));
    WithNew(Reduced(n, depth, d, NamedOnly(n, n[d].value.subdirs, wanted, 0)), d, names, seed, hashOf)
  }

  // The names that had no directory, once each.
  ghost predicate Missing(n: Slots, d: nat, wanted: set<string>, names: seq<string>)
    requires IsDir(n, d)
  {
    NoDup(names) && forall x :: x in names <==> x in wanted && x !in DirNames(n, n[d].value.subdirs)
  }

  lemma {:induction false} MissingCount(names: seq<string>, missing: set<string>)
    requires NoDup(names) && forall x :: x in names <==> x in missing
    ensures |names| == |missing|
  {
    if names == [] {
      assert missing == {};
    } else {
      var last := names[|names| - 1];
      var most := names[..|names| - 1];
      assert names == most + [last];
      assert last in names;
      MissingCount(most, missing - {last});
    }
  }

  ghost function Unwanted(n: Slots, d: nat, wanted: set<string>): set<nat>
    requires IsDir(n, d)
  {
    set c | c in n[d].value.subdirs && DirName(n, c) !in wanted
  }

  lemma ListingMade(n: Slots, depth: seq<nat>, d: nat, wanted: set<string>, names: seq<string>, seed: Hash,
                    hashOf: (string, Hash, Hash) -> Hash)
    requires Tree(n, depth) && IsDir(n, d)
    ensures var cur := NamedOnly(n, n[d].value.subdirs, wanted, 0);
            && IsDir(Reduced(n, depth, d, cur), d) && |Reduced(n, depth, d, cur)| == |n|
            && ParentHash(Reduced(n, depth, d, cur), d) == ParentHash(n, d)
            && Listing(n, depth, d, wanted, names, seed, hashOf) ==
                 WithNew(Reduced(n, depth, d, cur), d, names, seed, hashOf)
            && Dropped(n, depth, d, cur) == SubSet(n, depth, Unwanted(n, d, wanted))
  {
    hide Sub, WithNew;
    var cur := NamedOnly(n, n[d].value.subdirs, wanted, 0);
    assert GoodDir(n, depth, d);
    NamedOnlyIs(n, n[d].value.subdirs, wanted, 0);
    SelfStays(n, depth, d, cur);
    hide Tree, NamedOnly, SubSet;
    assert ToSet(n[d].value.subdirs) - ToSet(cur) == Unwanted(n, d, wanted);
  }

  // Slot by slot: what the update makes of every node.
  lemma ListingIs(n: Slots, depth: seq<nat>, d: nat, wanted: set<string>, names: seq<string>, seed: Hash,
                  hashOf: (string, Hash, Hash) -> Hash)
    requires Tree(n, depth) && IsDir(n, d)
    ensures var r := Listing(n, depth, d, wanted, names, seed, hashOf);
            var gone := SubSet(n, depth, Unwanted(n, d, wanted));
            && (forall i :: 0 <= i < |n| && i != d ==> r[i] == if i in gone then None else n[i])
            && (forall j :: 0 <= j < |names| ==>
                  r[|n| + j] == Some(NewNamed(d, |n| + j, names[j], ParentHash(n, d), seed, hashOf)))
            && IsDir(r, d) && r[d] == Some(n[d].value.(subdirs := r[d].value.subdirs))
            && (forall c :: c in r[d].value.subdirs <==>
                  (c in n[d].value.subdirs && DirName(n, c) in wanted) || |n| <= c < |n| + |names|)
  {
    hide Tree, Sub, NewNamed, NamedOnly, WithNew, Dropped, Unwanted;
    var cur := NamedOnly(n, n[d].value.subdirs, wanted, 0);
    ListingMade(n, depth, d, wanted, names, seed, hashOf);
    NamedHere(n, depth, d, wanted);
    SelfStays(n, depth, d, cur);
    WithNewIs(Reduced(n, depth, d, cur), d, names, seed, hashOf);
    NewSlots(|n|, |names|);
    hide Listing, SubSet, DirName;
  }

  lemma NamedHere(n: Slots, depth: seq<nat>, d: nat, wanted: set<string>)
    requires Tree(n, depth) && IsDir(n, d)
    ensures forall c :: c in NamedOnly(n, n[d].value.subdirs, wanted, 0) <==>
                          c in n[d].value.subdirs && DirName(n, c) in wanted
  {
    assert GoodDir(n, depth, d);
    NamedOnlyIs(n, n[d].value.subdirs, wanted, 0);
  }

  lemma NewSlots(k: nat, count: nat)
    ensures forall c: nat :: c in From(k, count) <==> k <= c < k + count
  {
    forall c: nat | k <= c < k + count
      ensures c in From(k, count)
    {
      assert From(k, count)[c - k] == c;
    }
  }

  // The subdirectories then have exactly the wanted names.
  lemma ListingNames(n: Slots, depth: seq<nat>, d: nat, wanted: set<string>, names: seq<string>, seed: Hash,
                     hashOf: (string, Hash, Hash) -> Hash)
    requires Tree(n, depth) && IsDir(n, d) && Missing(n, d, wanted, names)
    ensures var r := Listing(n, depth, d, wanted, names, seed, hashOf);
            IsDir(r, d) && DirNames(r, r[d].value.subdirs) == wanted
  {
    hide Sub;
    var r := Listing(n, depth, d, wanted, names, seed, hashOf);
    ListingIs(n, depth, d, wanted, names, seed, hashOf);
    forall c | c in n[d].value.subdirs && DirName(n, c) in wanted
      ensures c < |n| && r[c] == n[c]
    {
      WantedStays(n, depth, d, wanted, c);
    }
    hide Tree, Listing;
    forall x | x in wanted
      ensures x in DirNames(r, r[d].value.subdirs)
    {
      if x in names {
        var j :| 0 <= j < |names| && names[j] == x;
        assert |n| + j in r[d].value.subdirs && DirName(r, |n| + j) == x;
      } else {
        var c :| c in n[d].value.subdirs && DirName(n, c) == x;
        assert c in r[d].value.subdirs && DirName(r, c) == x;
      }
    }
    forall c | c in r[d].value.subdirs
      ensures DirName(r, c) in wanted
    {
      if c >= |n| { assert DirName(r, c) == names[c - |n|]; }
    }
  }

  lemma WantedStays(n: Slots, depth: seq<nat>, d: nat, wanted: set<string>, c: nat)
    requires Tree(n, depth) && IsDir(n, d) && c in n[d].value.subdirs && DirName(n, c) in wanted
    ensures c < |n| && c != d && c !in SubSet(n, depth, Unwanted(n, d, wanted))
  {
    var cur := NamedOnly(n, n[d].value.subdirs, wanted, 0);
    assert GoodDir(n, depth, d);
    NamedOnlyIs(n, n[d].value.subdirs, wanted, 0);
    StaysWhole(n, depth, d, cur, c);
    SubStep(n, depth, c, c);
    assert ToSet(n[d].value.subdirs) - ToSet(cur) == Unwanted(n, d, wanted);
  }

  // ---- The sweep half way ----

  // The entries before the i-th have wanted names, and those names are no longer missing.
  ghost predicate SweptNames(n: Slots, ds: seq<nat>, cur: seq<nat>, wanted: set<string>, i: nat, missing: set<string>)
  {
    && i <= |cur| && NoDup(ds)
    && NamedOnly(n, cur, wanted, i) == NamedOnly(n, ds, wanted, 0)
    && missing == wanted - DirNames(n, cur[..i])
  }

  lemma NothingSwept(n: Slots, depth: seq<nat>, d: nat, wanted: set<string>)
    requires Tree(n, depth) && IsDir(n, d)
    ensures SweptNames(n, n[d].value.subdirs, n[d].value.subdirs, wanted, 0, wanted)
  {
    assert GoodDir(n, depth, d);
    assert DirNames(n, n[d].value.subdirs[..0]) == {};
  }

  lemma SweptNext(n: Slots, ds: seq<nat>, cur: seq<nat>, wanted: set<string>, i: nat, missing: set<string>)
    requires SweptNames(n, ds, cur, wanted, i, missing) && i < |cur|
    ensures if DirName(n, cur[i]) in wanted then SweptNames(n, ds, cur, wanted, i + 1, missing - {DirName(n, cur[i])})
            else SweptNames(n, ds, SwapPop(cur, i), wanted, i, missing)
  {
    hide DirNames;
    DirNamesSnoc(n, cur, i);
    SwapPopFirst(cur, i);
  }

  lemma SweptEnd(n: Slots, ds: seq<nat>, cur: seq<nat>, wanted: set<string>, i: nat, missing: set<string>)
    requires SweptNames(n, ds, cur, wanted, i, missing) && i == |cur|
    ensures cur == NamedOnly(n, ds, wanted, 0) && missing == wanted - DirNames(n, ds)
  {
    NamedOnlyIs(n, ds, wanted, 0);
    assert cur[..i] == cur;
  }

  lemma NoHashesDropped(n: Slots, depth: seq<nat>, d: nat, index: map<Hash, nat>)
    requires Tree(n, depth) && IsDir(n, d)
    ensures index - HashesIn(n, Dropped(n, depth, d, n[d].value.subdirs)) == index
  {
    NothingDropped(n, depth, d);
  }

  lemma HashesDropped(n: Slots, depth: seq<nat>, d: nat, cur: seq<nat>, i: nat, index: map<Hash, nat>)
    requires Tree(n, depth) && IsDir(n, d) && i < |cur|
    requires Dropped(n, depth, d, SwapPop(cur, i)) == Dropped(n, depth, d, cur) + Sub(n, depth, cur[i])
    ensures index - HashesIn(n, Dropped(n, depth, d, cur)) - HashesIn(n, Sub(n, depth, cur[i]))
         == index - HashesIn(n, Dropped(n, depth, d, SwapPop(cur, i)))
  {
    hide HashesIn, Dropped;
    HashesUnion(n, Dropped(n, depth, d, cur), Sub(n, depth, cur[i]));
  }

  // ---- The hashes of the new ones ----

  // The names made so far and one of those left.
  lemma NameMade(missing: set<string>, left: set<string>, names: seq<string>, x: string)
    requires left <= missing && NoDup(names) && x in left && forall y :: y in names <==> y in missing - left
    ensures NoDup(names + [x]) && forall y :: y in names + [x] <==> y in missing - (left - {x})
  {
    assert forall i :: 0 <= i < |names| ==> names[i] in names;
    assert forall y :: y in names + [x] <==> y in names || y == x;
  }

  function HashesFor(names: seq<string>, parent: Hash, seed: Hash, hashOf: (string, Hash, Hash) -> Hash): (s: seq<Hash>)
    ensures |s| == |names|
  {
    seq(|names|, j requires 0 <= j < |names| => hashOf(names[j], parent, seed))
  }

  lemma NoneNew(m: Slots, d: nat, seed: Hash, hashOf: (string, Hash, Hash) -> Hash, index: map<Hash, nat>)
    requires IsDir(m, d)
    ensures WithNew(m, d, [], seed, hashOf) == m && NoDup<string>([])
    ensures Linked(index, HashesFor([], ParentHash(m, d), seed, hashOf), From(|m|, 0)) == index
  {}

  lemma LinkedNew(index: map<Hash, nat>, m: Slots, d: nat, names: seq<string>, x: string, seed: Hash,
                  hashOf: (string, Hash, Hash) -> Hash)
    requires IsDir(m, d)
    ensures var parent := ParentHash(m, d);
            var before := Linked(index, HashesFor(names, parent, seed, hashOf), From(|m|, |names|));
            Linked(index, HashesFor(names + [x], parent, seed, hashOf), From(|m|, |names| + 1)) ==
              before[hashOf(x, parent, seed) := |m| + |names|]
  {
    var parent := ParentHash(m, d);
    assert HashesFor(names + [x], parent, seed, hashOf) ==
      HashesFor(names, parent, seed, hashOf) + [hashOf(x, parent, seed)];
    assert From(|m|, |names| + 1) == From(|m|, |names|) + [|m| + |names|];
    LinkedSnoc(index, HashesFor(names, parent, seed, hashOf), From(|m|, |names|), hashOf(x, parent, seed),
               |m| + |names|);
  }
}
