// Sums and maxima over subtrees, and the two recursive sweeps that cache them in the directories.
module DirTotals {
  import opened Options
  import opened DirTree

  // ---- The total size of the files in a set of slots ----

  ghost function SizeIn(n: Slots, s: set<nat>): nat {
    if n == [] then 0 else SizeIn(n[..|n| - 1], s) + if |n| - 1 in s then SizeOf(n[|n| - 1]) else 0
  }

  lemma {:induction false} SizeInUnion(n: Slots, s: set<nat>, t: set<nat>)
    requires s !! t
    ensures SizeIn(n, s + t) == SizeIn(n, s) + SizeIn(n, t)
  {
    if n != [] { SizeInUnion(n[..|n| - 1], s, t); }
  }

  lemma {:induction false} SizeInNone(n: Slots, s: set<nat>)
    requires forall i :: i in s && i < |n| ==> SizeOf(n[i]) == 0
    ensures SizeIn(n, s) == 0
  {
    if n != [] { SizeInNone(n[..|n| - 1], s); }
  }

  lemma {:induction false} SizeInOne(n: Slots, i: nat)
    requires i < |n|
    ensures SizeIn(n, {i}) == SizeOf(n[i])
  {
    if i == |n| - 1 {
      SizeInNone(n[..|n| - 1], {i});
    } else {
      SizeInOne(n[..|n| - 1], i);
    }
  }

  lemma {:induction false} SizeInAll(n: Slots, s: set<nat>)
    requires forall i: nat :: i < |n| && i !in s ==> SizeOf(n[i]) == 0
    ensures SizeIn(n, s) == Size(n)
  {
    if n != [] { SizeInAll(n[..|n| - 1], s); }
  }

  // The files below the root are all the files.
  lemma RootSize(n: Slots, depth: seq<nat>)
    requires Tree(n, depth)
    ensures SizeIn(n, Sub(n, depth, 0)) == Size(n)
  {
    forall i: nat | i < |n| && i !in Sub(n, depth, 0)
      ensures SizeOf(n[i]) == 0
    {
      if Live(n, i) { AllBelowRoot(n, depth, i); }
    }
    SizeInAll(n, Sub(n, depth, 0));
  }

  // The parts of the sum for a directory.
  lemma SizeSplit(n: Slots, depth: seq<nat>, d: nat)
    requires Tree(n, depth) && IsDir(n, d)
    ensures SizeIn(n, Sub(n, depth, d)) ==
      SizeIn(n, ToSet(n[d].value.subfiles)) + SizeIn(n, SubAll(n, depth, n[d].value.subdirs))
  {
    var kids, files := SubAll(n, depth, n[d].value.subdirs), ToSet(n[d].value.subfiles);
    Disjoint(n, depth, d);
    SubSplit(n, depth, d);
    hide Sub, SubAll, Tree, ToSet;
    SizeInUnion(n, {d} + kids, files);
    SizeInUnion(n, {d}, kids);
    SizeInOne(n, d);
  }

  lemma Disjoint(n: Slots, depth: seq<nat>, d: nat)
    requires Tree(n, depth) && IsDir(n, d)
    ensures d !in SubAll(n, depth, n[d].value.subdirs) && d !in ToSet(n[d].value.subfiles)
    ensures SubAll(n, depth, n[d].value.subdirs) !! ToSet(n[d].value.subfiles)
  {
    var ds := n[d].value.subdirs;
    forall f | f in n[d].value.subfiles
      ensures f != d && f !in SubAll(n, depth, ds)
    {
      SubfileFacts(n, depth, d, f);
    }
    forall k | 0 <= k < |ds|
      ensures d !in Sub(n, depth, ds[k])
    {
      SubdirFacts(n, depth, d, k);
    }
  }

  lemma FileSizeSnoc(n: Slots, depth: seq<nat>, d: nat, k: nat)
    requires Tree(n, depth) && IsDir(n, d) && k < |n[d].value.subfiles|
    ensures var fs := n[d].value.subfiles;
            IsFile(n, fs[k]) && SizeIn(n, ToSet(fs[..k + 1])) == SizeIn(n, ToSet(fs[..k])) + n[fs[k]].value.file.size
  {
    hide SizeIn, ChildOf, ToSet;
    var fs := n[d].value.subfiles;
    assert NoDup(fs) && IsFile(n, fs[k]) by { assert GoodDir(n, depth, d); }
    hide Tree, GoodDir;
    NotYet(fs, k);
    FilesSnoc(fs, k);
    SizeInUnion(n, ToSet(fs[..k]), {fs[k]});
    SizeInOne(n, fs[k]);
  }

  lemma NotYet(fs: seq<nat>, k: nat)
    requires NoDup(fs) && k < |fs|
    ensures fs[k] !in ToSet(fs[..k])
  {}

  lemma DirSizeSnoc(n: Slots, depth: seq<nat>, d: nat, k: nat)
    requires Tree(n, depth) && IsDir(n, d) && k < |n[d].value.subdirs|
    ensures var ds := n[d].value.subdirs;
            SizeIn(n, SubAll(n, depth, ds[..k + 1])) ==
              SizeIn(n, SubAll(n, depth, ds[..k])) + SizeIn(n, Sub(n, depth, ds[k]))
  {
    var ds := n[d].value.subdirs;
    SubdirFacts(n, depth, d, k);
    SubAllSnoc(n, depth, ds, k);
    SizeInUnion(n, SubAll(n, depth, ds[..k]), Sub(n, depth, ds[k]));
  }

  // What a 64-bit variable holds of a number.
  function Low64(x: nat): u64 {
    x % U64
  }

  function Add64(a: u64, b: u64): u64 {
    (a as int + b) % U64
  }

  lemma LowAdd(a: nat, b: nat)
    ensures Add64(Low64(a), Low64(b)) == Low64(a + b)
  {}

  lemma LowSmall(x: nat)
    ensures x < U64 ==> Low64(x) == x
  {}

  // ---- The cached sizes ----

  // The slots with the subtree sizes stored in the directories of a set.
  ghost function Summed(m: Slots, n: Slots, depth: seq<nat>, s: set<nat>): (r: Slots)
    requires Tree(n, depth)
    ensures |r| == |m|
  {
    seq(|m|, i requires 0 <= i < |m| =>
      if i in s && IsDir(m, i) then
        Some(m[i].value.(dir := m[i].value.dir.(cumulated := Low64(SizeIn(n, Sub(n, depth, i))))))
      else m[i])
  }

  lemma SummedTwice(m: Slots, n: Slots, depth: seq<nat>, s: set<nat>, t: set<nat>)
    requires Tree(n, depth)
    ensures Summed(Summed(m, n, depth, s), n, depth, t) == Summed(m, n, depth, s + t)
    ensures Summed(m, n, depth, {}) == m
  {
    hide Tree, Sub, SizeIn, Low64;
  }

  // A sweep changes nothing but what it caches.
  ghost predicate Swept(n: Slots, m: Slots) {
    |m| == |n| && forall i :: 0 <= i < |n| ==>
      m[i] == n[i] || (IsDir(n, i) && IsDir(m, i) &&
        m[i].value ==
          n[i].value.(dir := n[i].value.dir.(cumulated := m[i].value.dir.cumulated,
                                             mostRecent := m[i].value.dir.mostRecent)))
  }

  lemma SummedSwept(n: Slots, m: Slots, depth: seq<nat>, s: set<nat>)
    requires Tree(n, depth) && Swept(n, m)
    ensures Swept(n, Summed(m, n, depth, s))
  {
    hide Tree, Sub, SizeIn, Low64;
  }

  lemma SweptTotals(n: Slots, m: Slots)
    requires Swept(n, m)
    ensures Size(m) == Size(n) && Count(m) == Count(n) && SameShape(n, m)
  {
    assert forall i :: 0 <= i < |n| ==> SizeOf(m[i]) == SizeOf(n[i]) && CountOf(m[i]) == CountOf(n[i]);
    SameTotals(n, m);
  }

  lemma {:induction false} SameTotals(n: Slots, m: Slots)
    requires |m| == |n| && forall i :: 0 <= i < |n| ==> SizeOf(m[i]) == SizeOf(n[i]) && CountOf(m[i]) == CountOf(n[i])
    ensures Size(m) == Size(n) && Count(m) == Count(n)
  {
    if n != [] { SameTotals(n[..|n| - 1], m[..|m| - 1]); }
  }

  // The parts of the sweep of a directory, put together.
  lemma SummedDir(m: Slots, n: Slots, depth: seq<nat>, d: nat)
    requires Tree(n, depth) && IsDir(n, d) && Swept(n, m)
    ensures var below := Summed(m, n, depth, SubAll(n, depth, n[d].value.subdirs));
            && IsDir(below, d) && IsDir(m, d) && below[d] == m[d]
            && below[d := Some(m[d].value.(dir := m[d].value.dir.(cumulated := Low64(SizeIn(n, Sub(n, depth, d))))))]
               == Summed(m, n, depth, Sub(n, depth, d))
  {
    hide Tree, Sub, SubAll, SizeIn, Low64;
    SubSplit(n, depth, d);
    Disjoint(n, depth, d);
    FilesAreFiles(n, depth, d);
  }

  lemma FilesAreFiles(n: Slots, depth: seq<nat>, d: nat)
    requires Tree(n, depth) && IsDir(n, d)
    ensures forall f :: f in n[d].value.subfiles ==> IsFile(n, f)
  {
    assert GoodDir(n, depth, d);
  }

  lemma NoneSummed(m: Slots, n: Slots, depth: seq<nat>, ds: seq<nat>)
    requires Tree(n, depth)
    ensures Summed(m, n, depth, SubAll(n, depth, ds[..0])) == m && SizeIn(n, SubAll(n, depth, ds[..0])) == 0
  {
    assert SubAll(n, depth, ds[..0]) == {};
    SizeInNone(n, {});
    hide Tree, Sub, SubAll, SizeIn, Low64;
  }

  // The sweep of the first k subdirectories of d leaves d alone.
  lemma SummedSelf(m: Slots, n: Slots, depth: seq<nat>, d: nat, k: nat)
    requires Tree(n, depth) && IsDir(n, d) && k <= |n[d].value.subdirs| && Swept(n, m)
    ensures IsDir(m, d) && m[d].value.subdirs == n[d].value.subdirs
    ensures Summed(m, n, depth, SubAll(n, depth, n[d].value.subdirs[..k]))[d] == m[d]
  {
    hide Tree, Sub, SizeIn, Low64;
    Disjoint(n, depth, d);
  }

  // A swept store has the directory d and its files as before.
  lemma SweptFiles(n: Slots, depth: seq<nat>, m: Slots, d: nat)
    requires Tree(n, depth) && IsDir(n, d) && Swept(n, m)
    ensures |m| == |n| && IsDir(m, d) && m[d].value.subfiles == n[d].value.subfiles
    ensures forall k :: 0 <= k < |n[d].value.subfiles| ==>
      IsFile(n, n[d].value.subfiles[k]) && m[n[d].value.subfiles[k]] == n[n[d].value.subfiles[k]]
    ensures SizeIn(n, ToSet(n[d].value.subfiles[..0])) == 0
  {
    FilesAreFiles(n, depth, d);
    SizeInNone(n, ToSet(n[d].value.subfiles[..0]));
  }

  // The sweep of one more subdirectory.
  lemma SumStep(m: Slots, n: Slots, depth: seq<nat>, d: nat, k: nat)
    requires Tree(n, depth) && IsDir(n, d) && k < |n[d].value.subdirs| && Swept(n, m)
    ensures var ds := n[d].value.subdirs;
            && IsDir(n, ds[k]) && d < |depth| && ds[k] < |depth| && depth[ds[k]] == depth[d] + 1
            && Summed(Summed(m, n, depth, SubAll(n, depth, ds[..k])), n, depth, Sub(n, depth, ds[k])) ==
                 Summed(m, n, depth, SubAll(n, depth, ds[..k + 1]))
            && Summed(m, n, depth, SubAll(n, depth, ds[..k + 1]))[d] == m[d]
            && Add64(Low64(SizeIn(n, SubAll(n, depth, ds[..k]))), Low64(SizeIn(n, Sub(n, depth, ds[k])))) ==
                 Low64(SizeIn(n, SubAll(n, depth, ds[..k + 1])))
  {
    hide Tree, Sub, SubAll, SizeIn, Summed, Low64, Add64;
    var ds := n[d].value.subdirs;
    SubdirFacts(n, depth, d, k);
    SubAllSnoc(n, depth, ds, k);
    DirSizeSnoc(n, depth, d, k);
    SummedTwice(m, n, depth, SubAll(n, depth, ds[..k]), Sub(n, depth, ds[k]));
    SummedSelf(m, n, depth, d, k + 1);
    LowAdd(SizeIn(n, SubAll(n, depth, ds[..k])), SizeIn(n, Sub(n, depth, ds[k])));
  }

  lemma SweptSelf(n: Slots)
    ensures Swept(n, n)
  {}

  lemma SweptValid(n: Slots, m: Slots, depth: seq<nat>, free: seq<nat>)
    requires Tree(n, depth) && FreeExact(n, free) && Swept(n, m)
    ensures Tree(m, depth) && FreeExact(m, free) && Size(m) == Size(n) && Count(m) == Count(n)
  {
    SweptTotals(n, m);
    ShapeTree(n, m, depth);
  }

  // ---- The latest modification time in a set of slots, unhashed files left aside ----

  function Max(a: int, b: int): int {
    if a >= b then a else b
  }

  function TimeOf(s: Option<Node>): int {
    match s
    case Some(Dir(_, _, info, _, _)) => info.modtime
    case Some(File(_, _, info)) => if info.hash != NO_HASH then info.modtime else EARLIEST
    case None => EARLIEST
  }

  // Times are 64-bit.
  const EARLIEST: int := -0x8000_0000_0000_0000

  ghost function Latest(n: Slots, s: set<nat>): int {
    if n == [] then EARLIEST
    else Max(Latest(n[..|n| - 1], s), if |n| - 1 in s then TimeOf(n[|n| - 1]) else EARLIEST)
  }

  lemma {:induction false} LatestIs(n: Slots, s: set<nat>, t: int)
    ensures Latest(n, s) <= t <==> EARLIEST <= t && forall i :: i in s && i < |n| ==> TimeOf(n[i]) <= t
  {
    if n != [] {
      LatestIs(n[..|n| - 1], s, t);
      var last := |n| - 1;
      assert last in s && TimeOf(n[last]) > t ==> exists i :: i in s && i < |n| && TimeOf(n[i]) > t;
    }
  }

  lemma LatestUnion(n: Slots, s: set<nat>, t: set<nat>)
    ensures Latest(n, s + t) == Max(Latest(n, s), Latest(n, t))
  {
    LatestIs(n, s, Latest(n, s + t));
    LatestIs(n, t, Latest(n, s + t));
    LatestIs(n, s + t, Latest(n, s + t));
    var m := Max(Latest(n, s), Latest(n, t));
    LatestIs(n, s, Latest(n, s));
    LatestIs(n, t, Latest(n, t));
    LatestIs(n, s + t, m);
  }

  lemma LatestOne(n: Slots, i: nat)
    requires i < |n|
    ensures Latest(n, {i}) == Max(EARLIEST, TimeOf(n[i]))
    ensures Latest(n, {}) == EARLIEST
  {
    LatestIs(n, {i}, Max(EARLIEST, TimeOf(n[i])));
    LatestIs(n, {i}, Latest(n, {i}));
    LatestIs(n, {}, EARLIEST);
    LatestIs(n, {}, Latest(n, {}));
  }

  ghost predicate Unhashed(n: Slots, s: set<nat>) {
    exists i :: i in s && IsFile(n, i) && n[i].value.file.hash == NO_HASH
  }

  lemma UnhashedUnion(n: Slots, s: set<nat>, t: set<nat>)
    ensures Unhashed(n, s + t) <==> Unhashed(n, s) || Unhashed(n, t)
  {}

  ghost predicate TimesInRange(n: Slots) {
    forall i :: 0 <= i < |n| ==> TimeOf(n[i]) >= EARLIEST
  }

  // ---- What the sweep computes for a directory ----

  // One second less while a file below is still to be hashed.
  function Held(t: int, unfinished: bool): int {
    if unfinished && t > 0 then t - 1 else t
  }

  // No directory lies deeper than top; below d there are top - depth[d] more levels at most.
  ghost predicate DirsWithin(n: Slots, depth: seq<nat>, top: nat) {
    forall i: nat :: IsDir(n, i) && i < |depth| ==> depth[i] <= top
  }

  ghost function Recent(n: Slots, depth: seq<nat>, top: nat, d: nat): int
    requires Tree(n, depth) && IsDir(n, d) && DirsWithin(n, depth, top)
    decreases top - depth[d], 1
  {
    Held(Max(RecentOwn(n, d), RecentBelow(n, depth, top, d, |n[d].value.subdirs|)), Unhashed(n, Sub(n, depth, d)))
  }

  ghost function RecentOwn(n: Slots, d: nat): int
    requires IsDir(n, d)
  {
    Max(n[d].value.dir.modtime, Latest(n, ToSet(n[d].value.subfiles)))
  }

  // Over the first k subdirectories.
  ghost function RecentBelow(n: Slots, depth: seq<nat>, top: nat, d: nat, k: nat): int
    requires Tree(n, depth) && IsDir(n, d) && DirsWithin(n, depth, top)
    requires k <= |n[d].value.subdirs|
    decreases top - depth[d], 0, k
  {
    if k == 0 then EARLIEST
    else
      SubdirFacts(n, depth, d, k - 1);
      Max(RecentBelow(n, depth, top, d, k - 1), Recent(n, depth, top, n[d].value.subdirs[k - 1]))
  }

  // The exact value when everything below is hashed, or when nothing is later than the epoch;
  // otherwise at least one second less, but never lower by more than one second a level, nor before
  // the epoch.
  ghost predicate Between(t: int, latest: int, unfinished: bool, levels: nat) {
    && latest - levels <= t <= latest
    && (!unfinished || latest <= 0 ==> t == latest)
    && (unfinished && latest > 0 ==> 0 <= t < latest)
  }

  lemma LatestSplit(n: Slots, depth: seq<nat>, d: nat)
    requires Tree(n, depth) && IsDir(n, d) && TimesInRange(n)
    ensures Latest(n, Sub(n, depth, d)) == Max(RecentOwn(n, d), Latest(n, SubAll(n, depth, n[d].value.subdirs)))
  {
    hide Tree, Sub, SubAll, ToSet, Latest;
    var kids, files := SubAll(n, depth, n[d].value.subdirs), ToSet(n[d].value.subfiles);
    SubSplit(n, depth, d);
    LatestUnion(n, {d} + kids, files);
    LatestUnion(n, {d}, kids);
    LatestOne(n, d);
  }

  lemma UnhashedSplit(n: Slots, depth: seq<nat>, d: nat)
    requires Tree(n, depth) && IsDir(n, d)
    ensures Unhashed(n, Sub(n, depth, d)) <==>
      Unhashed(n, ToSet(n[d].value.subfiles)) || Unhashed(n, SubAll(n, depth, n[d].value.subdirs))
  {
    hide Tree, Sub, SubAll, ToSet, Unhashed;
    var kids, files := SubAll(n, depth, n[d].value.subdirs), ToSet(n[d].value.subfiles);
    SubSplit(n, depth, d);
    UnhashedUnion(n, {d} + kids, files);
    UnhashedUnion(n, {d}, kids);
    NoneUnhashed(n, d);
  }

  lemma NoneUnhashed(n: Slots, d: nat)
    requires IsDir(n, d)
    ensures !Unhashed(n, {d}) && !Unhashed(n, {})
  {}

  lemma {:induction false} RecentBounds(n: Slots, depth: seq<nat>, top: nat, d: nat)
    requires Tree(n, depth) && IsDir(n, d) && DirsWithin(n, depth, top) && TimesInRange(n)
    ensures var s := Sub(n, depth, d);
            Between(Recent(n, depth, top, d), Latest(n, s), Unhashed(n, s), top - depth[d] + 1)
    decreases top - depth[d], 1, 0
  {
    hide Sub, SubAll, Unhashed, Latest;
    LatestSplit(n, depth, d);
    UnhashedSplit(n, depth, d);
    BelowBounds(n, depth, top, d, |n[d].value.subdirs|);
    assert n[d].value.subdirs[..|n[d].value.subdirs|] == n[d].value.subdirs;
    assert TimeOf(n[d]) >= EARLIEST;
  }

  // The same for a maximum that may not have been lowered itself.
  ghost predicate BetweenBelow(t: int, latest: int, unfinished: bool, levels: nat) {
    && EARLIEST <= t <= latest <= t + levels
    && (!unfinished || latest <= 0 ==> t == latest)
    && (latest > 0 ==> t >= 0)
  }

  lemma BetweenMax(t: int, latest: int, u: bool, t': int, latest': int, u': bool, levels: nat)
    requires BetweenBelow(t, latest, u, levels) && Between(t', latest', u', levels)
    ensures BetweenBelow(Max(t, t'), Max(latest, latest'), u || u', levels)
  {}

  lemma {:induction false} BelowBounds(n: Slots, depth: seq<nat>, top: nat, d: nat, k: nat)
    requires Tree(n, depth) && IsDir(n, d) && DirsWithin(n, depth, top) && TimesInRange(n) && k <= |n[d].value.subdirs|
    ensures d < |depth| && depth[d] <= top
    ensures var s := SubAll(n, depth, n[d].value.subdirs[..k]);
            BetweenBelow(RecentBelow(n, depth, top, d, k), Latest(n, s), Unhashed(n, s), top - depth[d])
    decreases top - depth[d], 0, k
  {
    hide Sub, Unhashed, Latest, SubAll, Tree, DirsWithin, TimesInRange, Recent, RecentBelow, BetweenBelow, Between;
    if k == 0 {
      NothingBelow(n, depth, top, d);
    } else {
      BelowStep(n, depth, top, d, k);
      BelowBounds(n, depth, top, d, k - 1);
      RecentBounds(n, depth, top, n[d].value.subdirs[k - 1]);
      BelowNext(n, depth, top, d, k);
    }
  }

  lemma BelowNext(n: Slots, depth: seq<nat>, top: nat, d: nat, k: nat)
    requires Tree(n, depth) && IsDir(n, d) && DirsWithin(n, depth, top) && 0 < k <= |n[d].value.subdirs|
    requires var kids := n[d].value.subdirs;
             var before, one := SubAll(n, depth, kids[..k - 1]), Sub(n, depth, kids[k - 1]);
             && IsDir(n, kids[k - 1]) && d < |depth| && depth[d] <= top
             && BetweenBelow(RecentBelow(n, depth, top, d, k - 1), Latest(n, before), Unhashed(n, before),
                             top - depth[d])
             && Between(Recent(n, depth, top, kids[k - 1]), Latest(n, one), Unhashed(n, one), top - depth[d])
    ensures var s := SubAll(n, depth, n[d].value.subdirs[..k]);
            BetweenBelow(RecentBelow(n, depth, top, d, k), Latest(n, s), Unhashed(n, s), top - depth[d])
  {
    hide Sub, Unhashed, Latest, SubAll, Tree, DirsWithin, Recent, RecentBelow, BetweenBelow, Between, Max;
    BelowStep(n, depth, top, d, k);
    var kids := n[d].value.subdirs;
    var before, one := SubAll(n, depth, kids[..k - 1]), Sub(n, depth, kids[k - 1]);
    BetweenMax(RecentBelow(n, depth, top, d, k - 1), Latest(n, before), Unhashed(n, before),
               Recent(n, depth, top, kids[k - 1]), Latest(n, one), Unhashed(n, one), top - depth[d]);
  }

  lemma NothingBelow(n: Slots, depth: seq<nat>, top: nat, d: nat)
    requires Tree(n, depth) && IsDir(n, d) && DirsWithin(n, depth, top)
    ensures d < |depth| && depth[d] <= top
    ensures var s := SubAll(n, depth, n[d].value.subdirs[..0]);
            BetweenBelow(RecentBelow(n, depth, top, d, 0), Latest(n, s), Unhashed(n, s), top - depth[d])
  {
    assert SubAll(n, depth, n[d].value.subdirs[..0]) == {};
    hide Tree, Sub, SubAll, Latest, Recent;
    LatestOne(n, d);
  }

  lemma BelowStep(n: Slots, depth: seq<nat>, top: nat, d: nat, k: nat)
    requires Tree(n, depth) && IsDir(n, d) && DirsWithin(n, depth, top) && 0 < k <= |n[d].value.subdirs|
    ensures var kids := n[d].value.subdirs;
            var s, before, one := SubAll(n, depth, kids[..k]), SubAll(n, depth, kids[..k - 1]),
              Sub(n, depth, kids[k - 1]);
            && IsDir(n, kids[k - 1]) && d < |depth| && kids[k - 1] < |depth|
                 && depth[kids[k - 1]] == depth[d] + 1 <= top
            && Latest(n, s) == Max(Latest(n, before), Latest(n, one))
            && (Unhashed(n, s) <==> Unhashed(n, before) || Unhashed(n, one))
            && RecentBelow(n, depth, top, d, k) ==
                 Max(RecentBelow(n, depth, top, d, k - 1), Recent(n, depth, top, kids[k - 1]))
  {
    hide Sub, Unhashed, Latest, SubAll, Tree, Recent;
    var kids := n[d].value.subdirs;
    SubdirFacts(n, depth, d, k - 1);
    SubAllSnoc(n, depth, kids, k - 1);
    LatestUnion(n, SubAll(n, depth, kids[..k - 1]), Sub(n, depth, kids[k - 1]));
    UnhashedUnion(n, SubAll(n, depth, kids[..k - 1]), Sub(n, depth, kids[k - 1]));
  }

  // The same slots, with hashes given to some of the files that had none.
  ghost predicate Hashed(n: Slots, m: Slots) {
    |m| == |n| && forall i :: 0 <= i < |n| ==>
      m[i] == n[i] || (IsFile(n, i) && IsFile(m, i) && n[i].value.file.hash == NO_HASH &&
        m[i].value == n[i].value.(file := n[i].value.file.(hash := m[i].value.file.hash)))
  }

  // Hashing the last file below a directory strictly raises its time, so that the change is seen.
  lemma HashingRaises(n: Slots, m: Slots, depth: seq<nat>, top: nat, d: nat)
    requires Tree(n, depth) && IsDir(n, d) && DirsWithin(n, depth, top) && TimesInRange(n) && TimesInRange(m)
    requires Hashed(n, m) && Unhashed(n, Sub(n, depth, d)) && !Unhashed(m, Sub(n, depth, d))
    requires Latest(m, Sub(n, depth, d)) > 0
    ensures Tree(m, depth) && IsDir(m, d) && DirsWithin(m, depth, top)
    ensures Recent(n, depth, top, d) < Recent(m, depth, top, d)
  {
    hide Tree, Sub, Recent, Latest, Unhashed, DirsWithin, Hashed, TimesInRange;
    HashedShape(n, m, d);
    ShapeTree(n, m, depth);
    ShapeSub(n, m, depth, d);
    HashedDirs(n, m, depth, top);
    RecentBounds(n, depth, top, d);
    RecentBounds(m, depth, top, d);
    LaterTimes(n, m, Sub(n, depth, d));
  }

  lemma HashedShape(n: Slots, m: Slots, d: nat)
    requires Hashed(n, m) && IsDir(n, d)
    ensures SameShape(n, m) && IsDir(m, d)
  {}

  lemma LaterTimes(n: Slots, m: Slots, s: set<nat>)
    requires Hashed(n, m) && TimesInRange(m)
    ensures Latest(n, s) <= Latest(m, s)
  {
    LatestIs(m, s, Latest(m, s));
    LatestIs(n, s, Latest(m, s));
  }

  lemma HashedDirs(n: Slots, m: Slots, depth: seq<nat>, top: nat)
    requires Hashed(n, m) && DirsWithin(n, depth, top)
    ensures DirsWithin(m, depth, top)
  {
    forall i: nat | IsDir(m, i) && i < |depth|
      ensures depth[i] <= top
    {
      assert IsDir(n, i);
    }
  }

  // ---- The cached times ----

  ghost function Marked(m: Slots, n: Slots, depth: seq<nat>, top: nat, s: set<nat>): (r: Slots)
    requires Tree(n, depth) && DirsWithin(n, depth, top)
    ensures |r| == |m|
  {
    seq(|m|, i requires 0 <= i < |m| =>
      if i in s && IsDir(m, i) && IsDir(n, i) then
        Some(m[i].value.(dir := m[i].value.dir.(mostRecent := Recent(n, depth, top, i))))
      else m[i])
  }

  lemma MarkedTwice(m: Slots, n: Slots, depth: seq<nat>, top: nat, s: set<nat>, t: set<nat>)
    requires Tree(n, depth) && DirsWithin(n, depth, top)
    ensures Marked(Marked(m, n, depth, top, s), n, depth, top, t) == Marked(m, n, depth, top, s + t)
    ensures Marked(m, n, depth, top, {}) == m
  {
    hide Tree, Recent, DirsWithin;
  }

  lemma MarkedSwept(n: Slots, m: Slots, depth: seq<nat>, top: nat, s: set<nat>)
    requires Tree(n, depth) && DirsWithin(n, depth, top) && Swept(n, m)
    ensures Swept(n, Marked(m, n, depth, top, s))
  {
    hide Tree, Recent, DirsWithin;
  }

  lemma MarkedDir(m: Slots, n: Slots, depth: seq<nat>, top: nat, d: nat)
    requires Tree(n, depth) && DirsWithin(n, depth, top) && IsDir(n, d) && Swept(n, m)
    ensures var below := Marked(m, n, depth, top, SubAll(n, depth, n[d].value.subdirs));
            && IsDir(below, d) && IsDir(m, d) && below[d] == m[d]
            && below[d := Some(m[d].value.(dir := m[d].value.dir.(mostRecent := Recent(n, depth, top, d))))]
               == Marked(m, n, depth, top, Sub(n, depth, d))
  {
    hide Tree, Sub, SubAll, Recent, DirsWithin;
    SubSplit(n, depth, d);
    Disjoint(n, depth, d);
    FilesAreFiles(n, depth, d);
  }

  lemma MarkedSelf(m: Slots, n: Slots, depth: seq<nat>, top: nat, d: nat, k: nat)
    requires Tree(n, depth) && DirsWithin(n, depth, top) && IsDir(n, d) && k <= |n[d].value.subdirs| && Swept(n, m)
    ensures IsDir(m, d) && m[d].value.subdirs == n[d].value.subdirs
    ensures Marked(m, n, depth, top, SubAll(n, depth, n[d].value.subdirs[..k]))[d] == m[d]
  {
    hide Tree, Sub, Recent, DirsWithin;
    Disjoint(n, depth, d);
  }

  lemma NoneMarked(m: Slots, n: Slots, depth: seq<nat>, top: nat, ds: seq<nat>)
    requires Tree(n, depth) && DirsWithin(n, depth, top)
    ensures Marked(m, n, depth, top, SubAll(n, depth, ds[..0])) == m && !Unhashed(n, SubAll(n, depth, ds[..0]))
  {
    hide Tree, Sub, Recent, DirsWithin;
  }

  // The sweep of one more subdirectory.
  lemma MarkStep(m: Slots, n: Slots, depth: seq<nat>, top: nat, d: nat, k: nat)
    requires Tree(n, depth) && DirsWithin(n, depth, top) && IsDir(n, d) && k < |n[d].value.subdirs| && Swept(n, m)
    ensures var ds := n[d].value.subdirs;
            && IsDir(n, ds[k]) && d < |depth| && ds[k] < |depth| && depth[ds[k]] == depth[d] + 1 && depth[ds[k]] <= top
            && Marked(Marked(m, n, depth, top, SubAll(n, depth, ds[..k])), n, depth, top, Sub(n, depth, ds[k])) ==
                 Marked(m, n, depth, top, SubAll(n, depth, ds[..k + 1]))
            && Marked(m, n, depth, top, SubAll(n, depth, ds[..k + 1]))[d] == m[d]
            && RecentBelow(n, depth, top, d, k + 1) ==
                 Max(RecentBelow(n, depth, top, d, k), Recent(n, depth, top, ds[k]))
            && (Unhashed(n, SubAll(n, depth, ds[..k + 1])) <==>
                  Unhashed(n, SubAll(n, depth, ds[..k])) || Unhashed(n, Sub(n, depth, ds[k])))
  {
    hide Tree, Sub, SubAll, Recent, Marked, Unhashed;
    var ds := n[d].value.subdirs;
    SubdirFacts(n, depth, d, k);
    SubAllSnoc(n, depth, ds, k);
    MarkedTwice(m, n, depth, top, SubAll(n, depth, ds[..k]), Sub(n, depth, ds[k]));
    MarkedSelf(m, n, depth, top, d, k + 1);
    UnhashedUnion(n, SubAll(n, depth, ds[..k]), Sub(n, depth, ds[k]));
  }

  lemma FileTimeSnoc(n: Slots, depth: seq<nat>, d: nat, k: nat)
    requires Tree(n, depth) && IsDir(n, d) && k < |n[d].value.subfiles| && TimesInRange(n)
    ensures var fs := n[d].value.subfiles;
            && IsFile(n, fs[k])
            && Latest(n, ToSet(fs[..k + 1])) == Max(Latest(n, ToSet(fs[..k])), TimeOf(n[fs[k]]))
            && (Unhashed(n, ToSet(fs[..k + 1])) <==> Unhashed(n, ToSet(fs[..k])) || n[fs[k]].value.file.hash == NO_HASH)
            && Latest(n, ToSet(fs[..0])) == EARLIEST && !Unhashed(n, ToSet(fs[..0]))
  {
    hide Latest;
    var fs := n[d].value.subfiles;
    FilesAreFiles(n, depth, d);
    assert fs[k] in fs;
    FilesSnoc(fs, k);
    LatestUnion(n, ToSet(fs[..k]), {fs[k]});
    LatestOne(n, fs[k]);
    UnhashedUnion(n, ToSet(fs[..k]), {fs[k]});
    assert ToSet(fs[..0]) == {};
  }

  lemma RecentIs(n: Slots, depth: seq<nat>, top: nat, d: nat)
    requires Tree(n, depth) && IsDir(n, d) && DirsWithin(n, depth, top) && TimesInRange(n)
    ensures Recent(n, depth, top, d) ==
      Held(Max(RecentOwn(n, d), RecentBelow(n, depth, top, d, |n[d].value.subdirs|)), Unhashed(n, Sub(n, depth, d)))
    ensures RecentOwn(n, d) >= EARLIEST
  {
    assert TimeOf(n[d]) >= EARLIEST;
  }

  lemma SweptTime(n: Slots, depth: seq<nat>, m: Slots, d: nat)
    requires Tree(n, depth) && IsDir(n, d) && Swept(n, m) && TimesInRange(n)
    ensures IsDir(m, d) && m[d].value.dir.modtime == n[d].value.dir.modtime >= EARLIEST
    ensures Latest(n, ToSet(n[d].value.subfiles[..0])) == EARLIEST && !Unhashed(n, ToSet(n[d].value.subfiles[..0]))
  {
    assert TimeOf(n[d]) >= EARLIEST;
    assert ToSet(n[d].value.subfiles[..0]) == {};
    LatestOne(n, d);
  }

  lemma DepthOf(n: Slots, depth: seq<nat>, d: nat)
    requires Tree(n, depth) && Live(n, d)
    ensures d < |depth| == |n|
  {}
}
