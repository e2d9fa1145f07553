// The tree of shared directories and files as a value: slots, parent links and child lists.
module DirTree {
  import opened Options

  const U64: int := 0x1_0000_0000_0000_0000

  type u64 = x: int | 0 <= x < U64

  // Hashes are compared and tested for null only.
  type Hash = nat
  const NO_HASH: Hash := 0

  datatype FileInfo = FileInfo(name: string, size: u64, modtime: int, hash: Hash)
  datatype DirInfo = DirInfo(name: string, hash: Hash, modtime: int, mostRecent: int, updateTime: int, cumulated: u64)

  datatype Node =
    | Dir(parent: nat, row: nat, dir: DirInfo, subdirs: seq<nat>, subfiles: seq<nat>)
    | File(parent: nat, row: nat, file: FileInfo)

  type Slots = seq<Option<Node>>

  predicate Live(n: Slots, i: nat) {
    i < |n| && n[i].Some?
  }

  predicate IsDir(n: Slots, i: nat) {
    Live(n, i) && n[i].value.Dir?
  }

  predicate IsFile(n: Slots, i: nat) {
    Live(n, i) && n[i].value.File?
  }

  predicate NoDup<T(==)>(s: seq<T>) {
    forall i, j :: 0 <= i < j < |s| ==> s[i] != s[j]
  }

  // A child list entry of directory p is a live node that names p as its parent, one level deeper.
  ghost predicate ChildOf(n: Slots, depth: seq<nat>, p: nat, c: nat) {
    c != 0 && Live(n, c) && n[c].value.parent == p && p < |depth| && c < |depth| && depth[c] == depth[p] + 1
  }

  ghost predicate GoodDir(n: Slots, depth: seq<nat>, p: nat)
    requires IsDir(n, p)
  {
    var d := n[p].value;
    && NoDup(d.subdirs) && NoDup(d.subfiles)
    && (forall c :: c in d.subdirs ==> ChildOf(n, depth, p, c) && IsDir(n, c))
    && (forall c :: c in d.subfiles ==> ChildOf(n, depth, p, c) && IsFile(n, c))
  }

  ghost predicate Listed(n: Slots, c: nat)
    requires Live(n, c)
  {
    var p := n[c].value.parent;
    IsDir(n, p) && c in if n[c].value.Dir? then n[p].value.subdirs else n[p].value.subfiles
  }

  // Every directory lists exactly the nodes that name it as their parent, and following parents
  // ends at slot 0.
  ghost predicate Tree(n: Slots, depth: seq<nat>) {
    && |depth| == |n| && IsDir(n, 0)
    && (forall p :: IsDir(n, p) ==> GoodDir(n, depth, p))
    && (forall c :: Live(n, c) && c != 0 ==> Listed(n, c))
  }

  lemma ParentAbove(n: Slots, depth: seq<nat>, c: nat)
    requires Tree(n, depth) && Live(n, c) && c != 0
    ensures var p := n[c].value.parent; IsDir(n, p) && ChildOf(n, depth, p, c)
  {
    assert Listed(n, c);
    assert GoodDir(n, depth, n[c].value.parent);
  }

  lemma GoodKids(n: Slots, depth: seq<nat>, q: nat)
    requires Tree(n, depth) && IsDir(n, q)
    ensures GoodDir(n, depth, q) && q < |depth| == |n|
  {}

  // ---- Subtrees ----

  ghost predicate Within(n: Slots, depth: seq<nat>, d: nat, i: nat)
    requires Tree(n, depth) && Live(n, i)
    decreases if i < |depth| then depth[i] else 0
  {
    i == d || (i != 0 && (ParentAbove(n, depth, i); Within(n, depth, d, n[i].value.parent)))
  }

  // The slots of the subtree below d, d included.
  ghost function Sub(n: Slots, depth: seq<nat>, d: nat): (s: set<nat>)
    requires Tree(n, depth)
    ensures forall i :: i in s <==> Live(n, i) && Within(n, depth, d, i)
  {
    set i | 0 <= i < |n| && Live(n, i) && Within(n, depth, d, i)
  }

  ghost function SubAll(n: Slots, depth: seq<nat>, ds: seq<nat>): (s: set<nat>)
    requires Tree(n, depth)
    ensures forall i :: i in s <==> exists d :: d in ds && i in Sub(n, depth, d)
  {
    set d, i | d in ds && i in Sub(n, depth, d) :: i
  }

  lemma SubStep(n: Slots, depth: seq<nat>, d: nat, i: nat)
    requires Tree(n, depth) && Live(n, i)
    ensures i in Sub(n, depth, d) <==> i == d || (i != 0 && n[i].value.parent in Sub(n, depth, d))
  {
    if i != 0 { ParentAbove(n, depth, i); }
  }

  lemma {:induction false} SubDeeper(n: Slots, depth: seq<nat>, d: nat, i: nat)
    requires Tree(n, depth) && i in Sub(n, depth, d) && Live(n, d)
    ensures depth[i] >= depth[d] && (depth[i] == depth[d] ==> i == d)
    decreases depth[i]
  {
    SubStep(n, depth, d, i);
    if i != d {
      ParentAbove(n, depth, i);
      SubDeeper(n, depth, d, n[i].value.parent);
    }
  }

  // Subtrees of two directories on one level have nothing in common.
  lemma {:induction false} LevelDisjoint(n: Slots, depth: seq<nat>, d: nat, e: nat, i: nat)
    requires Tree(n, depth) && Live(n, d) && Live(n, e) && depth[d] == depth[e]
    requires i in Sub(n, depth, d) && i in Sub(n, depth, e)
    ensures d == e
    decreases depth[i]
  {
    SubStep(n, depth, d, i);
    SubStep(n, depth, e, i);
    if i == d {
      SubDeeper(n, depth, e, i);
    } else if i == e {
      SubDeeper(n, depth, d, i);
    } else {
      ParentAbove(n, depth, i);
      LevelDisjoint(n, depth, d, e, n[i].value.parent);
    }
  }

  lemma {:induction false} SubTransitive(n: Slots, depth: seq<nat>, d: nat, e: nat, i: nat)
    requires Tree(n, depth) && e in Sub(n, depth, d) && i in Sub(n, depth, e)
    ensures i in Sub(n, depth, d)
    decreases depth[i]
  {
    SubStep(n, depth, e, i);
    if i != e {
      ParentAbove(n, depth, i);
      SubTransitive(n, depth, d, e, n[i].value.parent);
      SubStep(n, depth, d, i);
    }
  }

  // Below d: the entry of d's lists on the way down to i.
  lemma {:induction false} SubOfChild(n: Slots, depth: seq<nat>, d: nat, i: nat) returns (c: nat)
    requires Tree(n, depth) && i in Sub(n, depth, d) && i != d && IsDir(n, d)
    ensures c in n[d].value.subdirs || c in n[d].value.subfiles
    ensures i in Sub(n, depth, c) && ChildOf(n, depth, d, c)
    decreases depth[i]
  {
    SubStep(n, depth, d, i);
    ParentAbove(n, depth, i);
    var p := n[i].value.parent;
    if p == d {
      c := i;
      assert Listed(n, i);
      SubStep(n, depth, i, i);
    } else {
      c := SubOfChild(n, depth, d, p);
      SubStep(n, depth, c, i);
    }
  }

  lemma FileSub(n: Slots, depth: seq<nat>, f: nat)
    requires Tree(n, depth) && IsFile(n, f)
    ensures Sub(n, depth, f) == {f}
  {
    forall i | i in Sub(n, depth, f)
      ensures i == f
    {
      if i != f { FileNotAbove(n, depth, f, i); }
    }
    SubStep(n, depth, f, f);
  }

  lemma {:induction false} FileNotAbove(n: Slots, depth: seq<nat>, f: nat, i: nat)
    requires Tree(n, depth) && IsFile(n, f) && i in Sub(n, depth, f) && i != f
    ensures false
    decreases depth[i]
  {
    SubStep(n, depth, f, i);
    ParentAbove(n, depth, i);
    if n[i].value.parent != f { FileNotAbove(n, depth, f, n[i].value.parent); }
  }

  function ToSet(s: seq<nat>): set<nat> {
    set i | i in s
  }

  // A subtree is its directory, the subtrees of its subdirectories and its files.
  lemma SubSplit(n: Slots, depth: seq<nat>, d: nat)
    requires Tree(n, depth) && IsDir(n, d)
    ensures Sub(n, depth, d) == {d} + SubAll(n, depth, n[d].value.subdirs) + ToSet(n[d].value.subfiles)
  {
    hide Tree, Sub, SubAll, ToSet;
    SubParts(n, depth, d);
    PartsSub(n, depth, d);
  }

  lemma SubParts(n: Slots, depth: seq<nat>, d: nat)
    requires Tree(n, depth) && IsDir(n, d)
    ensures Sub(n, depth, d) <= {d} + SubAll(n, depth, n[d].value.subdirs) + ToSet(n[d].value.subfiles)
  {
    hide Tree, Sub, Within;
    var node := n[d].value;
    forall i | i in Sub(n, depth, d)
      ensures i == d || i in SubAll(n, depth, node.subdirs) || i in node.subfiles
    {
      if i != d {
        var c := SubOfChild(n, depth, d, i);
        if c in node.subfiles {
          FilesOf(n, depth, d);
          FileSub(n, depth, c);
        }
      }
    }
  }

  lemma FilesOf(n: Slots, depth: seq<nat>, d: nat)
    requires Tree(n, depth) && IsDir(n, d)
    ensures forall c :: c in n[d].value.subfiles ==> IsFile(n, c) && ChildOf(n, depth, d, c)
    ensures forall c :: c in n[d].value.subdirs ==> IsDir(n, c) && ChildOf(n, depth, d, c)
  {
    assert GoodDir(n, depth, d);
  }

  lemma PartsSub(n: Slots, depth: seq<nat>, d: nat)
    requires Tree(n, depth) && IsDir(n, d)
    ensures {d} + SubAll(n, depth, n[d].value.subdirs) + ToSet(n[d].value.subfiles) <= Sub(n, depth, d)
  {
    hide Tree, Sub, Within;
    FilesOf(n, depth, d);
    SubStep(n, depth, d, d);
    forall i | i in n[d].value.subfiles
      ensures i in Sub(n, depth, d)
    {
      SubStep(n, depth, d, i);
    }
    forall i | i in SubAll(n, depth, n[d].value.subdirs)
      ensures i in Sub(n, depth, d)
    {
      var c :| c in n[d].value.subdirs && i in Sub(n, depth, c);
      SubStep(n, depth, d, c);
      SubTransitive(n, depth, d, c, i);
    }
  }

  lemma {:induction false} AllBelowRoot(n: Slots, depth: seq<nat>, i: nat)
    requires Tree(n, depth) && Live(n, i)
    ensures i in Sub(n, depth, 0)
    decreases if i < |depth| then depth[i] else 0
  {
    SubStep(n, depth, 0, i);
    if i != 0 {
      ParentAbove(n, depth, i);
      AllBelowRoot(n, depth, n[i].value.parent);
    }
  }

  // ---- Emptying slots ----

  // The slots with those of a set emptied.
  ghost function Emptied(n: Slots, s: set<nat>): (r: Slots)
    ensures |r| == |n|
    ensures forall i :: 0 <= i < |n| ==> r[i] == if i in s then None else n[i]
  {
    seq(|n|, i requires 0 <= i < |n| => if i in s then None else n[i])
  }

  lemma EmptiedTwice(n: Slots, s: set<nat>, t: set<nat>)
    ensures Emptied(Emptied(n, s), t) == Emptied(n, s + t)
    ensures Emptied(n, {}) == n
  {}

  lemma EmptiedOne(n: Slots, s: set<nat>, i: nat)
    requires i < |n|
    ensures Emptied(n, s)[i := None] == Emptied(n, s + {i})
  {}

  // The free list holds each empty slot once and nothing else.
  ghost predicate FreeExact(n: Slots, free: seq<nat>) {
    NoDup(free) && forall i: nat :: i in free <==> i < |n| && n[i].None?
  }

  // The free list when the slot i is about to be filled.
  ghost predicate FreeBut(n: Slots, free: seq<nat>, i: nat) {
    NoDup(free) && forall f: nat :: f in free <==> f != i && f < |n| && n[f].None?
  }

  lemma FreeFirst(n: Slots, free: seq<nat>)
    requires FreeExact(n, free)
    ensures free == [] ==> FreeBut(n + [None], free, |n|)
    ensures free != [] ==> FreeBut(n, free[1..], free[0]) && free[0] < |n| && n[free[0]].None?
  {
    if free != [] {
      assert free == [free[0]] + free[1..];
      assert free[0] in free;
    }
  }

  lemma FreeFilled(n: Slots, free: seq<nat>, i: nat, node: Node)
    requires i < |n| && FreeBut(n, free, i)
    ensures FreeExact(n[i := Some(node)], free)
  {}

  lemma Refilled(n: Slots, free: seq<nat>, i: nat, node: Node)
    requires FreeExact(n, free) && Live(n, i)
    ensures FreeExact(n[i := Some(node)], free)
  {}

  lemma FreeMore(n: Slots, free: seq<nat>, i: nat)
    requires FreeExact(n, free) && Live(n, i)
    ensures FreeExact(n[i := None], free + [i])
  {}

  // ---- Totals over the live files ----

  function SizeOf(s: Option<Node>): nat {
    if s.Some? && s.value.File? then s.value.file.size else 0
  }

  function CountOf(s: Option<Node>): nat {
    if s.Some? && s.value.File? then 1 else 0
  }

  function Size(n: Slots): nat {
    if n == [] then 0 else Size(n[..|n| - 1]) + SizeOf(n[|n| - 1])
  }

  function Count(n: Slots): nat {
    if n == [] then 0 else Count(n[..|n| - 1]) + CountOf(n[|n| - 1])
  }

  lemma {:induction false} TotalsUpdate(n: Slots, i: nat, s: Option<Node>)
    requires i < |n|
    ensures Size(n[i := s]) + SizeOf(n[i]) == Size(n) + SizeOf(s)
    ensures Count(n[i := s]) + CountOf(n[i]) == Count(n) + CountOf(s)
  {
    var last := |n| - 1;
    if i == last {
      assert n[i := s][..last] == n[..last];
    } else {
      TotalsUpdate(n[..last], i, s);
      assert n[i := s][..last] == n[..last][i := s];
    }
  }

  lemma TotalsAppend(n: Slots)
    ensures Size(n + [None]) == Size(n) && Count(n + [None]) == Count(n)
  {
    assert (n + [None])[..|n|] == n;
  }

  // ---- Removing one child after the other ----

  // The slots still hold on a set what the tree n held there.
  ghost predicate Agree(n: Slots, m: Slots, s: set<nat>) {
    |n| <= |m| && forall i :: i in s ==> i < |n| && m[i] == n[i]
  }

  lemma SubAllSnoc(n: Slots, depth: seq<nat>, ds: seq<nat>, k: nat)
    requires Tree(n, depth) && k < |ds|
    ensures SubAll(n, depth, ds[..k + 1]) == SubAll(n, depth, ds[..k]) + Sub(n, depth, ds[k])
    ensures SubAll(n, depth, []) == {} && ds[..|ds|] == ds
  {
    assert ds[..k + 1] == ds[..k] + [ds[k]];
  }

  lemma SubInside(n: Slots, depth: seq<nat>, d: nat, c: nat)
    requires Tree(n, depth) && c in Sub(n, depth, d)
    ensures Sub(n, depth, c) <= Sub(n, depth, d)
  {
    forall i | i in Sub(n, depth, c)
      ensures i in Sub(n, depth, d)
    {
      SubTransitive(n, depth, d, c, i);
    }
  }

  // What the k-th subdirectory of d is to d and to the subdirectories before it.
  lemma SubdirFacts(n: Slots, depth: seq<nat>, d: nat, k: nat)
    requires Tree(n, depth) && IsDir(n, d) && k < |n[d].value.subdirs|
    ensures var ds := n[d].value.subdirs;
            && IsDir(n, ds[k]) && d < |depth| && ds[k] < |depth| && depth[ds[k]] == depth[d] + 1
            && Sub(n, depth, ds[k]) <= Sub(n, depth, d)
            && d !in Sub(n, depth, ds[k])
            && Sub(n, depth, ds[k]) !! SubAll(n, depth, ds[..k])
  {
    var ds := n[d].value.subdirs;
    assert GoodDir(n, depth, d);
    assert ChildOf(n, depth, d, ds[k]);
    SubStep(n, depth, d, d);
    SubStep(n, depth, d, ds[k]);
    SubInside(n, depth, d, ds[k]);
    if d in Sub(n, depth, ds[k]) { SubDeeper(n, depth, ds[k], d); }
    forall i | i in Sub(n, depth, ds[k])
      ensures i !in SubAll(n, depth, ds[..k])
    {
      if i in SubAll(n, depth, ds[..k]) {
        var e :| e in ds[..k] && i in Sub(n, depth, e);
        assert ChildOf(n, depth, d, e);
        LevelDisjoint(n, depth, ds[k], e, i);
      }
    }
  }

  // A file of d is no node below a subdirectory of d.
  lemma SubfileFacts(n: Slots, depth: seq<nat>, d: nat, f: nat)
    requires Tree(n, depth) && IsDir(n, d) && f in n[d].value.subfiles
    ensures IsFile(n, f) && f in Sub(n, depth, d) && f !in SubAll(n, depth, n[d].value.subdirs)
  {
    var ds := n[d].value.subdirs;
    assert GoodDir(n, depth, d);
    SubStep(n, depth, d, f);
    SubStep(n, depth, d, d);
    if f in SubAll(n, depth, ds) {
      var e :| e in ds && f in Sub(n, depth, e);
      assert ChildOf(n, depth, d, e) && ChildOf(n, depth, d, f);
      SubDeeper(n, depth, e, f);
    }
  }

  lemma StillThere(n: Slots, depth: seq<nat>, m: Slots, d: nat, k: nat)
    requires Tree(n, depth) && IsDir(n, d) && Agree(n, m, Sub(n, depth, d)) && k < |n[d].value.subdirs|
    ensures var ds := n[d].value.subdirs;
            Agree(n, Emptied(m, SubAll(n, depth, ds[..k])), Sub(n, depth, ds[k]))
  {
    hide Sub, SubAll, Tree;
    SubdirFacts(n, depth, d, k);
  }

  lemma DirStillThere(n: Slots, depth: seq<nat>, m: Slots, d: nat, k: nat)
    requires Tree(n, depth) && IsDir(n, d) && Agree(n, m, Sub(n, depth, d)) && k <= |n[d].value.subdirs|
    ensures d < |m| && Emptied(m, SubAll(n, depth, n[d].value.subdirs[..k]))[d] == n[d]
  {
    SubStep(n, depth, d, d);
    if d in SubAll(n, depth, n[d].value.subdirs[..k]) {
      var e :| e in n[d].value.subdirs[..k] && d in Sub(n, depth, e);
      var j :| 0 <= j < k && n[d].value.subdirs[j] == e;
      SubdirFacts(n, depth, d, j);
    }
  }

  // The j-th file of d after the subdirectories and the files before it are gone.
  lemma FileStillThere(n: Slots, depth: seq<nat>, m: Slots, d: nat, k: nat)
    requires Tree(n, depth) && IsDir(n, d) && Agree(n, m, Sub(n, depth, d)) && k < |n[d].value.subfiles|
    ensures var fs := n[d].value.subfiles;
            && fs[k] < |n| && fs[k] < |m| && IsFile(n, fs[k])
            && Emptied(Emptied(m, SubAll(n, depth, n[d].value.subdirs)), ToSet(fs[..k]))[fs[k]] == n[fs[k]]
  {
    SubfileFacts(n, depth, d, n[d].value.subfiles[k]);
    assert GoodDir(n, depth, d);
  }

  lemma EmptiedNone(m: Slots, n: Slots, depth: seq<nat>, ds: seq<nat>)
    requires Tree(n, depth)
    ensures Emptied(m, SubAll(n, depth, ds[..0])) == m
  {}

  lemma EmptiedNoFiles(m: Slots, fs: seq<nat>)
    ensures Emptied(m, ToSet(fs[..0])) == m
  {}

  lemma FilesSnoc(fs: seq<nat>, k: nat)
    requires k < |fs|
    ensures ToSet(fs[..k + 1]) == ToSet(fs[..k]) + {fs[k]}
    ensures ToSet([]) == {} && fs[..|fs|] == fs
  {
    assert fs[..k + 1] == fs[..k] + [fs[k]];
  }

  lemma EmptiedAll(m: Slots, n: Slots, depth: seq<nat>, d: nat)
    requires Tree(n, depth) && IsDir(n, d) && d < |m|
    ensures Emptied(Emptied(m, SubAll(n, depth, n[d].value.subdirs)), ToSet(n[d].value.subfiles))[d := None]
         == Emptied(m, Sub(n, depth, d))
  {
    hide Tree, Sub, SubAll, ToSet;
    SubSplit(n, depth, d);
  }

  lemma DirOutlivesChildren(n: Slots, depth: seq<nat>, m: Slots, d: nat, k: nat)
    requires Tree(n, depth) && IsDir(n, d) && Agree(n, m, Sub(n, depth, d)) && k <= |n[d].value.subfiles|
    ensures d < |m|
    ensures Emptied(Emptied(m, SubAll(n, depth, n[d].value.subdirs)), ToSet(n[d].value.subfiles[..k]))[d] == n[d]
  {
    DirStillThere(n, depth, m, d, |n[d].value.subdirs|);
    assert n[d].value.subdirs[..|n[d].value.subdirs|] == n[d].value.subdirs;
    if d in n[d].value.subfiles[..k] { SubfileFacts(n, depth, d, d); }
  }

  lemma WholeFiles(fs: seq<nat>)
    ensures fs[..|fs|] == fs
  {}

  // ---- Hashes of removed directories ----

  ghost function HashesIn(n: Slots, s: set<nat>): set<Hash> {
    set i | i in s && IsDir(n, i) :: n[i].value.dir.hash
  }

  lemma HashesUnion(n: Slots, s: set<nat>, t: set<nat>)
    ensures HashesIn(n, s + t) == HashesIn(n, s) + HashesIn(n, t)
    ensures HashesIn(n, {}) == {}
  {}

  lemma HashesSplit(n: Slots, depth: seq<nat>, d: nat)
    requires Tree(n, depth) && IsDir(n, d)
    ensures HashesIn(n, Sub(n, depth, d)) == HashesIn(n, SubAll(n, depth, n[d].value.subdirs)) + {n[d].value.dir.hash}
  {
    SubSplit(n, depth, d);
    assert forall f :: f in n[d].value.subfiles ==> !IsDir(n, f) by { assert GoodDir(n, depth, d); }
    var below := SubAll(n, depth, n[d].value.subdirs);
    var files := ToSet(n[d].value.subfiles);
    hide Sub, SubAll, Tree;
    HashesUnion(n, {d} + below, files);
    HashesUnion(n, {d}, below);
    assert HashesIn(n, {d}) == {n[d].value.dir.hash};
    assert HashesIn(n, files) == {};
  }

  lemma HashesSnoc(n: Slots, depth: seq<nat>, ds: seq<nat>, k: nat)
    requires Tree(n, depth) && k < |ds|
    ensures HashesIn(n, SubAll(n, depth, ds[..k + 1])) ==
      HashesIn(n, SubAll(n, depth, ds[..k])) + HashesIn(n, Sub(n, depth, ds[k]))
    ensures HashesIn(n, SubAll(n, depth, ds[..0])) == {}
  {
    SubAllSnoc(n, depth, ds, k);
    HashesUnion(n, SubAll(n, depth, ds[..k]), Sub(n, depth, ds[k]));
  }

  // ---- Taking one subtree out of the tree ----

  // The sequence with the k-th entry replaced by the last one, and shortened.
  function SwapPop<T>(s: seq<T>, k: nat): (r: seq<T>)
    requires k < |s|
    ensures |r| == |s| - 1
  {
    s[k := s[|s| - 1]][..|s| - 1]
  }

  lemma SwapPopSame<T>(s: seq<T>, k: nat)
    requires k < |s| && NoDup(s)
    ensures NoDup(SwapPop(s, k)) && forall x :: x in SwapPop(s, k) <==> x in s && x != s[k]
  {
    var r := SwapPop(s, k);
    assert forall j :: 0 <= j < |r| ==> r[j] == if j == k then s[|s| - 1] else s[j];
    forall x | x in s && x != s[k]
      ensures x in r
    {
      var j :| 0 <= j < |s| && s[j] == x;
      assert if j == |s| - 1 then r[k] == x else r[j] == x;
    }
    forall x | x in r
      ensures x in s && x != s[k]
    {
      var j :| 0 <= j < |r| && r[j] == x;
    }
  }

  // The slots without the subtree of the k-th subdirectory of p.
  ghost function Pruned(n: Slots, depth: seq<nat>, p: nat, k: nat): (r: Slots)
    requires Tree(n, depth) && IsDir(n, p) && k < |n[p].value.subdirs|
    ensures |r| == |n|
  {
    var d := n[p].value;
    Emptied(n[p := Some(d.(subdirs := SwapPop(d.subdirs, k)))], Sub(n, depth, d.subdirs[k]))
  }

  lemma PrunedTree(n: Slots, depth: seq<nat>, p: nat, k: nat)
    requires Tree(n, depth) && IsDir(n, p) && k < |n[p].value.subdirs|
    ensures Tree(Pruned(n, depth, p, k), depth)
  {
    var r := Pruned(n, depth, p, k);
    SubdirFacts(n, depth, p, k);
    SubStep(n, depth, n[p].value.subdirs[k], 0);
    assert ChildOf(n, depth, p, n[p].value.subdirs[k]) by { assert GoodDir(n, depth, p); }
    forall q | IsDir(r, q)
      ensures GoodDir(r, depth, q)
    {
      PrunedDir(n, depth, p, k, q);
    }
    forall c | Live(r, c) && c != 0
      ensures Listed(r, c)
    {
      PrunedListed(n, depth, p, k, c);
    }
  }

  lemma PrunedChild(n: Slots, depth: seq<nat>, p: nat, k: nat, q: nat, c: nat)
    requires Tree(n, depth) && IsDir(n, p) && k < |n[p].value.subdirs|
    requires ChildOf(n, depth, q, c) && c !in Sub(n, depth, n[p].value.subdirs[k])
    ensures var r := Pruned(n, depth, p, k);
            ChildOf(r, depth, q, c) && (IsDir(r, c) <==> IsDir(n, c)) && (IsFile(r, c) <==> IsFile(n, c))
  {
    hide Sub, Tree, SwapPop;
  }

  lemma PrunedDir(n: Slots, depth: seq<nat>, p: nat, k: nat, q: nat)
    requires Tree(n, depth) && IsDir(n, p) && k < |n[p].value.subdirs| && IsDir(Pruned(n, depth, p, k), q)
    ensures GoodDir(Pruned(n, depth, p, k), depth, q)
  {
    hide Sub;
    var r := Pruned(n, depth, p, k);
    assert GoodDir(n, depth, q) && GoodDir(n, depth, p);
    SwapPopSame(n[p].value.subdirs, k);
    PrunedKids(n, depth, p, k, q);
    assert if q == p then r[q] == Some(n[p].value.(subdirs := SwapPop(n[p].value.subdirs, k))) else r[q] == n[q];
    hide Tree, SwapPop, Pruned;
    forall c | c in r[q].value.subdirs
      ensures ChildOf(r, depth, q, c) && IsDir(r, c)
    {
      PrunedChild(n, depth, p, k, q, c);
    }
    forall c | c in r[q].value.subfiles
      ensures ChildOf(r, depth, q, c) && IsFile(r, c)
    {
      PrunedChild(n, depth, p, k, q, c);
    }
  }

  lemma PrunedListed(n: Slots, depth: seq<nat>, p: nat, k: nat, c: nat)
    requires Tree(n, depth) && IsDir(n, p) && k < |n[p].value.subdirs|
    requires Live(Pruned(n, depth, p, k), c) && c != 0
    ensures Listed(Pruned(n, depth, p, k), c)
  {
    hide Sub;
    SubdirFacts(n, depth, p, k);
    assert GoodDir(n, depth, p);
    SwapPopSame(n[p].value.subdirs, k);
    assert Listed(n, c);
    SubStep(n, depth, n[p].value.subdirs[k], c);
    SubStep(n, depth, n[p].value.subdirs[k], n[p].value.subdirs[k]);
    hide Tree, SwapPop;
  }

  lemma PrunedKids(n: Slots, depth: seq<nat>, p: nat, k: nat, q: nat)
    requires Tree(n, depth) && IsDir(n, p) && k < |n[p].value.subdirs|
    requires IsDir(n, q) && q !in Sub(n, depth, n[p].value.subdirs[k])
    ensures forall c :: c in n[q].value.subdirs && (q == p ==> c != n[p].value.subdirs[k]) ==>
      c !in Sub(n, depth, n[p].value.subdirs[k])
    ensures forall c :: c in n[q].value.subfiles ==> c !in Sub(n, depth, n[p].value.subdirs[k])
  {
    var e := n[p].value.subdirs[k];
    assert GoodDir(n, depth, q) && GoodDir(n, depth, p);
    assert ChildOf(n, depth, p, e);
    forall c | c in n[q].value.subdirs && (q == p ==> c != e)
      ensures c !in Sub(n, depth, e)
    {
      assert ChildOf(n, depth, q, c);
      SubStep(n, depth, e, c);
    }
    forall c | c in n[q].value.subfiles
      ensures c !in Sub(n, depth, e)
    {
      assert ChildOf(n, depth, q, c);
      SubStep(n, depth, e, c);
    }
  }

  lemma AgreeBelow(n: Slots, depth: seq<nat>, m: Slots, p: nat, k: nat)
    requires Tree(n, depth) && IsDir(n, p) && k < |n[p].value.subdirs|
    requires |m| == |n| && forall i :: 0 <= i < |n| && i != p ==> m[i] == n[i]
    ensures Agree(n, m, Sub(n, depth, n[p].value.subdirs[k]))
  {
    SubdirFacts(n, depth, p, k);
  }

  lemma NoHashes(n: Slots, depth: seq<nat>, ds: seq<nat>)
    requires Tree(n, depth)
    ensures HashesIn(n, SubAll(n, depth, ds[..0])) == {}
  {}

  ghost function Top(depth: seq<nat>): (t: nat)
    ensures forall i :: 0 <= i < |depth| ==> depth[i] <= t
  {
    if depth == [] then 0
    else
      var t := Top(depth[..|depth| - 1]);
      assert depth[..|depth| - 1] + [depth[|depth| - 1]] == depth;
      if t >= depth[|depth| - 1] then t else depth[|depth| - 1]
  }

  // ---- Changes that leave the tree alone ----

  predicate SameLinks(s: Option<Node>, t: Option<Node>) {
    match (s, t)
    case (None, None) => true
    case (Some(File(p, _, _)), Some(File(q, _, _))) => p == q
    case (Some(Dir(p, _, _, ds, fs)), Some(Dir(q, _, _, es, gs))) => p == q && ds == es && fs == gs
    case _ => false
  }

  // The slots differ in names, sizes, times, hashes and rows only.
  ghost predicate SameShape(n: Slots, m: Slots) {
    |n| == |m| && forall i :: 0 <= i < |n| ==> SameLinks(n[i], m[i])
  }

  lemma ShapeTree(n: Slots, m: Slots, depth: seq<nat>)
    requires Tree(n, depth) && SameShape(n, m)
    ensures Tree(m, depth)
  {
    assert SameLinks(n[0], m[0]);
    forall p: nat | IsDir(m, p)
      ensures GoodDir(m, depth, p)
    {
      assert SameLinks(n[p], m[p]);
      assert GoodDir(n, depth, p);
      forall c: nat | ChildOf(n, depth, p, c)
        ensures ChildOf(m, depth, p, c) && (IsDir(n, c) <==> IsDir(m, c)) && (IsFile(n, c) <==> IsFile(m, c))
      {
        assert SameLinks(n[c], m[c]);
      }
    }
    forall c: nat | Live(m, c) && c != 0
      ensures Listed(m, c)
    {
      assert SameLinks(n[c], m[c]);
      assert Listed(n, c);
      assert SameLinks(n[n[c].value.parent], m[n[c].value.parent]);
    }
  }

  lemma {:induction false} ShapeWithin(n: Slots, m: Slots, depth: seq<nat>, d: nat, i: nat)
    requires Tree(n, depth) && Tree(m, depth) && SameShape(n, m) && Live(n, i)
    ensures Live(m, i) && (Within(n, depth, d, i) <==> Within(m, depth, d, i))
    decreases if i < |depth| then depth[i] else 0
  {
    assert SameLinks(n[i], m[i]);
    if i != d && i != 0 {
      ParentAbove(n, depth, i);
      ShapeWithin(n, m, depth, d, n[i].value.parent);
    }
  }

  lemma ShapeSub(n: Slots, m: Slots, depth: seq<nat>, d: nat)
    requires Tree(n, depth) && Tree(m, depth) && SameShape(n, m)
    ensures Sub(n, depth, d) == Sub(m, depth, d)
  {
    forall i: nat | i < |n|
      ensures i in Sub(n, depth, d) <==> i in Sub(m, depth, d)
    {
      assert SameLinks(n[i], m[i]);
      if Live(n, i) { ShapeWithin(n, m, depth, d, i); }
    }
  }

  // A file's new contents leave the tree alone and change the total by the difference of the sizes.
  lemma FileChange(n: Slots, depth: seq<nat>, free: seq<nat>, i: nat, f: FileInfo)
    requires IsFile(n, i)
    ensures var m := n[i := Some(n[i].value.(file := f))];
            && (Tree(n, depth) ==> Tree(m, depth)) && (FreeExact(n, free) ==> FreeExact(m, free))
            && Size(m) + n[i].value.file.size == Size(n) + f.size && n[i].value.file.size <= Size(n)
                 && Count(m) == Count(n)
  {
    hide Tree, FreeExact, Size, Count;
    var m := n[i := Some(n[i].value.(file := f))];
    TotalsUpdate(n, i, m[i]);
    TotalsUpdate(n, i, None);
    if Tree(n, depth) { ShapeTree(n, m, depth); }
    if FreeExact(n, free) { Refilled(n, free, i, m[i].value); }
  }
}
