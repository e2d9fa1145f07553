// Local changes of one directory's lists: a file dropped, a file or a directory added at the end.
module DirLocal {
  import opened Options
  import opened DirTree

  // ---- Subtrees after one has been taken out ----

  // Of what is left, each slot lies in the same subtrees as before.
  lemma {:induction false} PrunedWithin(n: Slots, depth: seq<nat>, p: nat, k: nat, x: nat, i: nat)
    requires Tree(n, depth) && IsDir(n, p) && k < |n[p].value.subdirs|
    requires Tree(Pruned(n, depth, p, k), depth) && Live(Pruned(n, depth, p, k), i)
    ensures Live(n, i) && (i in Sub(Pruned(n, depth, p, k), depth, x) <==> i in Sub(n, depth, x))
    decreases if i < |depth| then depth[i] else 0
  {
    hide Tree, SwapPop;
    var r := Pruned(n, depth, p, k);
    SubStep(n, depth, x, i);
    SubStep(r, depth, x, i);
    if i != 0 {
      ParentAbove(r, depth, i);
      PrunedWithin(n, depth, p, k, x, r[i].value.parent);
    }
  }

  // ---- A new child at the end of a list ----

  ghost function AddedDir(n: Slots, p: nat, node: Node): (m: Slots)
    requires IsDir(n, p)
    ensures |m| == |n| + 1 && m[|n|] == Some(node)
    ensures forall i :: 0 <= i < |n| ==>
      m[i] == if i == p then Some(n[p].value.(subdirs := n[p].value.subdirs + [|n|])) else n[i]
  {
    n[p := Some(n[p].value.(subdirs := n[p].value.subdirs + [|n|]))] + [Some(node)]
  }

  ghost function AddedFile(n: Slots, p: nat, node: Node): (m: Slots)
    requires IsDir(n, p)
    ensures |m| == |n| + 1 && m[|n|] == Some(node)
    ensures forall i :: 0 <= i < |n| ==>
      m[i] == if i == p then Some(n[p].value.(subfiles := n[p].value.subfiles + [|n|])) else n[i]
  {
    n[p := Some(n[p].value.(subfiles := n[p].value.subfiles + [|n|]))] + [Some(node)]
  }

  lemma LongerList(s: Option<Node>, x: nat)
    ensures s.Some? && s.value.Dir? ==>
      (forall c :: c in s.value.subdirs + [x] <==> c in s.value.subdirs || c == x) &&
      (forall c :: c in s.value.subfiles + [x] <==> c in s.value.subfiles || c == x)
  {}

  lemma KidsBelow(n: Slots, depth: seq<nat>, q: nat)
    requires IsDir(n, q) && GoodDir(n, depth, q)
    ensures forall c :: c in n[q].value.subdirs || c in n[q].value.subfiles ==> c < |n|
  {}

  lemma NoDupSnoc(s: seq<nat>, x: nat)
    requires NoDup(s) && forall c :: c in s ==> c < x
    ensures NoDup(s + [x])
  {
    assert forall i :: 0 <= i < |s| ==> s[i] in s;
  }

  lemma AddedDirTree(n: Slots, depth: seq<nat>, p: nat, node: Node)
    requires Tree(n, depth) && IsDir(n, p) && node.Dir? && node.parent == p && node.subdirs == [] && node.subfiles == []
    ensures Tree(AddedDir(n, p, node), depth + [depth[p] + 1])
  {
    hide GoodDir, Listed, AddedDir;
    var m := AddedDir(n, p, node);
    forall q: nat | IsDir(m, q)
      ensures GoodDir(m, depth + [depth[p] + 1], q)
    {
      AddedDirGood(n, depth, p, node, q);
    }
    forall c: nat | Live(m, c) && c != 0
      ensures Listed(m, c)
    {
      AddedDirListed(n, depth, p, node, c);
    }
  }

  lemma AddedDirChild(n: Slots, depth: seq<nat>, p: nat, node: Node, q: nat, c: nat)
    requires |n| == |depth| && IsDir(n, p) && node.Dir? && node.parent == p
    requires if c < |n| then ChildOf(n, depth, q, c) else c == |n| && q == p && c != 0
    ensures ChildOf(AddedDir(n, p, node), depth + [depth[p] + 1], q, c)
    ensures c < |n| ==> (IsDir(AddedDir(n, p, node), c) <==> IsDir(n, c))
    ensures c == |n| ==> (IsDir(AddedDir(n, p, node), c) <==> node.Dir?)
  {
    hide AddedDir;
  }

  lemma AddedDirGood(n: Slots, depth: seq<nat>, p: nat, node: Node, q: nat)
    requires Tree(n, depth) && IsDir(n, p) && node.Dir? && node.parent == p && node.subdirs == [] && node.subfiles == []
    requires IsDir(AddedDir(n, p, node), q)
    ensures GoodDir(AddedDir(n, p, node), depth + [depth[p] + 1], q)
  {
    hide AddedDir, Tree, ChildOf;
    GoodKids(n, depth, p);
    if q < |n| {
      GoodKids(n, depth, q);
      KidsBelow(n, depth, q);
      NoDupSnoc(n[q].value.subdirs, |n|);
      var m := AddedDir(n, p, node);
      forall c | c in m[q].value.subdirs || c in m[q].value.subfiles
        ensures ChildOf(m, depth + [depth[p] + 1], q, c)
        ensures IsDir(m, c) <==> if c < |n| then IsDir(n, c) else node.Dir?
      {
        AddedDirChild(n, depth, p, node, q, c);
      }
    }
  }

  lemma AddedDirListed(n: Slots, depth: seq<nat>, p: nat, node: Node, c: nat)
    requires Tree(n, depth) && IsDir(n, p) && node.Dir? && node.parent == p && Live(AddedDir(n, p, node), c) && c != 0
    ensures Listed(AddedDir(n, p, node), c)
  {
    assert c < |n| ==> Listed(n, c);
    hide AddedDir, Tree, GoodDir;
    LongerList(if c < |n| then n[n[c].value.parent] else n[p], |n|);
  }

  lemma AddedFileTree(n: Slots, depth: seq<nat>, p: nat, node: Node)
    requires Tree(n, depth) && IsDir(n, p) && node.File? && node.parent == p
    ensures Tree(AddedFile(n, p, node), depth + [depth[p] + 1])
  {
    hide GoodDir, Listed, AddedFile;
    var m := AddedFile(n, p, node);
    forall q: nat | IsDir(m, q)
      ensures GoodDir(m, depth + [depth[p] + 1], q)
    {
      AddedFileGood(n, depth, p, node, q);
    }
    forall c: nat | Live(m, c) && c != 0
      ensures Listed(m, c)
    {
      AddedFileListed(n, depth, p, node, c);
    }
  }

  lemma AddedFileChild(n: Slots, depth: seq<nat>, p: nat, node: Node, q: nat, c: nat)
    requires |n| == |depth| && IsDir(n, p) && node.File? && node.parent == p
    requires if c < |n| then ChildOf(n, depth, q, c) else c == |n| && q == p && c != 0
    ensures ChildOf(AddedFile(n, p, node), depth + [depth[p] + 1], q, c)
    ensures c < |n| ==> (IsDir(AddedFile(n, p, node), c) <==> IsDir(n, c))
    ensures c == |n| ==> (IsDir(AddedFile(n, p, node), c) <==> node.Dir?)
  {
    hide AddedFile;
  }

  lemma AddedFileGood(n: Slots, depth: seq<nat>, p: nat, node: Node, q: nat)
    requires Tree(n, depth) && IsDir(n, p) && node.File? && node.parent == p
    requires IsDir(AddedFile(n, p, node), q)
    ensures GoodDir(AddedFile(n, p, node), depth + [depth[p] + 1], q)
  {
    hide AddedFile, Tree, ChildOf;
    GoodKids(n, depth, p);
    if q < |n| {
      GoodKids(n, depth, q);
      KidsBelow(n, depth, q);
      NoDupSnoc(n[q].value.subfiles, |n|);
      var m := AddedFile(n, p, node);
      forall c | c in m[q].value.subdirs || c in m[q].value.subfiles
        ensures ChildOf(m, depth + [depth[p] + 1], q, c)
        ensures IsDir(m, c) <==> if c < |n| then IsDir(n, c) else node.Dir?
      {
        AddedFileChild(n, depth, p, node, q, c);
      }
    }
  }

  lemma AddedFileListed(n: Slots, depth: seq<nat>, p: nat, node: Node, c: nat)
    requires Tree(n, depth) && IsDir(n, p) && node.File? && node.parent == p && Live(AddedFile(n, p, node), c) && c != 0
    ensures Listed(AddedFile(n, p, node), c)
  {
    assert c < |n| ==> Listed(n, c);
    hide AddedFile, Tree, GoodDir;
    LongerList(if c < |n| then n[n[c].value.parent] else n[p], |n|);
  }

  // ---- A file dropped from a list ----

  ghost function DroppedFile(n: Slots, p: nat, k: nat): (m: Slots)
    requires IsDir(n, p) && k < |n[p].value.subfiles| && n[p].value.subfiles[k] < |n|
    ensures |m| == |n|
    ensures m[p] == Some(n[p].value.(subfiles := SwapPop(n[p].value.subfiles, k)))
    ensures forall i :: 0 <= i < |n| && i != p ==> m[i] == if i == n[p].value.subfiles[k] then None else n[i]
  {
    n[n[p].value.subfiles[k] := None][p := Some(n[p].value.(subfiles := SwapPop(n[p].value.subfiles, k)))]
  }

  lemma DroppedFileTree(n: Slots, depth: seq<nat>, p: nat, k: nat)
    requires Tree(n, depth) && IsDir(n, p) && k < |n[p].value.subfiles|
    ensures IsFile(n, n[p].value.subfiles[k]) && n[p].value.subfiles[k] != p
    ensures Tree(DroppedFile(n, p, k), depth)
  {
    hide GoodDir, Listed, DroppedFile;
    DroppedFacts(n, depth, p, k);
    var m := DroppedFile(n, p, k);
    forall q: nat | IsDir(m, q)
      ensures GoodDir(m, depth, q)
    {
      DroppedGood(n, depth, p, k, q);
    }
    forall c: nat | Live(m, c) && c != 0
      ensures Listed(m, c)
    {
      DroppedListed(n, depth, p, k, c);
    }
  }

  lemma DroppedFacts(n: Slots, depth: seq<nat>, p: nat, k: nat)
    requires Tree(n, depth) && IsDir(n, p) && k < |n[p].value.subfiles|
    ensures var f := n[p].value.subfiles[k];
      IsFile(n, f) && f != p && f != 0 && ChildOf(n, depth, p, f) && NoDup(n[p].value.subfiles)
    ensures var fs := n[p].value.subfiles;
            NoDup(SwapPop(fs, k)) && forall x :: x in SwapPop(fs, k) <==> x in fs && x != fs[k]
  {
    assert GoodDir(n, depth, p);
    SwapPopSame(n[p].value.subfiles, k);
  }

  lemma DroppedChild(n: Slots, depth: seq<nat>, p: nat, k: nat, q: nat, c: nat)
    requires |n| == |depth| && IsDir(n, p) && k < |n[p].value.subfiles| && n[p].value.subfiles[k] < |n|
    requires ChildOf(n, depth, q, c) && c != n[p].value.subfiles[k]
    ensures ChildOf(DroppedFile(n, p, k), depth, q, c) && (IsDir(DroppedFile(n, p, k), c) <==> IsDir(n, c))
  {
    hide DroppedFile, SwapPop;
  }

  // The dropped file is in no other list.
  lemma DroppedElsewhere(n: Slots, depth: seq<nat>, p: nat, k: nat, q: nat)
    requires Tree(n, depth) && IsDir(n, p) && k < |n[p].value.subfiles| && IsDir(n, q)
    ensures var f := n[p].value.subfiles[k];
            f !in n[q].value.subdirs && (q != p ==> f !in n[q].value.subfiles)
  {
    DroppedFacts(n, depth, p, k);
    GoodKids(n, depth, q);
  }

  lemma DroppedGood(n: Slots, depth: seq<nat>, p: nat, k: nat, q: nat)
    requires Tree(n, depth) && IsDir(n, p) && k < |n[p].value.subfiles|
    requires n[p].value.subfiles[k] < |n| && IsDir(DroppedFile(n, p, k), q)
    ensures GoodDir(DroppedFile(n, p, k), depth, q)
  {
    hide SwapPop, DroppedFile, Tree, ChildOf;
    DroppedFacts(n, depth, p, k);
    GoodKids(n, depth, q);
    DroppedElsewhere(n, depth, p, k, q);
    var m := DroppedFile(n, p, k);
    forall c | c in m[q].value.subdirs || c in m[q].value.subfiles
      ensures ChildOf(m, depth, q, c) && (IsDir(m, c) <==> IsDir(n, c))
    {
      DroppedChild(n, depth, p, k, q, c);
    }
  }

  lemma DroppedListed(n: Slots, depth: seq<nat>, p: nat, k: nat, c: nat)
    requires Tree(n, depth) && IsDir(n, p) && k < |n[p].value.subfiles|
    requires n[p].value.subfiles[k] < |n| && Live(DroppedFile(n, p, k), c) && c != 0
    ensures Listed(DroppedFile(n, p, k), c)
  {
    hide SwapPop, DroppedFile;
    DroppedFacts(n, depth, p, k);
    assert Listed(n, c);
  }

  lemma FreeGrown(n: Slots, free: seq<nat>, node: Node)
    requires FreeExact(n, free)
    ensures FreeExact(n + [Some(node)], free)
  {}

  lemma {:induction false} TotalsGrown(n: Slots, node: Node)
    ensures Size(n + [Some(node)]) == Size(n) + SizeOf(Some(node))
    ensures Count(n + [Some(node)]) == Count(n) + CountOf(Some(node))
  {
    assert (n + [Some(node)])[..|n|] == n;
  }

  // ---- The names of the subdirectories ----

  function DirName(n: Slots, c: nat): string {
    if IsDir(n, c) then n[c].value.dir.name else ""
  }

  ghost function DirNames(n: Slots, ds: seq<nat>): set<string> {
    set c | c in ds :: DirName(n, c)
  }

  lemma DirNamesSnoc(n: Slots, ds: seq<nat>, k: nat)
    requires k < |ds|
    ensures DirNames(n, ds[..k + 1]) == DirNames(n, ds[..k]) + {DirName(n, ds[k])}
    ensures DirNames(n, ds[..0]) == {} && ds[..|ds|] == ds
  {
    assert ds[..k + 1] == ds[..k] + [ds[k]];
  }

  lemma {:induction false} Smaller<T>(s: set<T>, t: set<T>)
    requires s <= t
    ensures |s| <= |t|
  {
    assert t == s + (t - s);
  }

  lemma WholeNames(ds: seq<nat>)
    ensures ds[..|ds|] == ds
  {}

  lemma ChildHere(n: Slots, depth: seq<nat>, d: nat, k: nat)
    requires Tree(n, depth) && IsDir(n, d) && k < |n[d].value.subdirs|
    ensures var c := n[d].value.subdirs[k];
            && c != 0 && IsDir(n, c) && n[c].value.parent == d
            && forall j :: 0 <= j < |n[d].value.subdirs| && n[d].value.subdirs[j] == c ==> j == k
  {
    GoodKids(n, depth, d);
    assert ChildOf(n, depth, d, n[d].value.subdirs[k]);
  }

  lemma AddedIs(n: Slots, p: nat, node: Node)
    requires IsDir(n, p)
    ensures n[p := Some(n[p].value.(subdirs := n[p].value.subdirs + [|n|]))] + [Some(node)] == AddedDir(n, p, node)
  {}

  lemma AddedTotals(n: Slots, free: seq<nat>, p: nat, node: Node)
    requires FreeExact(n, free) && IsDir(n, p) && node.Dir?
    ensures FreeExact(AddedDir(n, p, node), free) && Size(AddedDir(n, p, node)) == Size(n)
    ensures Count(AddedDir(n, p, node)) == Count(n)
  {
    var d := Some(n[p].value.(subdirs := n[p].value.subdirs + [|n|]));
    TotalsUpdate(n, p, d);
    TotalsGrown(n[p := d], node);
    FreeGrown(n[p := d], free, node);
  }
}
