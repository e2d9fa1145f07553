// What an update of a directory entry means for each node, told without the maps it works with.
module DirView {
  import opened Options
  import opened DirTree
  import opened DirUpdate

  // The children are the given hashes and files in their order. Subdirectories are due for an update
  // of their own, and files have all their given fields.
  lemma GivenChildren(n: Slots, depth: seq<nat>, m: Slots, u: Change)
    requires Tree(n, depth) && IsDir(n, u.d) && Updated(n, depth, m, u)
    ensures |u.ds| == |u.hashes| && |u.fs| == |u.files|
    ensures forall k :: 0 <= k < |u.ds| ==> GivenDir(m, u, k)
    ensures forall k :: 0 <= k < |u.fs| ==> GivenFile(m, u, k)
  {
    hide Updated, Tree, GivenDir, GivenFile;
    UpdatedLengths(n, depth, m, u);
    forall k | 0 <= k < |u.ds|
      ensures GivenDir(m, u, k)
    {
      GivenDirAt(n, depth, m, u, k);
    }
    forall k | 0 <= k < |u.fs|
      ensures GivenFile(m, u, k)
    {
      GivenFileAt(n, depth, m, u, k);
    }
  }

  lemma UpdatedLengths(n: Slots, depth: seq<nat>, m: Slots, u: Change)
    requires Tree(n, depth) && IsDir(n, u.d) && Updated(n, depth, m, u)
    ensures |u.ds| == |u.hashes| && |u.fs| == |u.files|
  {}

  lemma GivenDirAt(n: Slots, depth: seq<nat>, m: Slots, u: Change, k: nat)
    requires Tree(n, depth) && IsDir(n, u.d) && Updated(n, depth, m, u) && k < |u.ds| == |u.hashes|
    ensures GivenDir(m, u, k)
  {
    NewChildHashes(n, depth, m, u);
    DirHere(n, depth, m, u, k);
    hide Updated, Tree, ByHash;
    assert HashAt(m, u.ds[k]) == u.hashes[k];
  }

  // The clauses of an update for one child.
  lemma DirHere(n: Slots, depth: seq<nat>, m: Slots, u: Change, k: nat)
    requires Tree(n, depth) && IsDir(n, u.d) && Updated(n, depth, m, u) && k < |u.hashes|
    ensures k < |u.ds| && DirAt(n, m, u.d, ByHash(n, n[u.d].value.subdirs), u.hashes, k, u.ds[k])
  {
    hide DirAt, FileAt, ByHash, ByName, GoneDirs, GoneFiles, Tree, NoDup;
  }

  lemma FileHere(n: Slots, depth: seq<nat>, m: Slots, u: Change, k: nat)
    requires Tree(n, depth) && IsDir(n, u.d) && Updated(n, depth, m, u) && k < |u.files|
    ensures k < |u.fs|
    ensures FileAt(n, m, u.d, ByName(n, n[u.d].value.subfiles),
                   GoneDirs(n, depth, ByHash(n, n[u.d].value.subdirs), u.hashes), u.files, k, |u.ds| + k, u.fs[k])
  {
    hide DirAt, FileAt, ByHash, ByName, GoneDirs, GoneFiles, Tree, NoDup;
  }

  lemma GivenFileAt(n: Slots, depth: seq<nat>, m: Slots, u: Change, k: nat)
    requires Tree(n, depth) && IsDir(n, u.d) && Updated(n, depth, m, u)
    requires k < |u.fs| == |u.files| && |u.ds| == |u.hashes|
    ensures GivenFile(m, u, k)
  {
    FileHere(n, depth, m, u, k);
    hide Updated, ByHash, ByName, GoneDirs, Tree;
  }

  ghost predicate GivenFile(m: Slots, u: Change, k: nat)
    requires k < |u.fs| == |u.files|
  {
    Live(m, u.fs[k]) && m[u.fs[k]].value == File(u.d, |u.hashes| + k, u.files[k])
  }

  ghost predicate GivenDir(m: Slots, u: Change, k: nat)
    requires k < |u.ds| == |u.hashes|
  {
    && IsDir(m, u.ds[k])
    && var c := m[u.ds[k]].value;
       c.parent == u.d && c.row == k && c.dir.hash == u.hashes[k] && c.dir.updateTime == 0
  }

  // A subdirectory whose hash was not there before is empty, in a slot that was empty.
  lemma NewChild(n: Slots, depth: seq<nat>, m: Slots, u: Change, k: nat)
    requires Tree(n, depth) && IsDir(n, u.d) && Updated(n, depth, m, u) && k < |u.ds|
    requires forall c :: c in n[u.d].value.subdirs ==> HashAt(n, c) != u.hashes[k]
    ensures var c := u.ds[k];
            !Live(n, c) && Live(m, c) && m[c].value == Dir(u.d, k, DirInfo("", u.hashes[k], 0, 0, 0, 0), [], [])
  {
    ByHashFacts(n, n[u.d].value.subdirs);
    UpdatedLengths(n, depth, m, u);
    DirHere(n, depth, m, u, k);
    hide Updated, ByHash, Tree;
  }

  // A subdirectory whose hash is given again keeps its slot, its name, its times but the one of its
  // last update, and everything below it.
  lemma KeptSubtree(n: Slots, depth: seq<nat>, m: Slots, u: Change, c: nat, i: nat)
    requires Tree(n, depth) && IsDir(n, u.d) && Updated(n, depth, m, u) && SiblingsDistinct(n, u.d)
    requires c in n[u.d].value.subdirs && HashAt(n, c) in u.hashes && i in Sub(n, depth, c)
    ensures c in u.ds && Live(n, i) && Live(m, i)
    ensures if i == c then m[i].value == n[i].value.(row := m[i].value.row, dir := n[i].value.dir.(updateTime := 0))
            else m[i] == n[i]
  {
    GoodKids(n, depth, u.d);
    assert ChildOf(n, depth, u.d, c) && IsDir(n, c);
    DistinctFound(n, n[u.d].value.subdirs);
    hide Tree, Sub, ByHash, Updated, HashAt, NoDup;
    var k := FirstAt(u.hashes, HashAt(n, c));
    KeptAt(n, depth, m, u, c, k);
    if i != c { KeptBelow(n, depth, m, u, c, i); }
  }

  lemma KeptBelow(n: Slots, depth: seq<nat>, m: Slots, u: Change, c: nat, i: nat)
    requires Tree(n, depth) && IsDir(n, u.d) && Updated(n, depth, m, u)
    requires c in n[u.d].value.subdirs && HashAt(n, c) in u.hashes && i in Sub(n, depth, c) && i != c
    ensures Live(n, i) && Live(m, i) && m[i] == n[i]
  {
    NotGone(n, depth, u, c, i);
    GoodKids(n, depth, u.d);
    assert ChildOf(n, depth, u.d, c);
    SubDeeper(n, depth, c, i);
    hide Updated, ByHash, GoneDirs;
    assert i !in n[u.d].value.subdirs && i !in n[u.d].value.subfiles && i != u.d;
    Untouched(n, depth, m, u, i);
  }

  lemma KeptAt(n: Slots, depth: seq<nat>, m: Slots, u: Change, c: nat, k: nat)
    requires Tree(n, depth) && IsDir(n, u.d) && Updated(n, depth, m, u) && ChildOf(n, depth, u.d, c) && IsDir(n, c)
    requires Found(n, n[u.d].value.subdirs, c)
    requires k < |u.hashes| && u.hashes[k] == HashAt(n, c) && HashAt(n, c) !in u.hashes[..k]
    ensures c in u.ds && Live(m, c)
    ensures m[c].value == n[c].value.(row := m[c].value.row, dir := n[c].value.dir.(updateTime := 0))
  {
    DirHere(n, depth, m, u, k);
    hide Updated, ByHash, Tree;
  }

  lemma NotGone(n: Slots, depth: seq<nat>, u: Change, c: nat, i: nat)
    requires Tree(n, depth) && IsDir(n, u.d) && c in n[u.d].value.subdirs && HashAt(n, c) in u.hashes
    requires i in Sub(n, depth, c)
    ensures i !in GoneDirs(n, depth, ByHash(n, n[u.d].value.subdirs), u.hashes)
  {
    var byHash := ByHash(n, n[u.d].value.subdirs);
    ByHashFacts(n, n[u.d].value.subdirs);
    GoodKids(n, depth, u.d);
    hide ByHash;
    forall h | h in byHash && h !in u.hashes
      ensures i !in Sub(n, depth, byHash[h])
    {
      assert ChildOf(n, depth, u.d, byHash[h]) && ChildOf(n, depth, u.d, c);
      if i in Sub(n, depth, byHash[h]) { LevelDisjoint(n, depth, c, byHash[h], i); }
    }
  }

  // Of a subdirectory whose hash is not given nothing stays; only new files may take its slots.
  lemma VanishedSubtree(n: Slots, depth: seq<nat>, m: Slots, u: Change, c: nat, i: nat)
    requires Tree(n, depth) && IsDir(n, u.d) && Updated(n, depth, m, u) && SiblingsDistinct(n, u.d)
    requires c in n[u.d].value.subdirs && HashAt(n, c) !in u.hashes && i in Sub(n, depth, c)
    ensures i in u.fs || !Live(m, i)
  {
    GoodKids(n, depth, u.d);
    DistinctFound(n, n[u.d].value.subdirs);
    assert Found(n, n[u.d].value.subdirs, c);
    var gone := GoneDirs(n, depth, ByHash(n, n[u.d].value.subdirs), u.hashes);
    assert i in gone;
    GoneDirFacts(n, depth, u.d, u.hashes, i);
    if i in u.ds {
      NewDirOrigin(n, depth, m, u, i);
      assert false;
    }
    hide ByHash, ByName, GoneDirs, GoneFiles, Tree, NoDup;
  }

  // A file whose name is given again keeps its slot; one whose name is not leaves its slot empty.
  lemma OldFile(n: Slots, depth: seq<nat>, m: Slots, u: Change, c: nat)
    requires Tree(n, depth) && IsDir(n, u.d) && Updated(n, depth, m, u) && SiblingsDistinct(n, u.d)
    requires c in n[u.d].value.subfiles
    ensures if NameAt(n, c) in Names(u.files) then c in u.fs && NameAt(m, c) == NameAt(n, c) else !Live(m, c)
  {
    GoodKids(n, depth, u.d);
    DistinctFoundFiles(n, n[u.d].value.subfiles);
    var goneDirs := GoneDirs(n, depth, ByHash(n, n[u.d].value.subdirs), u.hashes);
    if c in u.ds { NewDirOrigin(n, depth, m, u, c); }
    if c in goneDirs { GoneDirFacts(n, depth, u.d, u.hashes, c); }
    hide ByHash, ByName, GoneDirs, Tree, NoDup, Updated, NameAt;
    if NameAt(n, c) in Names(u.files) {
      var k := FirstNamed(u.files, NameAt(n, c));
      SameFile(n, depth, m, u, c, k);
    } else {
      NoFile(n, depth, m, u, c);
    }
  }

  lemma SameFile(n: Slots, depth: seq<nat>, m: Slots, u: Change, c: nat, k: nat)
    requires Tree(n, depth) && IsDir(n, u.d) && Updated(n, depth, m, u) && FoundFile(n, n[u.d].value.subfiles, c)
    requires k < |u.files| && u.files[k].name == NameAt(n, c) && NameAt(n, c) !in Names(u.files[..k])
    ensures c in u.fs && NameAt(m, c) == NameAt(n, c)
  {
    FileHere(n, depth, m, u, k);
    hide Updated, ByHash, ByName, GoneDirs, Tree;
  }

  lemma NoFile(n: Slots, depth: seq<nat>, m: Slots, u: Change, c: nat)
    requires Tree(n, depth) && IsDir(n, u.d) && Updated(n, depth, m, u) && FoundFile(n, n[u.d].value.subfiles, c)
    requires Live(n, c) && c != u.d && c !in u.ds && NameAt(n, c) !in Names(u.files)
    requires c !in GoneDirs(n, depth, ByHash(n, n[u.d].value.subdirs), u.hashes)
    ensures !Live(m, c)
  {
    ByNameFacts(n, n[u.d].value.subfiles);
    UpdatedLengths(n, depth, m, u);
    var byName := ByName(n, n[u.d].value.subfiles);
    forall k | 0 <= k < |u.fs|
      ensures u.fs[k] != c
    {
      NotHere(n, depth, m, u, c, k);
    }
    assert c !in u.fs;
    assert NameAt(n, c) in byName && c in GoneFiles(byName, u.files);
    hide ByHash, ByName, GoneDirs, GoneFiles, Tree, NoDup, DirAt, FileAt;
  }

  lemma NotHere(n: Slots, depth: seq<nat>, m: Slots, u: Change, c: nat, k: nat)
    requires Tree(n, depth) && IsDir(n, u.d) && Updated(n, depth, m, u)
    requires Live(n, c) && NameAt(n, c) !in Names(u.files) && k < |u.fs| == |u.files|
    requires c !in GoneDirs(n, depth, ByHash(n, n[u.d].value.subdirs), u.hashes)
    ensures u.fs[k] != c
  {
    ByNameFacts(n, n[u.d].value.subfiles);
    FileHere(n, depth, m, u, k);
    hide Updated, ByHash, ByName, GoneDirs, Tree;
    assert u.files[k].name in Names(u.files);
  }

  // Outside the directory nothing changes.
  lemma OutsideStays(n: Slots, depth: seq<nat>, m: Slots, u: Change, i: nat)
    requires Tree(n, depth) && IsDir(n, u.d) && Updated(n, depth, m, u)
    requires Live(n, i) && i !in Sub(n, depth, u.d)
    ensures i < |m| && m[i] == n[i]
  {
    GoodKids(n, depth, u.d);
    SubStep(n, depth, u.d, u.d);
    forall c | c in n[u.d].value.subdirs || c in n[u.d].value.subfiles
      ensures c in Sub(n, depth, u.d)
    {
      assert ChildOf(n, depth, u.d, c);
      SubStep(n, depth, u.d, c);
    }
    GoneInside(n, depth, u);
    Untouched(n, depth, m, u, i);
  }

  lemma GoneInside(n: Slots, depth: seq<nat>, u: Change)
    requires Tree(n, depth) && IsDir(n, u.d)
    ensures GoneDirs(n, depth, ByHash(n, n[u.d].value.subdirs), u.hashes) <= Sub(n, depth, u.d)
  {
    SubSplit(n, depth, u.d);
    ByHashFacts(n, n[u.d].value.subdirs);
    hide ByHash, Sub, Tree;
  }
}
