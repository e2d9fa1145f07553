// What an update of a directory entry leaves behind, and when that is a tree again.
module DirUpdate {
  import opened Options
  import opened DirTree

  // ---- The old children by hash and by name; a later entry replaces an earlier one ----

  function HashAt(n: Slots, c: nat): Hash {
    if IsDir(n, c) then n[c].value.dir.hash else NO_HASH
  }

  function NameAt(n: Slots, c: nat): string {
    if IsFile(n, c) then n[c].value.file.name else ""
  }

  ghost function ByHash(n: Slots, ds: seq<nat>): map<Hash, nat> {
    if ds == [] then map[] else ByHash(n, ds[..|ds| - 1])[HashAt(n, ds[|ds| - 1]) := ds[|ds| - 1]]
  }

  ghost function ByName(n: Slots, fs: seq<nat>): map<string, nat> {
    if fs == [] then map[] else ByName(n, fs[..|fs| - 1])[NameAt(n, fs[|fs| - 1]) := fs[|fs| - 1]]
  }

  lemma {:induction false} ByHashFacts(n: Slots, ds: seq<nat>)
    ensures forall h :: h in ByHash(n, ds) ==> ByHash(n, ds)[h] in ds && HashAt(n, ByHash(n, ds)[h]) == h
    ensures forall c :: c in ds ==> HashAt(n, c) in ByHash(n, ds)
  {
    if ds != [] {
      var most := ds[..|ds| - 1];
      assert ds == most + [ds[|ds| - 1]];
      ByHashFacts(n, most);
    }
  }

  lemma {:induction false} ByNameFacts(n: Slots, fs: seq<nat>)
    ensures forall x :: x in ByName(n, fs) ==> ByName(n, fs)[x] in fs && NameAt(n, ByName(n, fs)[x]) == x
    ensures forall c :: c in fs ==> NameAt(n, c) in ByName(n, fs)
  {
    if fs != [] {
      var most := fs[..|fs| - 1];
      assert fs == most + [fs[|fs| - 1]];
      ByNameFacts(n, most);
    }
  }

  ghost predicate DistinctHashes(n: Slots, ds: seq<nat>) {
    forall i, j :: 0 <= i < j < |ds| ==> HashAt(n, ds[i]) != HashAt(n, ds[j])
  }

  ghost predicate DistinctNames(n: Slots, fs: seq<nat>) {
    forall i, j :: 0 <= i < j < |fs| ==> NameAt(n, fs[i]) != NameAt(n, fs[j])
  }

  // With distinct hashes every child is found under its own hash; otherwise some child is not.
  lemma DistinctFound(n: Slots, ds: seq<nat>)
    requires NoDup(ds)
    ensures DistinctHashes(n, ds) <==>
      forall c :: c in ds ==> HashAt(n, c) in ByHash(n, ds) && ByHash(n, ds)[HashAt(n, c)] == c
  {
    hide ByHash;
    ByHashFacts(n, ds);
    var m := ByHash(n, ds);
    if DistinctHashes(n, ds) {
      forall c | c in ds
        ensures m[HashAt(n, c)] == c
      {
        var i :| 0 <= i < |ds| && ds[i] == c;
        var j :| 0 <= j < |ds| && ds[j] == m[HashAt(n, c)];
      }
    } else {
      var i, j :| 0 <= i < j < |ds| && HashAt(n, ds[i]) == HashAt(n, ds[j]);
      assert ds[i] in ds && ds[j] in ds;
    }
  }

  lemma DistinctFoundFiles(n: Slots, fs: seq<nat>)
    requires NoDup(fs)
    ensures DistinctNames(n, fs) <==>
      forall c :: c in fs ==> NameAt(n, c) in ByName(n, fs) && ByName(n, fs)[NameAt(n, c)] == c
  {
    hide ByName;
    ByNameFacts(n, fs);
    var m := ByName(n, fs);
    if DistinctNames(n, fs) {
      forall c | c in fs
        ensures m[NameAt(n, c)] == c
      {
        var i :| 0 <= i < |fs| && fs[i] == c;
        var j :| 0 <= j < |fs| && fs[j] == m[NameAt(n, c)];
      }
    } else {
      var i, j :| 0 <= i < j < |fs| && NameAt(n, fs[i]) == NameAt(n, fs[j]);
      assert fs[i] in fs && fs[j] in fs;
    }
  }

  // ---- The result of an update ----

  // The arguments of an update of directory d, and the child lists it makes.
  datatype Change = Change(d: nat, info: DirInfo, hashes: seq<Hash>, files: seq<FileInfo>, ds: seq<nat>, fs: seq<nat>)

  ghost function Names(fs: seq<FileInfo>): set<string> {
    set f | f in fs :: f.name
  }

  function NewDir(h: Hash): Node {
    Dir(0, 0, DirInfo("", h, 0, 0, 0, 0), [], [])
  }

  // The old subtrees and files that the new lists do not mention.
  ghost function GoneDirs(n: Slots, depth: seq<nat>, byHash: map<Hash, nat>, hashes: seq<Hash>): set<nat>
    requires Tree(n, depth)
  {
    set h, i | h in byHash && h !in hashes && i in Sub(n, depth, byHash[h]) :: i
  }

  ghost function GoneFiles(byName: map<string, nat>, files: seq<FileInfo>): set<nat> {
    set x | x in byName && x !in Names(files) :: byName[x]
  }

  // The k-th subdirectory: the first with its hash is the old one of that hash, if there is one.
  ghost predicate DirAt(n: Slots, m: Slots, d: nat, byHash: map<Hash, nat>, hashes: seq<Hash>, k: nat, c: nat)
    requires k < |hashes|
  {
    c < |m| &&
    if hashes[k] in byHash && hashes[k] !in hashes[..k] then
      && c == byHash[hashes[k]] && IsDir(n, c)
      && var was := n[c].value; m[c] == Some(was.(parent := d, row := k, dir := was.dir.(updateTime := 0)))
    else
      !Live(n, c) && m[c] == Some(NewDir(hashes[k]).(parent := d, row := k))
  }

  // The k-th file: the first with its name is the old one of that name, if there is one.
  ghost predicate FileAt(n: Slots, m: Slots, d: nat, byName: map<string, nat>, free: set<nat>,
                         files: seq<FileInfo>, k: nat, row: nat, c: nat)
    requires k < |files|
  {
    && c < |m| && m[c] == Some(File(d, row, files[k]))
    && if files[k].name in byName && files[k].name !in Names(files[..k]) then c == byName[files[k].name]
       else !Live(n, c) || c in free
  }

  ghost predicate Updated(n: Slots, depth: seq<nat>, m: Slots, u: Change)
    requires Tree(n, depth) && IsDir(n, u.d)
  {
    var byHash, byName := ByHash(n, n[u.d].value.subdirs), ByName(n, n[u.d].value.subfiles);
    var goneDirs, goneFiles := GoneDirs(n, depth, byHash, u.hashes), GoneFiles(byName, u.files);
    && |n| <= |m| && |u.ds| == |u.hashes| && |u.fs| == |u.files| && NoDup(u.ds) && NoDup(u.fs)
    && m[u.d] == Some(n[u.d].value.(dir := u.info, subdirs := u.ds, subfiles := u.fs))
    && (forall k :: 0 <= k < |u.ds| ==> u.ds[k] != u.d && DirAt(n, m, u.d, byHash, u.hashes, k, u.ds[k]))
    && (forall k :: 0 <= k < |u.fs| ==>
          u.fs[k] != u.d && FileAt(n, m, u.d, byName, goneDirs, u.files, k, |u.ds| + k, u.fs[k]))
    && (forall i :: 0 <= i < |m| && i != u.d && i !in u.ds && i !in u.fs ==>
          m[i] == if i < |n| && i !in goneDirs && i !in goneFiles then n[i] else None)
  }

  // ---- What goes ----

  ghost predicate Found(n: Slots, ds: seq<nat>, c: nat) {
    HashAt(n, c) in ByHash(n, ds) && ByHash(n, ds)[HashAt(n, c)] == c
  }

  ghost predicate FoundFile(n: Slots, fs: seq<nat>, c: nat) {
    NameAt(n, c) in ByName(n, fs) && ByName(n, fs)[NameAt(n, c)] == c
  }

  lemma GoneDirFacts(n: Slots, depth: seq<nat>, d: nat, hashes: seq<Hash>, i: nat)
    requires Tree(n, depth) && IsDir(n, d) && i in GoneDirs(n, depth, ByHash(n, n[d].value.subdirs), hashes)
    ensures Live(n, i) && i != 0 && i != d && i !in n[d].value.subfiles
    ensures i in n[d].value.subdirs ==> HashAt(n, i) !in hashes && Found(n, n[d].value.subdirs, i)
  {
    var byHash := ByHash(n, n[d].value.subdirs);
    ByHashFacts(n, n[d].value.subdirs);
    hide ByHash;
    var h :| h in byHash && h !in hashes && i in Sub(n, depth, byHash[h]);
    var e := byHash[h];
    assert GoodDir(n, depth, d);
    assert ChildOf(n, depth, d, e);
    SubDeeper(n, depth, e, i);
    SubStep(n, depth, e, 0);
    if i in n[d].value.subdirs || i in n[d].value.subfiles {
      assert ChildOf(n, depth, d, i);
    }
  }

  lemma GoneDirClosed(n: Slots, depth: seq<nat>, d: nat, hashes: seq<Hash>, c: nat)
    requires Tree(n, depth) && IsDir(n, d) && Live(n, c) && c != 0 && n[c].value.parent != d
    ensures var gone := GoneDirs(n, depth, ByHash(n, n[d].value.subdirs), hashes);
            c in gone <==> n[c].value.parent in gone
  {
    var byHash := ByHash(n, n[d].value.subdirs);
    ByHashFacts(n, n[d].value.subdirs);
    hide ByHash;
    assert GoodDir(n, depth, d);
    forall h | h in byHash
      ensures c in Sub(n, depth, byHash[h]) <==> n[c].value.parent in Sub(n, depth, byHash[h])
    {
      assert ChildOf(n, depth, d, byHash[h]);
      SubStep(n, depth, byHash[h], c);
    }
  }

  // With distinct hashes, each old subdirectory is kept or goes.
  lemma KeptOrGone(n: Slots, depth: seq<nat>, m: Slots, u: Change, c: nat)
    requires Tree(n, depth) && IsDir(n, u.d) && Updated(n, depth, m, u)
    requires DistinctHashes(n, n[u.d].value.subdirs) && c in n[u.d].value.subdirs
    ensures c in u.ds || c in GoneDirs(n, depth, ByHash(n, n[u.d].value.subdirs), u.hashes)
  {
    assert GoodDir(n, depth, u.d);
    DistinctFound(n, n[u.d].value.subdirs);
    var h := HashAt(n, c);
    if h in u.hashes {
      var k := FirstAt(u.hashes, h);
      assert DirAt(n, m, u.d, ByHash(n, n[u.d].value.subdirs), u.hashes, k, u.ds[k]);
    } else {
      SubStep(n, depth, c, c);
    }
  }

  lemma KeptOrGoneFile(n: Slots, depth: seq<nat>, m: Slots, u: Change, c: nat)
    requires Tree(n, depth) && IsDir(n, u.d) && Updated(n, depth, m, u)
    requires DistinctNames(n, n[u.d].value.subfiles) && c in n[u.d].value.subfiles
    ensures c in u.fs || c in GoneFiles(ByName(n, n[u.d].value.subfiles), u.files)
  {
    assert GoodDir(n, depth, u.d);
    DistinctFoundFiles(n, n[u.d].value.subfiles);
    var x := NameAt(n, c);
    if x in Names(u.files) {
      var k := FirstNamed(u.files, x);
      var byName := ByName(n, n[u.d].value.subfiles);
      assert FileAt(n, m, u.d, byName, GoneDirs(n, depth, ByHash(n, n[u.d].value.subdirs), u.hashes), u.files, k,
                    |u.ds| + k, u.fs[k]);
    }
  }

  lemma {:induction false} FirstAt(hashes: seq<Hash>, h: Hash) returns (k: nat)
    requires h in hashes
    ensures k < |hashes| && hashes[k] == h && h !in hashes[..k]
  {
    k := 0;
    while hashes[k] != h
      invariant k < |hashes| && h !in hashes[..k]
      decreases |hashes| - k
    {
      k := k + 1;
    }
  }

  lemma {:induction false} FirstNamed(files: seq<FileInfo>, x: string) returns (k: nat)
    requires x in Names(files)
    ensures k < |files| && files[k].name == x && x !in Names(files[..k])
  {
    k := 0;
    while files[k].name != x
      invariant k < |files| && x !in Names(files[..k])
      decreases |files| - k
    {
      k := k + 1;
    }
  }

  // ---- The new children ----

  // A new child was a child of d before, or its slot was empty, or, for a file, has been emptied.
  lemma NewDirOrigin(n: Slots, depth: seq<nat>, m: Slots, u: Change, c: nat)
    requires Tree(n, depth) && IsDir(n, u.d) && Updated(n, depth, m, u) && c in u.ds
    ensures c != u.d && IsDir(m, c) && m[c].value.parent == u.d
    ensures if Live(n, c) then
              && c in n[u.d].value.subdirs && IsDir(n, c) && HashAt(n, c) in u.hashes
                   && Found(n, n[u.d].value.subdirs, c)
              && m[c].value.subdirs == n[c].value.subdirs && m[c].value.subfiles == n[c].value.subfiles
            else m[c].value.subdirs == [] && m[c].value.subfiles == []
  {
    ByHashFacts(n, n[u.d].value.subdirs);
    var k :| 0 <= k < |u.ds| && u.ds[k] == c;
    assert DirAt(n, m, u.d, ByHash(n, n[u.d].value.subdirs), u.hashes, k, u.ds[k]);
  }

  lemma NewFileOrigin(n: Slots, depth: seq<nat>, m: Slots, u: Change, c: nat)
    requires Tree(n, depth) && IsDir(n, u.d) && Updated(n, depth, m, u) && c in u.fs
    ensures c != u.d && IsFile(m, c) && m[c].value.parent == u.d
    ensures (c in n[u.d].value.subfiles && FoundFile(n, n[u.d].value.subfiles, c)) || !Live(n, c)
         || c in GoneDirs(n, depth, ByHash(n, n[u.d].value.subdirs), u.hashes)
  {
    ByNameFacts(n, n[u.d].value.subfiles);
    var byName := ByName(n, n[u.d].value.subfiles);
    var k :| 0 <= k < |u.fs| && u.fs[k] == c;
    assert FileAt(n, m, u.d, byName, GoneDirs(n, depth, ByHash(n, n[u.d].value.subdirs), u.hashes), u.files, k,
                  |u.ds| + k, u.fs[k]);
  }

  // A node of the tree that is neither d nor a child of d nor gone is untouched.
  lemma Untouched(n: Slots, depth: seq<nat>, m: Slots, u: Change, c: nat)
    requires Tree(n, depth) && IsDir(n, u.d) && Updated(n, depth, m, u)
    requires Live(n, c) && c != u.d && c !in n[u.d].value.subdirs && c !in n[u.d].value.subfiles
    requires c !in GoneDirs(n, depth, ByHash(n, n[u.d].value.subdirs), u.hashes)
    ensures c < |m| && m[c] == n[c] && c !in u.ds && c !in u.fs
  {
    ByNameFacts(n, n[u.d].value.subfiles);
    if c in u.ds { NewDirOrigin(n, depth, m, u, c); }
    if c in u.fs { NewFileOrigin(n, depth, m, u, c); }
  }

  // ---- The updated slots are a tree exactly when the old siblings were distinct ----

  ghost function NewDepth(depth: seq<nat>, m: Slots, u: Change): seq<nat>
    requires u.d < |depth|
  {
    seq(|m|, i requires 0 <= i < |m| => if i in u.ds || i in u.fs then depth[u.d] + 1
        else if i < |depth| then depth[i] else 0)
  }

  // A directory of the new tree other than d has the children it had before, or is new.
  lemma OldDir(n: Slots, depth: seq<nat>, m: Slots, u: Change, p: nat)
    requires Tree(n, depth) && IsDir(n, u.d) && Updated(n, depth, m, u) && IsDir(m, p) && p != u.d
    ensures Live(n, p) ==>
      && IsDir(n, p) && m[p].value.subdirs == n[p].value.subdirs && m[p].value.subfiles == n[p].value.subfiles
      && p !in GoneDirs(n, depth, ByHash(n, n[u.d].value.subdirs), u.hashes) && p !in u.fs
    ensures !Live(n, p) ==> p in u.ds && m[p].value.subdirs == [] && m[p].value.subfiles == []
  {
    if p in u.fs { NewFileOrigin(n, depth, m, u, p); }
    if p in u.ds {
      NewDirOrigin(n, depth, m, u, p);
      if p in GoneDirs(n, depth, ByHash(n, n[u.d].value.subdirs), u.hashes) {
        GoneDirFacts(n, depth, u.d, u.hashes, p);
      }
    }
  }

  lemma OldChild(n: Slots, depth: seq<nat>, m: Slots, u: Change, p: nat, c: nat)
    requires Tree(n, depth) && IsDir(n, u.d) && Updated(n, depth, m, u) && p != u.d
    requires ChildOf(n, depth, p, c) && p !in GoneDirs(n, depth, ByHash(n, n[u.d].value.subdirs), u.hashes)
    ensures c < |m| && c !in u.ds && c !in u.fs && (c != u.d ==> m[c] == n[c])
  {
    assert GoodDir(n, depth, u.d);
    assert c in n[u.d].value.subdirs || c in n[u.d].value.subfiles ==> ChildOf(n, depth, u.d, c);
    GoneDirClosed(n, depth, u.d, u.hashes, c);
    if c != u.d { Untouched(n, depth, m, u, c); }
  }

  lemma SameDepth(n: Slots, depth: seq<nat>, m: Slots, u: Change, p: nat)
    requires Tree(n, depth) && IsDir(n, u.d) && Updated(n, depth, m, u) && IsDir(m, p) && IsDir(n, p) && p !in u.fs
    ensures p < |m| && NewDepth(depth, m, u)[p] == depth[p]
  {
    if p in u.ds {
      NewDirOrigin(n, depth, m, u, p);
      assert GoodDir(n, depth, u.d);
      assert ChildOf(n, depth, u.d, p);
    }
  }

  lemma ChildStays(n: Slots, depth: seq<nat>, m: Slots, u: Change, p: nat, c: nat)
    requires Tree(n, depth) && IsDir(n, u.d) && Updated(n, depth, m, u) && p != u.d
    requires ChildOf(n, depth, p, c) && p !in GoneDirs(n, depth, ByHash(n, n[u.d].value.subdirs), u.hashes)
    requires p < |m| && NewDepth(depth, m, u)[p] == depth[p]
    ensures ChildOf(m, NewDepth(depth, m, u), p, c) && (IsDir(m, c) <==> IsDir(n, c))
  {
    OldChild(n, depth, m, u, p, c);
    assert c == u.d ==> m[c] == Some(n[c].value.(dir := u.info, subdirs := u.ds, subfiles := u.fs));
    hide Updated, Tree, GoneDirs;
  }

  lemma UpdatedDir(n: Slots, depth: seq<nat>, m: Slots, u: Change, p: nat)
    requires Tree(n, depth) && IsDir(n, u.d) && Updated(n, depth, m, u) && IsDir(m, p) && p != u.d
    ensures GoodDir(m, NewDepth(depth, m, u), p)
  {
    hide Updated, GoneDirs, NewDepth, Tree;
    OldDir(n, depth, m, u, p);
    if Live(n, p) {
      GoodKids(n, depth, p);
      SameDepth(n, depth, m, u, p);
      forall c | ChildOf(n, depth, p, c)
        ensures ChildOf(m, NewDepth(depth, m, u), p, c) && (IsDir(m, c) <==> IsDir(n, c))
      {
        ChildStays(n, depth, m, u, p, c);
      }
    }
  }

  lemma UpdatedSelf(n: Slots, depth: seq<nat>, m: Slots, u: Change)
    requires Tree(n, depth) && IsDir(n, u.d) && Updated(n, depth, m, u)
    ensures GoodDir(m, NewDepth(depth, m, u), u.d)
  {
    AllFresh(n, depth, m, u);
    forall c | c in u.ds
      ensures ChildOf(m, NewDepth(depth, m, u), u.d, c) && IsDir(m, c)
    {
      NewDirOrigin(n, depth, m, u, c);
    }
    forall c | c in u.fs
      ensures ChildOf(m, NewDepth(depth, m, u), u.d, c) && IsFile(m, c)
    {
      NewFileOrigin(n, depth, m, u, c);
    }
  }

  // Neither the root nor d itself becomes a child of d.
  lemma AllFresh(n: Slots, depth: seq<nat>, m: Slots, u: Change)
    requires Tree(n, depth) && IsDir(n, u.d) && Updated(n, depth, m, u)
    ensures 0 !in u.ds && 0 !in u.fs && u.d !in u.ds && u.d !in u.fs
  {
    assert GoodDir(n, depth, u.d);
    if 0 in u.ds { NewDirOrigin(n, depth, m, u, 0); }
    if 0 in u.fs {
      NewFileOrigin(n, depth, m, u, 0);
      if 0 in GoneDirs(n, depth, ByHash(n, n[u.d].value.subdirs), u.hashes) {
        GoneDirFacts(n, depth, u.d, u.hashes, 0);
      }
    }
  }

  lemma UpdatedListed(n: Slots, depth: seq<nat>, m: Slots, u: Change, c: nat)
    requires Tree(n, depth) && IsDir(n, u.d) && Updated(n, depth, m, u)
    requires DistinctHashes(n, n[u.d].value.subdirs) && DistinctNames(n, n[u.d].value.subfiles)
    requires Live(m, c) && c != 0
    ensures Listed(m, c)
  {
    if c in u.ds {
      NewDirOrigin(n, depth, m, u, c);
    } else if c in u.fs {
      NewFileOrigin(n, depth, m, u, c);
    } else {
      ListedBefore(n, depth, m, u, c);
      var p := n[c].value.parent;
      ParentAbove(n, depth, c);
      GoneDirClosed(n, depth, u.d, u.hashes, c);
      assert Listed(n, c);
      ParentStays(n, depth, m, u, p);
    }
  }

  // A live node that is not a new child was there before, below another directory than d, and d is
  // the only one of them that changed.
  lemma ListedBefore(n: Slots, depth: seq<nat>, m: Slots, u: Change, c: nat)
    requires Tree(n, depth) && IsDir(n, u.d) && Updated(n, depth, m, u)
    requires DistinctHashes(n, n[u.d].value.subdirs) && DistinctNames(n, n[u.d].value.subfiles)
    requires Live(m, c) && c != 0 && c !in u.ds && c !in u.fs
    ensures Live(n, c) && n[c].value.parent == m[c].value.parent != u.d && (IsDir(n, c) <==> IsDir(m, c))
    ensures c !in GoneDirs(n, depth, ByHash(n, n[u.d].value.subdirs), u.hashes)
  {
    ParentAbove(n, depth, c);
    if c in GoneDirs(n, depth, ByHash(n, n[u.d].value.subdirs), u.hashes) { GoneDirFacts(n, depth, u.d, u.hashes, c); }
    assert Listed(n, c);
    if n[c].value.parent == u.d {
      if c in n[u.d].value.subdirs {
        KeptOrGone(n, depth, m, u, c);
      } else {
        KeptOrGoneFile(n, depth, m, u, c);
      }
    }
  }

  lemma ParentStays(n: Slots, depth: seq<nat>, m: Slots, u: Change, p: nat)
    requires Tree(n, depth) && IsDir(n, u.d) && Updated(n, depth, m, u)
    requires IsDir(n, p) && p != u.d && p !in GoneDirs(n, depth, ByHash(n, n[u.d].value.subdirs), u.hashes)
    requires DistinctHashes(n, n[u.d].value.subdirs)
    ensures IsDir(m, p) && m[p].value.subdirs == n[p].value.subdirs && m[p].value.subfiles == n[p].value.subfiles
  {
    hide Updated, GoneDirs;
    if p in u.ds {
      NewDirOrigin(n, depth, m, u, p);
    } else {
      if p in n[u.d].value.subdirs { KeptOrGone(n, depth, m, u, p); }
      assert GoodDir(n, depth, u.d);
      Untouched(n, depth, m, u, p);
    }
  }

  lemma UpdatedTree(n: Slots, depth: seq<nat>, m: Slots, u: Change)
    requires Tree(n, depth) && IsDir(n, u.d) && Updated(n, depth, m, u)
    requires DistinctHashes(n, n[u.d].value.subdirs) && DistinctNames(n, n[u.d].value.subfiles)
    ensures Tree(m, NewDepth(depth, m, u))
  {
    AllFresh(n, depth, m, u);
    if u.d != 0 { RootStays(n, depth, m, u); }
    forall p: nat | IsDir(m, p)
      ensures GoodDir(m, NewDepth(depth, m, u), p)
    {
      if p == u.d { UpdatedSelf(n, depth, m, u); } else { UpdatedDir(n, depth, m, u, p); }
    }
    forall c: nat | Live(m, c) && c != 0
      ensures Listed(m, c)
    {
      UpdatedListed(n, depth, m, u, c);
    }
  }

  lemma RootStays(n: Slots, depth: seq<nat>, m: Slots, u: Change)
    requires Tree(n, depth) && IsDir(n, u.d) && Updated(n, depth, m, u) && u.d != 0
    ensures IsDir(m, 0)
  {
    assert GoodDir(n, depth, u.d);
    if 0 in GoneDirs(n, depth, ByHash(n, n[u.d].value.subdirs), u.hashes) { GoneDirFacts(n, depth, u.d, u.hashes, 0); }
    assert 0 in n[u.d].value.subdirs || 0 in n[u.d].value.subfiles ==> ChildOf(n, depth, u.d, 0);
    Untouched(n, depth, m, u, 0);
  }

  // An old child hidden behind another of the same hash or name is neither kept nor removed.
  lemma HiddenDir(n: Slots, depth: seq<nat>, m: Slots, u: Change, c: nat)
    requires Tree(n, depth) && IsDir(n, u.d) && Updated(n, depth, m, u)
    requires c in n[u.d].value.subdirs && !Found(n, n[u.d].value.subdirs, c)
    ensures Live(m, c) && c != 0 && !Listed(m, c)
  {
    assert GoodDir(n, depth, u.d);
    assert ChildOf(n, depth, u.d, c);
    ByNameFacts(n, n[u.d].value.subfiles);
    if c in u.ds { NewDirOrigin(n, depth, m, u, c); }
    if c in GoneDirs(n, depth, ByHash(n, n[u.d].value.subdirs), u.hashes) { GoneDirFacts(n, depth, u.d, u.hashes, c); }
    if c in u.fs { NewFileOrigin(n, depth, m, u, c); }
  }

  lemma HiddenFile(n: Slots, depth: seq<nat>, m: Slots, u: Change, c: nat)
    requires Tree(n, depth) && IsDir(n, u.d) && Updated(n, depth, m, u)
    requires c in n[u.d].value.subfiles && !FoundFile(n, n[u.d].value.subfiles, c)
    ensures Live(m, c) && c != 0 && !Listed(m, c)
  {
    assert GoodDir(n, depth, u.d);
    assert ChildOf(n, depth, u.d, c);
    ByNameFacts(n, n[u.d].value.subfiles);
    if c in u.ds { NewDirOrigin(n, depth, m, u, c); }
    if c in GoneDirs(n, depth, ByHash(n, n[u.d].value.subdirs), u.hashes) { GoneDirFacts(n, depth, u.d, u.hashes, c); }
    if c in u.fs { NewFileOrigin(n, depth, m, u, c); }
  }

  // The update keeps the store a tree exactly when the hashes of the old subdirectories and the
  // names of the old files were distinct.
  lemma TreeIffDistinct(n: Slots, depth: seq<nat>, m: Slots, u: Change)
    requires Tree(n, depth) && IsDir(n, u.d) && Updated(n, depth, m, u)
    ensures (exists dd :: Tree(m, dd)) <==>
      DistinctHashes(n, n[u.d].value.subdirs) && DistinctNames(n, n[u.d].value.subfiles)
  {
    assert GoodDir(n, depth, u.d);
    DistinctFound(n, n[u.d].value.subdirs);
    DistinctFoundFiles(n, n[u.d].value.subfiles);
    if DistinctHashes(n, n[u.d].value.subdirs) && DistinctNames(n, n[u.d].value.subfiles) {
      UpdatedTree(n, depth, m, u);
    } else if !DistinctHashes(n, n[u.d].value.subdirs) {
      var c :| c in n[u.d].value.subdirs && !Found(n, n[u.d].value.subdirs, c);
      HiddenDir(n, depth, m, u, c);
    } else {
      var c :| c in n[u.d].value.subfiles && !FoundFile(n, n[u.d].value.subfiles, c);
      HiddenFile(n, depth, m, u, c);
    }
  }

  // ---- The update half way: the first subdirectories are placed, nothing has been removed ----

  function HashSet(hs: seq<Hash>): set<Hash> {
    set h | h in hs
  }

  ghost predicate DirPlaced(n: Slots, m: Slots, byHash: map<Hash, nat>, hs: seq<Hash>, k: nat, c: nat)
    requires k < |hs|
  {
    c < |m| &&
    if hs[k] in byHash && hs[k] !in hs[..k] then c == byHash[hs[k]] else !Live(n, c) && m[c] == Some(NewDir(hs[k]))
  }

  ghost predicate DirsPlaced(n: Slots, d: nat, node: Node, hs: seq<Hash>, m: Slots, ds: seq<nat>)
    requires IsDir(n, d) && node.Dir?
  {
    && |n| <= |m| && m[d] == Some(node.(subdirs := ds)) && NoDup(ds) && |ds| == |hs|
    && (forall i: nat :: Live(n, i) && i != d ==> m[i] == n[i])
    && (forall i: nat :: Live(m, i) && !Live(n, i) ==> i in ds)
    && (forall k :: 0 <= k < |ds| ==> DirPlaced(n, m, ByHash(n, n[d].value.subdirs), hs, k, ds[k]))
  }

  lemma PlacedStays(n: Slots, m: Slots, m': Slots, byHash: map<Hash, nat>, hs: seq<Hash>, h: Hash, k: nat, c: nat)
    requires k < |hs| && DirPlaced(n, m, byHash, hs, k, c) && c < |m'| && m'[c] == m[c]
    ensures DirPlaced(n, m', byHash, hs + [h], k, c)
  {
    assert (hs + [h])[..k] == hs[..k];
  }

  lemma LastPlaced(n: Slots, m: Slots, byHash: map<Hash, nat>, hs: seq<Hash>, h: Hash, c: nat)
    requires c < |m| && if h in byHash && h !in hs then c == byHash[h] else !Live(n, c) && m[c] == Some(NewDir(h))
    ensures DirPlaced(n, m, byHash, hs + [h], |hs|, c)
  {
    assert (hs + [h])[..|hs|] == hs;
  }

  // The entries placed so far are live directories below d, and none is the old one of a hash to come.
  lemma PlacedFacts(n: Slots, depth: seq<nat>, d: nat, node: Node, hs: seq<Hash>, m: Slots, ds: seq<nat>, k: nat)
    requires Tree(n, depth) && IsDir(n, d) && node.Dir? && DirsPlaced(n, d, node, hs, m, ds) && k < |ds|
    ensures IsDir(m, ds[k]) && ds[k] != d && ds[k] != 0
    ensures var byHash := ByHash(n, n[d].value.subdirs);
            forall h :: h in byHash && h !in hs ==> ds[k] != byHash[h]
  {
    var byHash := ByHash(n, n[d].value.subdirs);
    ByHashFacts(n, n[d].value.subdirs);
    hide ByHash;
    assert GoodDir(n, depth, d);
    assert DirPlaced(n, m, byHash, hs, k, ds[k]);
    forall h | h in byHash
      ensures ChildOf(n, depth, d, byHash[h]) && IsDir(n, byHash[h]) && HashAt(n, byHash[h]) == h
    {
    }
  }

  // One more subdirectory: the old one of its hash, or a new one in a slot that was empty.
  ghost predicate NextDir(n: Slots, d: nat, node: Node, hs: seq<Hash>, m: Slots, ds: seq<nat>, h: Hash,
                          m': Slots, c: nat)
    requires IsDir(n, d) && node.Dir?
  {
    var byHash := ByHash(n, n[d].value.subdirs);
    && |m| <= |m'| && d < |m| && c < |m'| && c != d && m'[d] == Some(node.(subdirs := ds + [c]))
    && (forall i: nat :: i < |m'| && i != d && i != c ==> m'[i] == if i < |m| then m[i] else None)
    && if h in byHash && h !in hs then c == byHash[h] && c < |m| && m'[c] == m[c] && m[c].Some?
       else !Live(m, c) && m'[c] == Some(NewDir(h))
  }

  lemma NextPlaced(n: Slots, depth: seq<nat>, d: nat, node: Node, hs: seq<Hash>, m: Slots, ds: seq<nat>,
                   h: Hash, m': Slots, c: nat)
    requires Tree(n, depth) && IsDir(n, d) && node.Dir? && DirsPlaced(n, d, node, hs, m, ds)
    requires NextDir(n, d, node, hs, m, ds, h, m', c)
    ensures NoDup(ds + [c])
    ensures forall k :: 0 <= k < |ds| + 1 ==>
      DirPlaced(n, m', ByHash(n, n[d].value.subdirs), hs + [h], k, (ds + [c])[k])
  {
    hide ByHash, DirPlaced, Tree;
    var byHash := ByHash(n, n[d].value.subdirs);
    forall k | 0 <= k < |ds|
      ensures DirPlaced(n, m', byHash, hs + [h], k, ds[k]) && ds[k] != c
    {
      PlacedFacts(n, depth, d, node, hs, m, ds, k);
      PlacedStays(n, m, m', byHash, hs, h, k, ds[k]);
    }
    NotLiveBefore(n, d, node, hs, m, ds, c);
    LastPlaced(n, m', byHash, hs, h, c);
  }

  lemma NotLiveBefore(n: Slots, d: nat, node: Node, hs: seq<Hash>, m: Slots, ds: seq<nat>, c: nat)
    requires IsDir(n, d) && node.Dir? && DirsPlaced(n, d, node, hs, m, ds) && c != d
    ensures !Live(m, c) ==> !Live(n, c)
  {}

  lemma NextDirsPlaced(n: Slots, depth: seq<nat>, d: nat, node: Node, hs: seq<Hash>, m: Slots, ds: seq<nat>,
                       h: Hash, m': Slots, c: nat)
    requires Tree(n, depth) && IsDir(n, d) && node.Dir? && DirsPlaced(n, d, node, hs, m, ds)
    requires NextDir(n, d, node, hs, m, ds, h, m', c)
    ensures DirsPlaced(n, d, node, hs + [h], m', ds + [c])
  {
    hide ByHash, DirPlaced, Tree, NoDup;
    NextPlaced(n, depth, d, node, hs, m, ds, h, m', c);
    NotLiveBefore(n, d, node, hs, m, ds, c);
  }

  // The old directory of a hash is still where it was.
  lemma OldStays(n: Slots, depth: seq<nat>, d: nat, node: Node, hs: seq<Hash>, m: Slots, ds: seq<nat>, h: Hash)
    requires Tree(n, depth) && IsDir(n, d) && node.Dir? && DirsPlaced(n, d, node, hs, m, ds)
    requires h in ByHash(n, n[d].value.subdirs)
    ensures var c := ByHash(n, n[d].value.subdirs)[h]; IsDir(n, c) && c != d && c < |m| && m[c] == n[c]
  {
    ByHashFacts(n, n[d].value.subdirs);
    assert GoodDir(n, depth, d);
    assert ChildOf(n, depth, d, ByHash(n, n[d].value.subdirs)[h]);
  }

  lemma NonePlaced(n: Slots, depth: seq<nat>, d: nat, node: Node, m: Slots)
    requires Tree(n, depth) && IsDir(n, d) && node.Dir? && m == n[d := Some(node)] && node.subdirs == []
    ensures DirsPlaced(n, d, node, [], m, [])
  {
    assert node.(subdirs := []) == node;
  }

  lemma HashSetSnoc(hs: seq<Hash>, h: Hash)
    ensures HashSet(hs + [h]) == HashSet(hs) + {h} && HashSet([]) == {}
  {}

  // The slot of the next subdirectory has been found or filled; d does not list it yet.
  ghost predicate Picked(n: Slots, d: nat, hs: seq<Hash>, m: Slots, h: Hash, stored: Slots, c: nat)
    requires IsDir(n, d)
  {
    var byHash := ByHash(n, n[d].value.subdirs);
    && |m| <= |stored| && c < |stored| && c != d
    && (forall i: nat :: i < |stored| && i != c ==> stored[i] == if i < |m| then m[i] else None)
    && if h in byHash && h !in hs then c == byHash[h] && c < |m| && stored[c] == m[c] && m[c].Some?
       else !Live(m, c) && stored[c] == Some(NewDir(h))
  }

  lemma PickedNext(n: Slots, d: nat, node: Node, hs: seq<Hash>, m: Slots, ds: seq<nat>, h: Hash, stored: Slots, c: nat)
    requires IsDir(n, d) && node.Dir? && Picked(n, d, hs, m, h, stored, c)
    requires d < |m| && m[d] == Some(node.(subdirs := ds))
    ensures d < |stored| && stored[d] == m[d]
    ensures NextDir(n, d, node, hs, m, ds, h, stored[d := Some(node.(subdirs := ds + [c]))], c)
  {
    hide ByHash;
  }

  // ---- What the hash indexes come to ----

  // Each hash leads to its child; a later child replaces an earlier one of the same hash.
  ghost function Linked(index: map<Hash, nat>, hashes: seq<Hash>, ds: seq<nat>): map<Hash, nat>
    requires |hashes| == |ds|
  {
    if ds == [] then index
    else
      var k := |ds| - 1;
      Linked(index, hashes[..k], ds[..k])[hashes[k] := ds[k]]
  }

  lemma LinkedSnoc(index: map<Hash, nat>, hashes: seq<Hash>, ds: seq<nat>, h: Hash, c: nat)
    requires |hashes| == |ds|
    ensures Linked(index, hashes + [h], ds + [c]) == Linked(index, hashes, ds)[h := c]
    ensures Linked(index, [], []) == index
  {
    assert (hashes + [h])[..|hashes|] == hashes && (ds + [c])[..|ds|] == ds;
  }

  // The last child with a hash is the one the hash leads to.
  lemma {:induction false} LinkedAt(index: map<Hash, nat>, hashes: seq<Hash>, ds: seq<nat>, k: nat)
    requires |hashes| == |ds| && k < |ds| && forall j :: k < j < |ds| ==> hashes[j] != hashes[k]
    ensures hashes[k] in Linked(index, hashes, ds) && Linked(index, hashes, ds)[hashes[k]] == ds[k]
  {
    var last := |ds| - 1;
    if k < last { LinkedAt(index, hashes[..last], ds[..last], k); }
  }

  // Other hashes are as they were.
  lemma {:induction false} LinkedElsewhere(index: map<Hash, nat>, hashes: seq<Hash>, ds: seq<nat>, h: Hash)
    requires |hashes| == |ds| && h !in hashes
    ensures h in Linked(index, hashes, ds) <==> h in index
    ensures h in index ==> Linked(index, hashes, ds)[h] == index[h]
  {
    if ds != [] {
      var last := |ds| - 1;
      LinkedElsewhere(index, hashes[..last], ds[..last], h);
    }
  }

  // After an update the hash of a child leads to it exactly when no removed directory had that hash:
  // the hashes of the removed ones are erased after those of the children have been written.
  lemma ChildLinkedIff(n: Slots, depth: seq<nat>, u: Change, index: map<Hash, nat>, k: nat)
    requires Tree(n, depth) && IsDir(n, u.d) && |u.ds| == |u.hashes| && k < |u.ds|
    requires forall j :: k < j < |u.ds| ==> u.hashes[j] != u.hashes[k]
    ensures var gone := HashesIn(n, GoneDirs(n, depth, ByHash(n, n[u.d].value.subdirs), u.hashes));
            var after := Linked(index, u.hashes, u.ds) - gone;
            (u.hashes[k] in after && after[u.hashes[k]] == u.ds[k]) <==> u.hashes[k] !in gone
  {
    hide GoneDirs, Linked, Tree;
    LinkedAt(index, u.hashes, u.ds, k);
  }

  // A hash given to a directory without children makes one new directory and changes nothing else.
  lemma OnlyChild(n: Slots, depth: seq<nat>, m: Slots, u: Change, h: Hash)
    requires Tree(n, depth) && IsDir(n, u.d) && Updated(n, depth, m, u) && u.hashes == [h] && u.files == []
    requires h !in ByHash(n, n[u.d].value.subdirs) && n[u.d].value.subfiles == []
    ensures |u.ds| == 1 && m[u.d] == Some(n[u.d].value.(dir := u.info, subdirs := u.ds, subfiles := []))
    ensures u.ds[0] != u.d && !Live(n, u.ds[0]) && u.ds[0] < |m|
    ensures m[u.ds[0]] == Some(Dir(u.d, 0, DirInfo("", h, 0, 0, 0, 0), [], []))
    ensures n[u.d].value.subdirs == [] ==>
      forall i: nat :: i < |n| && i != u.d && i != u.ds[0] ==> m[i] == n[i]
  {
    assert u.fs == [];
    var byHash := ByHash(n, n[u.d].value.subdirs);
    assert DirAt(n, m, u.d, byHash, u.hashes, 0, u.ds[0]);
    if n[u.d].value.subdirs == [] {
      assert GoneDirs(n, depth, byHash, u.hashes) == {};
      assert GoneFiles(ByName(n, []), u.files) == {};
    }
  }

  // The only child vanishes: the hash of a directory in it is among those erased.
  lemma VanishesInside(n: Slots, depth: seq<nat>, d: nat, c: nat, e: nat, hashes: seq<Hash>)
    requires Tree(n, depth) && IsDir(n, d) && n[d].value.subdirs == [c] && IsDir(n, c) && HashAt(n, c) !in hashes
    requires IsDir(n, e) && e != 0 && n[e].value.parent == c
    ensures HashAt(n, e) in HashesIn(n, GoneDirs(n, depth, ByHash(n, [c]), hashes))
  {
    hide Tree, Sub, ByHash;
    SubStep(n, depth, c, c);
    SubStep(n, depth, c, e);
    OneByHash(n, c);
    var byHash := ByHash(n, [c]);
    assert byHash[HashAt(n, c)] == c && e in Sub(n, depth, c);
    assert e in GoneDirs(n, depth, byHash, hashes);
  }

  lemma OneByHash(n: Slots, c: nat)
    ensures ByHash(n, [c]) == map[HashAt(n, c) := c]
  {
    var ds := [c];
    assert ds[..|ds| - 1] == [];
    assert ByHash(n, []) == map[];
  }

  // A file's hash leads to it. A file found again without a hash leaves the index alone; a new one
  // without a hash is entered under the null hash.
  ghost function LinkedFiles(index: map<Hash, nat>, byName: map<string, nat>, files: seq<FileInfo>,
                             fs: seq<nat>): map<Hash, nat>
    requires |files| == |fs|
  {
    if fs == [] then index
    else
      var k := |fs| - 1;
      LinkFile(LinkedFiles(index, byName, files[..k], fs[..k]), byName, files[..k], files[k], fs[k])
  }

  ghost function LinkFile(index: map<Hash, nat>, byName: map<string, nat>, before: seq<FileInfo>, f: FileInfo,
                          c: nat): map<Hash, nat> {
    if f.hash == NO_HASH && f.name in byName && f.name !in Names(before) then index else index[f.hash := c]
  }

  lemma LinkedFilesSnoc(index: map<Hash, nat>, byName: map<string, nat>, files: seq<FileInfo>, fs: seq<nat>,
                        f: FileInfo, c: nat)
    requires |files| == |fs|
    ensures LinkedFiles(index, byName, files + [f], fs + [c]) ==
      LinkFile(LinkedFiles(index, byName, files, fs), byName, files, f, c)
    ensures LinkedFiles(index, byName, [], []) == index
  {
    assert (files + [f])[..|files|] == files && (fs + [c])[..|fs|] == fs;
  }

  // The last file with a hash is the one the hash leads to.
  lemma {:induction false} LinkedFileAt(index: map<Hash, nat>, byName: map<string, nat>, files: seq<FileInfo>,
                                        fs: seq<nat>, k: nat)
    requires |files| == |fs| && k < |fs| && files[k].hash != NO_HASH
    requires forall j :: k < j < |fs| ==> files[j].hash != files[k].hash
    ensures files[k].hash in LinkedFiles(index, byName, files, fs)
    ensures LinkedFiles(index, byName, files, fs)[files[k].hash] == fs[k]
  {
    var last := |fs| - 1;
    if k < last {
      LinkedFileAt(index, byName, files[..last], fs[..last], k);
    }
  }

  // ---- Removing the subdirectories that were not asked for ----

  ghost function SubsOf(n: Slots, depth: seq<nat>, byHash: map<Hash, nat>, keys: set<Hash>): set<nat>
    requires Tree(n, depth)
  {
    set h, i | h in keys && h in byHash && i in Sub(n, depth, byHash[h]) :: i
  }

  lemma SubsOfSnoc(n: Slots, depth: seq<nat>, byHash: map<Hash, nat>, keys: set<Hash>, h: Hash)
    requires Tree(n, depth) && h in byHash
    ensures SubsOf(n, depth, byHash, keys + {h}) == SubsOf(n, depth, byHash, keys) + Sub(n, depth, byHash[h])
  {}

  lemma SubsOfNone(n: Slots, depth: seq<nat>, byHash: map<Hash, nat>, m: Slots)
    requires Tree(n, depth)
    ensures Emptied(m, SubsOf(n, depth, byHash, {})) == m
  {}

  lemma NothingDone(keys: set<Hash>)
    ensures keys - keys == {} && keys - {} == keys
  {}

  lemma OneDone(keys: set<Hash>, left: set<Hash>, h: Hash)
    requires left <= keys && h in left
    ensures keys - left + {h} == keys - (left - {h})
  {}

  lemma HashesOfNext(n: Slots, depth: seq<nat>, byHash: map<Hash, nat>, keys: set<Hash>, h: Hash, index: map<Hash, nat>)
    requires Tree(n, depth) && h in byHash
    ensures index - HashesIn(n, SubsOf(n, depth, byHash, keys)) - HashesIn(n, Sub(n, depth, byHash[h]))
         == index - HashesIn(n, SubsOf(n, depth, byHash, keys + {h}))
  {
    hide HashesIn;
    SubsOfSnoc(n, depth, byHash, keys, h);
    HashesUnion(n, SubsOf(n, depth, byHash, keys), Sub(n, depth, byHash[h]));
  }

  lemma NoHashesOf(n: Slots, depth: seq<nat>, byHash: map<Hash, nat>)
    requires Tree(n, depth)
    ensures HashesIn(n, SubsOf(n, depth, byHash, {})) == {}
  {
    assert SubsOf(n, depth, byHash, {}) == {};
  }

  lemma SubsOfAll(n: Slots, depth: seq<nat>, byHash: map<Hash, nat>, hashes: seq<Hash>)
    requires Tree(n, depth)
    ensures SubsOf(n, depth, byHash, (byHash - HashSet(hashes)).Keys) == GoneDirs(n, depth, byHash, hashes)
  {}

  // An old subdirectory that was not asked for is untouched until its turn to be removed.
  lemma VanishStep(n: Slots, depth: seq<nat>, d: nat, node: Node, hashes: seq<Hash>, m: Slots, ds: seq<nat>,
                   done: set<Hash>, h: Hash)
    requires Tree(n, depth) && IsDir(n, d) && node.Dir? && DirsPlaced(n, d, node, hashes, m, ds)
    requires h in ByHash(n, n[d].value.subdirs) && h !in done
    ensures var byHash := ByHash(n, n[d].value.subdirs);
            && IsDir(n, byHash[h])
            && Agree(n, Emptied(m, SubsOf(n, depth, byHash, done)), Sub(n, depth, byHash[h]))
  {
    var byHash := ByHash(n, n[d].value.subdirs);
    ByHashFacts(n, n[d].value.subdirs);
    hide ByHash;
    var c := byHash[h];
    assert GoodDir(n, depth, d);
    assert ChildOf(n, depth, d, c);
    forall i | i in Sub(n, depth, c)
      ensures i < |m| && m[i] == n[i] && i !in SubsOf(n, depth, byHash, done)
    {
      SubDeeper(n, depth, c, i);
      if i in SubsOf(n, depth, byHash, done) {
        var g :| g in done && g in byHash && i in Sub(n, depth, byHash[g]);
        assert ChildOf(n, depth, d, byHash[g]);
        LevelDisjoint(n, depth, c, byHash[g], i);
      }
    }
  }

  lemma RestStep(n: Slots, depth: seq<nat>, d: nat, node: Node, hashes: seq<Hash>, m: Slots, ds: seq<nat>,
                 done: set<Hash>, h: Hash)
    requires Tree(n, depth) && IsDir(n, d) && node.Dir? && DirsPlaced(n, d, node, hashes, m, ds)
    requires h in ByHash(n, n[d].value.subdirs) - HashSet(hashes) && h !in done
    ensures var byHash := ByHash(n, n[d].value.subdirs);
            var c, before := byHash[h], Emptied(m, SubsOf(n, depth, byHash, done));
            && (byHash - HashSet(hashes))[h] == c && IsDir(n, c) && Agree(n, before, Sub(n, depth, c))
            && Emptied(before, Sub(n, depth, c)) == Emptied(m, SubsOf(n, depth, byHash, done + {h}))
  {
    var byHash := ByHash(n, n[d].value.subdirs);
    VanishStep(n, depth, d, node, hashes, m, ds, done, h);
    SubsOfSnoc(n, depth, byHash, done, h);
    EmptiedTwice(m, SubsOf(n, depth, byHash, done), Sub(n, depth, byHash[h]));
  }

  lemma {:induction false} EmptiedSmaller(n: Slots, s: set<nat>)
    ensures Size(Emptied(n, s)) <= Size(n) && Count(Emptied(n, s)) <= Count(n)
  {
    if n != [] {
      EmptiedSmaller(n[..|n| - 1], s);
      assert Emptied(n, s)[..|n| - 1] == Emptied(n[..|n| - 1], s);
    }
  }

  // ---- The update half way: the first files are placed ----

  // The index leads to live files by their names.
  ghost predicate FilesIndexed(b: Slots, byName: map<string, nat>) {
    forall x :: x in byName ==> IsFile(b, byName[x]) && NameAt(b, byName[x]) == x
  }

  lemma IndexedByName(b: Slots, fs: seq<nat>)
    requires forall f :: f in fs ==> IsFile(b, f)
    ensures FilesIndexed(b, ByName(b, fs))
  {
    ByNameFacts(b, fs);
  }

  ghost predicate FilePlaced(b: Slots, m: Slots, byName: map<string, nat>, files: seq<FileInfo>, k: nat, c: nat)
    requires k < |files|
  {
    && IsFile(m, c) && m[c].value.file == files[k]
    && if files[k].name in byName && files[k].name !in Names(files[..k]) then c == byName[files[k].name]
         else !Live(b, c)
  }

  ghost predicate FilesPlaced(b: Slots, d: nat, node: Node, byName: map<string, nat>, files: seq<FileInfo>,
                              m: Slots, fs: seq<nat>)
    requires node.Dir?
  {
    && |b| <= |m| && d < |b| && m[d] == Some(node.(subfiles := fs)) && NoDup(fs) && |fs| == |files|
    && (forall i: nat :: Live(b, i) && i != d && i !in fs ==> m[i] == b[i])
    && (forall i: nat :: Live(m, i) && !Live(b, i) ==> i in fs)
    && (forall k :: 0 <= k < |fs| ==> FilePlaced(b, m, byName, files, k, fs[k]))
  }

  // One more file: the old one of its name with new contents, or a new one in an empty slot.
  ghost predicate PickedFile(d: nat, byName: map<string, nat>, files: seq<FileInfo>, m: Slots, f: FileInfo,
                             stored: Slots, c: nat) {
    && |m| <= |stored| && d < |m| && c != d && IsFile(stored, c) && stored[c].value.file == f
    && (forall i: nat :: i < |stored| && i != c ==> stored[i] == if i < |m| then m[i] else None)
    && if f.name in byName && f.name !in Names(files) then c == byName[f.name] && IsFile(m, c) else !Live(m, c)
  }

  lemma FilePlacedFacts(b: Slots, d: nat, node: Node, byName: map<string, nat>, files: seq<FileInfo>, m: Slots,
                        fs: seq<nat>, k: nat)
    requires node.Dir? && FilesPlaced(b, d, node, byName, files, m, fs) && FilesIndexed(b, byName) && k < |fs|
    ensures IsFile(m, fs[k]) && fs[k] != d
    ensures forall x :: x in byName && x !in Names(files) ==> fs[k] != byName[x]
  {
    assert FilePlaced(b, m, byName, files, k, fs[k]);
  }

  // The old file of a name that has not come up yet is still where it was.
  lemma OldFileStays(b: Slots, d: nat, node: Node, byName: map<string, nat>, files: seq<FileInfo>, m: Slots,
                     fs: seq<nat>, x: string)
    requires node.Dir? && IsDir(b, d) && FilesPlaced(b, d, node, byName, files, m, fs) && FilesIndexed(b, byName)
    requires x in byName && x !in Names(files)
    ensures IsFile(b, byName[x]) && byName[x] != d && byName[x] < |m| && m[byName[x]] == b[byName[x]]
  {
    forall k | 0 <= k < |fs|
      ensures fs[k] != byName[x]
    {
      FilePlacedFacts(b, d, node, byName, files, m, fs, k);
    }
  }

  lemma OldFilesStay(b: Slots, d: nat, node: Node, byName: map<string, nat>, files: seq<FileInfo>, m: Slots,
                     fs: seq<nat>, rest: map<string, nat>)
    requires node.Dir? && IsDir(b, d) && FilesPlaced(b, d, node, byName, files, m, fs) && FilesIndexed(b, byName)
    requires rest == byName - Names(files)
    ensures forall x :: x in rest ==> IsFile(m, rest[x])
    ensures rest.Values == GoneFiles(byName, files)
  {
    hide FilesPlaced, FilesIndexed, Names;
    forall x | x in rest
      ensures IsFile(m, rest[x])
    {
      OldFileStays(b, d, node, byName, files, m, fs, x);
    }
    GoneFilesAre(byName, files);
  }

  lemma FileStays(b: Slots, m: Slots, m': Slots, byName: map<string, nat>, files: seq<FileInfo>, f: FileInfo,
                  k: nat, c: nat)
    requires k < |files| && FilePlaced(b, m, byName, files, k, c) && c < |m'| && m'[c] == m[c]
    ensures FilePlaced(b, m', byName, files + [f], k, c)
  {
    assert (files + [f])[..k] == files[..k];
  }

  lemma NextFiles(b: Slots, d: nat, node: Node, byName: map<string, nat>, files: seq<FileInfo>, m: Slots,
                  fs: seq<nat>, f: FileInfo, stored: Slots, c: nat)
    requires node.Dir? && FilesPlaced(b, d, node, byName, files, m, fs) && FilesIndexed(b, byName)
    requires PickedFile(d, byName, files, m, f, stored, c) && IsDir(b, d)
    ensures d < |stored| && stored[d] == m[d] && NoDup(fs + [c])
    ensures var m' := stored[d := Some(node.(subfiles := fs + [c]))];
            forall k :: 0 <= k < |fs| + 1 ==> FilePlaced(b, m', byName, files + [f], k, (fs + [c])[k])
  {
    hide FilePlaced, Names;
    var m' := stored[d := Some(node.(subfiles := fs + [c]))];
    forall k | 0 <= k < |fs|
      ensures FilePlaced(b, m', byName, files + [f], k, fs[k]) && fs[k] != c
    {
      FilePlacedFacts(b, d, node, byName, files, m, fs, k);
      FileStays(b, m, m', byName, files, f, k, fs[k]);
    }
    LastFile(b, m, m', byName, files, f, c);
  }

  lemma LastFile(b: Slots, m: Slots, m': Slots, byName: map<string, nat>, files: seq<FileInfo>, f: FileInfo, c: nat)
    requires IsFile(m', c) && m'[c].value.file == f
    requires if f.name in byName && f.name !in Names(files) then c == byName[f.name] else !Live(b, c)
    ensures FilePlaced(b, m', byName, files + [f], |files|, c)
  {
    assert (files + [f])[..|files|] == files;
  }

  lemma NextFilesPlaced(b: Slots, d: nat, node: Node, byName: map<string, nat>, files: seq<FileInfo>, m: Slots,
                        fs: seq<nat>, f: FileInfo, stored: Slots, c: nat)
    requires node.Dir? && FilesPlaced(b, d, node, byName, files, m, fs) && FilesIndexed(b, byName)
    requires PickedFile(d, byName, files, m, f, stored, c) && IsDir(b, d)
    ensures d < |stored| && stored[d] == m[d]
    ensures FilesPlaced(b, d, node, byName, files + [f], stored[d := Some(node.(subfiles := fs + [c]))], fs + [c])
  {
    hide FilePlaced, NoDup, Names;
    NextFiles(b, d, node, byName, files, m, fs, f, stored, c);
  }

  lemma NoFilesPlaced(b: Slots, d: nat, node: Node, byName: map<string, nat>, m: Slots)
    requires d < |b| && node.Dir? && m == b[d := Some(node)] && node.subfiles == [] && IsDir(b, d)
    ensures FilesPlaced(b, d, node, byName, [], m, [])
  {
    assert node.(subfiles := []) == node;
  }

  lemma NamesSnoc(files: seq<FileInfo>, f: FileInfo)
    ensures Names(files + [f]) == Names(files) + {f.name} && Names([]) == {}
  {}

  function SumSizes(files: seq<FileInfo>): nat {
    if files == [] then 0 else files[0].size + SumSizes(files[1..])
  }

  // The new files can be added before any old one goes, without an overflow of a counter.
  predicate Fits(m: Slots, files: seq<FileInfo>) {
    Size(m) + SumSizes(files) < U64 && Count(m) + |files| < 0x1_0000_0000
  }

  lemma GoneFilesAre(byName: map<string, nat>, files: seq<FileInfo>)
    ensures (byName - Names(files)).Values == GoneFiles(byName, files)
  {
    var rest := byName - Names(files);
    forall c | c in GoneFiles(byName, files)
      ensures c in rest.Values
    {
      var x :| x in byName && x !in Names(files) && byName[x] == c;
      assert x in rest && rest[x] == c;
    }
  }

  // ---- The update complete but for the rows and parents of the children ----

  function NumberedDir(node: Node, d: nat, row: nat): Node
    requires node.Dir?
  {
    node.(parent := d, row := row, dir := node.dir.(updateTime := 0))
  }

  // The entries of one list get their rows and their parent.
  ghost predicate Numbered(m: Slots, d: nat, ds: seq<nat>, fs: seq<nat>, r: Slots)
  {
    && |r| == |m|
    && (forall k :: 0 <= k < |ds| ==> IsDir(m, ds[k]) && r[ds[k]] == Some(NumberedDir(m[ds[k]].value, d, k)))
    && (forall k :: 0 <= k < |fs| ==> IsFile(m, fs[k]) && r[fs[k]] == Some(File(d, |ds| + k, m[fs[k]].value.file)))
    && (forall i :: 0 <= i < |m| && i !in ds && i !in fs ==> r[i] == m[i])
  }

  // What each phase made of the slots.
  ghost predicate Phases(n: Slots, depth: seq<nat>, u: Change, m1: Slots, b: Slots, m3: Slots, r: Slots)
    requires Tree(n, depth) && IsDir(n, u.d)
  {
    var node := n[u.d].value.(dir := u.info, subdirs := []);
    var byHash, byName := ByHash(n, n[u.d].value.subdirs), ByName(n, n[u.d].value.subfiles);
    && DirsPlaced(n, u.d, node, u.hashes, m1, u.ds)
    && b == Emptied(m1, GoneDirs(n, depth, byHash, u.hashes))
    && FilesPlaced(b, u.d, node.(subdirs := u.ds, subfiles := []), byName, u.files, m3, u.fs)
    && Numbered(Emptied(m3, GoneFiles(byName, u.files)), u.d, u.ds, u.fs, r)
  }

  // What is known of b: d and its files are there, everything else is as in n, placed or gone.
  lemma AfterDirs(n: Slots, depth: seq<nat>, u: Change, m1: Slots, b: Slots)
    requires Tree(n, depth) && IsDir(n, u.d)
    requires DirsPlaced(n, u.d, n[u.d].value.(dir := u.info, subdirs := []), u.hashes, m1, u.ds)
    requires b == Emptied(m1, GoneDirs(n, depth, ByHash(n, n[u.d].value.subdirs), u.hashes))
    ensures u.d < |b| && b[u.d] == Some(n[u.d].value.(dir := u.info, subdirs := u.ds))
    ensures forall f :: f in n[u.d].value.subfiles ==> IsFile(n, f) && f < |b| && b[f] == n[f] && f != u.d
    ensures forall k :: 0 <= k < |u.ds| ==> IsDir(b, u.ds[k]) && b[u.ds[k]] == m1[u.ds[k]]
    ensures forall k :: 0 <= k < |u.ds| ==> u.ds[k] !in n[u.d].value.subfiles && u.ds[k] != u.d
    ensures FilesIndexed(b, ByName(n, n[u.d].value.subfiles))
  {
    assert GoodDir(n, depth, u.d);
    ByNameFacts(n, n[u.d].value.subfiles);
    forall i | i in GoneDirs(n, depth, ByHash(n, n[u.d].value.subdirs), u.hashes)
      ensures i != u.d && i !in n[u.d].value.subfiles && i !in u.ds
    {
      GoneDirFacts(n, depth, u.d, u.hashes, i);
      GoneNotPlaced(n, depth, u, m1, i);
    }
    forall f | f in n[u.d].value.subfiles
      ensures ChildOf(n, depth, u.d, f) && IsFile(n, f)
    {
    }
    forall k | 0 <= k < |u.ds|
      ensures IsDir(m1, u.ds[k]) && u.ds[k] !in n[u.d].value.subfiles && u.ds[k] != u.d
    {
      PlacedFacts(n, depth, u.d, n[u.d].value.(dir := u.info, subdirs := []), u.hashes, m1, u.ds, k);
    }
  }

  lemma GoneNotPlaced(n: Slots, depth: seq<nat>, u: Change, m1: Slots, i: nat)
    requires Tree(n, depth) && IsDir(n, u.d)
    requires DirsPlaced(n, u.d, n[u.d].value.(dir := u.info, subdirs := []), u.hashes, m1, u.ds)
    requires i in GoneDirs(n, depth, ByHash(n, n[u.d].value.subdirs), u.hashes)
    ensures i !in u.ds
  {
    GoneDirFacts(n, depth, u.d, u.hashes, i);
    ByHashFacts(n, n[u.d].value.subdirs);
    forall k | 0 <= k < |u.ds|
      ensures u.ds[k] != i
    {
      assert DirPlaced(n, m1, ByHash(n, n[u.d].value.subdirs), u.hashes, k, u.ds[k]);
    }
  }

  lemma {:induction false} SameNames(n: Slots, b: Slots, fs: seq<nat>)
    requires forall f :: f in fs ==> f < |n| && f < |b| && b[f] == n[f]
    ensures ByName(b, fs) == ByName(n, fs)
  {
    if fs != [] {
      var most := fs[..|fs| - 1];
      assert fs == most + [fs[|fs| - 1]];
      assert forall f :: f in most ==> f in fs;
      assert fs[|fs| - 1] in fs;
      SameNames(n, b, most);
    }
  }

  // ---- The phases together make the update ----

  lemma FilesApart(n: Slots, depth: seq<nat>, u: Change, m1: Slots, b: Slots, m3: Slots, r: Slots, k: nat)
    requires Tree(n, depth) && IsDir(n, u.d) && Phases(n, depth, u, m1, b, m3, r) && k < |u.fs|
    ensures IsFile(m3, u.fs[k]) && u.fs[k] != u.d && u.fs[k] !in u.ds
    ensures u.fs[k] !in GoneFiles(ByName(n, n[u.d].value.subfiles), u.files)
  {
    var byName := ByName(n, n[u.d].value.subfiles);
    AfterDirs(n, depth, u, m1, b);
    ByNameFacts(n, n[u.d].value.subfiles);
    hide DirsPlaced, Tree, ByName, ByHash, Numbered, GoneDirs, NoDup;
    assert FilePlaced(b, m3, byName, u.files, k, u.fs[k]);
    assert u.files[k].name in Names(u.files);
    forall x | x in byName
      ensures IsFile(b, byName[x])
    {
    }
  }

  lemma PhasesDir(n: Slots, depth: seq<nat>, u: Change, m1: Slots, b: Slots, m3: Slots, r: Slots, k: nat)
    requires Tree(n, depth) && IsDir(n, u.d) && Phases(n, depth, u, m1, b, m3, r) && k < |u.ds|
    ensures u.ds[k] != u.d && DirAt(n, r, u.d, ByHash(n, n[u.d].value.subdirs), u.hashes, k, u.ds[k])
  {
    var byName := ByName(n, n[u.d].value.subfiles);
    var c := u.ds[k];
    AfterDirs(n, depth, u, m1, b);
    ByNameFacts(n, n[u.d].value.subfiles);
    assert DirPlaced(n, m1, ByHash(n, n[u.d].value.subdirs), u.hashes, k, c);
    forall j | 0 <= j < |u.fs|
      ensures u.fs[j] != c
    {
      FilesApart(n, depth, u, m1, b, m3, r, j);
    }
    OldPlaced(n, depth, u, m1, k);
    hide Tree, ByName, ByHash, GoneDirs, NoDup, DirsPlaced, DirPlaced;
    assert m3[c] == b[c];
    assert Emptied(m3, GoneFiles(byName, u.files))[c] == b[c];
    assert r[c] == Some(NumberedDir(m1[c].value, u.d, k));
    hide Numbered, FilesPlaced, Phases;
  }

  lemma OldPlaced(n: Slots, depth: seq<nat>, u: Change, m1: Slots, k: nat)
    requires Tree(n, depth) && IsDir(n, u.d) && k < |u.ds|
    requires DirsPlaced(n, u.d, n[u.d].value.(dir := u.info, subdirs := []), u.hashes, m1, u.ds)
    ensures var byHash, c := ByHash(n, n[u.d].value.subdirs), u.ds[k];
            && c < |m1| && c != u.d
            && if u.hashes[k] in byHash && u.hashes[k] !in u.hashes[..k] then
                 c == byHash[u.hashes[k]] && IsDir(n, c) && m1[c] == n[c]
               else !Live(n, c) && m1[c] == Some(NewDir(u.hashes[k]))
  {
    var byHash := ByHash(n, n[u.d].value.subdirs);
    assert DirPlaced(n, m1, byHash, u.hashes, k, u.ds[k]);
    PlacedFacts(n, depth, u.d, n[u.d].value.(dir := u.info, subdirs := []), u.hashes, m1, u.ds, k);
    if u.hashes[k] in byHash && u.hashes[k] !in u.hashes[..k] {
      OldStays(n, depth, u.d, n[u.d].value.(dir := u.info, subdirs := []), u.hashes, m1, u.ds, u.hashes[k]);
    }
  }

  lemma PhasesFile(n: Slots, depth: seq<nat>, u: Change, m1: Slots, b: Slots, m3: Slots, r: Slots, k: nat)
    requires Tree(n, depth) && IsDir(n, u.d) && Phases(n, depth, u, m1, b, m3, r) && k < |u.fs|
    ensures u.fs[k] != u.d
    ensures FileAt(n, r, u.d, ByName(n, n[u.d].value.subfiles),
                   GoneDirs(n, depth, ByHash(n, n[u.d].value.subdirs), u.hashes), u.files, k, |u.ds| + k, u.fs[k])
  {
    hide Tree, ByName, ByHash, GoneDirs, GoneFiles, Phases, Names;
    var c := u.fs[k];
    FilesApart(n, depth, u, m1, b, m3, r, k);
    FileResult(n, depth, u, m1, b, m3, r, k);
    EmptySlots(n, depth, u, m1, b, m3, r, c);
  }

  lemma FileResult(n: Slots, depth: seq<nat>, u: Change, m1: Slots, b: Slots, m3: Slots, r: Slots, k: nat)
    requires Tree(n, depth) && IsDir(n, u.d) && Phases(n, depth, u, m1, b, m3, r) && k < |u.fs|
    requires u.fs[k] !in GoneFiles(ByName(n, n[u.d].value.subfiles), u.files)
    ensures var byName, c := ByName(n, n[u.d].value.subfiles), u.fs[k];
            && c < |r| && k < |u.files| && r[c] == Some(File(u.d, |u.ds| + k, u.files[k]))
            && if u.files[k].name in byName && u.files[k].name !in Names(u.files[..k]) then
                 c == byName[u.files[k].name] else !Live(b, c)
  {
    hide Tree, ByName, ByHash, GoneDirs, GoneFiles, NoDup, DirsPlaced, Names;
    assert FilePlaced(b, m3, ByName(n, n[u.d].value.subfiles), u.files, k, u.fs[k]);
  }

  // A slot that is empty once the subdirectories have been dealt with was empty or is gone.
  lemma EmptySlots(n: Slots, depth: seq<nat>, u: Change, m1: Slots, b: Slots, m3: Slots, r: Slots, c: nat)
    requires Tree(n, depth) && IsDir(n, u.d) && Phases(n, depth, u, m1, b, m3, r) && c != u.d
    ensures !Live(b, c) ==> !Live(n, c) || c in GoneDirs(n, depth, ByHash(n, n[u.d].value.subdirs), u.hashes)
  {
    hide Tree, ByName, ByHash, GoneDirs, GoneFiles, NoDup, DirPlaced, FilesPlaced, Numbered;
  }

  lemma PhasesOther(n: Slots, depth: seq<nat>, u: Change, m1: Slots, b: Slots, m3: Slots, r: Slots, i: nat)
    requires Tree(n, depth) && IsDir(n, u.d) && Phases(n, depth, u, m1, b, m3, r)
    requires i < |r| && i != u.d && i !in u.ds && i !in u.fs
    ensures var goneDirs := GoneDirs(n, depth, ByHash(n, n[u.d].value.subdirs), u.hashes);
            var goneFiles := GoneFiles(ByName(n, n[u.d].value.subfiles), u.files);
            r[i] == if i < |n| && i !in goneDirs && i !in goneFiles then n[i] else None
  {
    hide Tree, ByName, ByHash, GoneDirs, GoneFiles, NoDup, DirPlaced, FilePlaced;
  }

  lemma PhasesSelf(n: Slots, depth: seq<nat>, u: Change, m1: Slots, b: Slots, m3: Slots, r: Slots)
    requires Tree(n, depth) && IsDir(n, u.d) && Phases(n, depth, u, m1, b, m3, r)
    ensures |n| <= |r| && |u.ds| == |u.hashes| && |u.fs| == |u.files| && NoDup(u.ds) && NoDup(u.fs)
    ensures r[u.d] == Some(n[u.d].value.(dir := u.info, subdirs := u.ds, subfiles := u.fs))
  {
    AfterDirs(n, depth, u, m1, b);
    ByNameFacts(n, n[u.d].value.subfiles);
    forall k | 0 <= k < |u.fs|
      ensures u.fs[k] != u.d
    {
      FilesApart(n, depth, u, m1, b, m3, r, k);
    }
    hide Tree, ByName, ByHash, GoneDirs, DirPlaced, FilePlaced, NoDup;
  }

  lemma PhasesFiles(n: Slots, depth: seq<nat>, u: Change, m1: Slots, b: Slots, m3: Slots, r: Slots)
    requires Tree(n, depth) && IsDir(n, u.d) && Phases(n, depth, u, m1, b, m3, r)
    ensures |u.fs| == |u.files|
    ensures var goneDirs := GoneDirs(n, depth, ByHash(n, n[u.d].value.subdirs), u.hashes);
            forall k :: 0 <= k < |u.fs| ==>
              u.fs[k] != u.d
                && FileAt(n, r, u.d, ByName(n, n[u.d].value.subfiles), goneDirs, u.files, k, |u.ds| + k, u.fs[k])
  {
    hide Tree, ByName, ByHash, GoneDirs, FileAt, Phases;
    PhasesSelf(n, depth, u, m1, b, m3, r);
    forall k | 0 <= k < |u.fs|
      ensures u.fs[k] != u.d
      ensures FileAt(n, r, u.d, ByName(n, n[u.d].value.subfiles),
                     GoneDirs(n, depth, ByHash(n, n[u.d].value.subdirs), u.hashes), u.files, k, |u.ds| + k, u.fs[k])
    {
      PhasesFile(n, depth, u, m1, b, m3, r, k);
    }
  }

  lemma PhasesOthers(n: Slots, depth: seq<nat>, u: Change, m1: Slots, b: Slots, m3: Slots, r: Slots)
    requires Tree(n, depth) && IsDir(n, u.d) && Phases(n, depth, u, m1, b, m3, r)
    ensures var goneDirs := GoneDirs(n, depth, ByHash(n, n[u.d].value.subdirs), u.hashes);
            var goneFiles := GoneFiles(ByName(n, n[u.d].value.subfiles), u.files);
            forall i :: 0 <= i < |r| && i != u.d && i !in u.ds && i !in u.fs ==>
              r[i] == if i < |n| && i !in goneDirs && i !in goneFiles then n[i] else None
  {
    hide Tree, ByName, ByHash, GoneDirs, GoneFiles, Phases;
    forall i | 0 <= i < |r| && i != u.d && i !in u.ds && i !in u.fs
      ensures var goneDirs := GoneDirs(n, depth, ByHash(n, n[u.d].value.subdirs), u.hashes);
              var goneFiles := GoneFiles(ByName(n, n[u.d].value.subfiles), u.files);
              r[i] == if i < |n| && i !in goneDirs && i !in goneFiles then n[i] else None
    {
      PhasesOther(n, depth, u, m1, b, m3, r, i);
    }
  }

  lemma PhasesDirs(n: Slots, depth: seq<nat>, u: Change, m1: Slots, b: Slots, m3: Slots, r: Slots)
    requires Tree(n, depth) && IsDir(n, u.d) && Phases(n, depth, u, m1, b, m3, r)
    ensures |u.ds| == |u.hashes|
    ensures forall k :: 0 <= k < |u.ds| ==>
      u.ds[k] != u.d && DirAt(n, r, u.d, ByHash(n, n[u.d].value.subdirs), u.hashes, k, u.ds[k])
  {
    hide Tree, ByHash, GoneDirs, DirAt, Phases;
    PhasesSelf(n, depth, u, m1, b, m3, r);
    forall k | 0 <= k < |u.ds|
      ensures u.ds[k] != u.d && DirAt(n, r, u.d, ByHash(n, n[u.d].value.subdirs), u.hashes, k, u.ds[k])
    {
      PhasesDir(n, depth, u, m1, b, m3, r, k);
    }
  }

  lemma PhasesUpdated(n: Slots, depth: seq<nat>, u: Change, m1: Slots, b: Slots, m3: Slots, r: Slots)
    requires Tree(n, depth) && IsDir(n, u.d) && Phases(n, depth, u, m1, b, m3, r)
    ensures Updated(n, depth, r, u)
  {
    hide Tree, ByName, ByHash, GoneDirs, GoneFiles, FileAt, DirAt, NoDup, Phases;
    PhasesSelf(n, depth, u, m1, b, m3, r);
    PhasesDirs(n, depth, u, m1, b, m3, r);
    PhasesFiles(n, depth, u, m1, b, m3, r);
    PhasesOthers(n, depth, u, m1, b, m3, r);
  }

  // Rows and parents given to the first k entries of each list.
  ghost predicate NumberedUpTo(m: Slots, d: nat, ds: seq<nat>, fs: seq<nat>, r: Slots, i: nat, j: nat)
  {
    && |r| == |m| && i <= |ds| && j <= |fs| && NoDup(ds) && NoDup(fs)
    && (forall k :: 0 <= k < |ds| ==>
          IsDir(m, ds[k]) && r[ds[k]] == if k < i then Some(NumberedDir(m[ds[k]].value, d, k)) else m[ds[k]])
    && (forall k :: 0 <= k < |fs| ==>
          IsFile(m, fs[k]) && r[fs[k]] == if k < j then Some(File(d, |ds| + k, m[fs[k]].value.file)) else m[fs[k]])
    && (forall c :: 0 <= c < |m| && c !in ds && c !in fs ==> r[c] == m[c])
  }

  lemma NumberDir(m: Slots, d: nat, ds: seq<nat>, fs: seq<nat>, r: Slots, i: nat, j: nat)
    requires NumberedUpTo(m, d, ds, fs, r, i, j) && i < |ds|
    ensures IsDir(r, ds[i]) && NumberedUpTo(m, d, ds, fs, r[ds[i] := Some(NumberedDir(r[ds[i]].value, d, i))], i + 1, j)
  {}

  lemma NumberFile(m: Slots, d: nat, ds: seq<nat>, fs: seq<nat>, r: Slots, i: nat, j: nat)
    requires NumberedUpTo(m, d, ds, fs, r, i, j) && j < |fs|
    ensures IsFile(r, fs[j])
    ensures NumberedUpTo(m, d, ds, fs, r[fs[j] := Some(File(d, |ds| + j, r[fs[j]].value.file))], i, j + 1)
  {}

  lemma NumberedAll(m: Slots, d: nat, ds: seq<nat>, fs: seq<nat>, r: Slots)
    requires NumberedUpTo(m, d, ds, fs, r, |ds|, |fs|)
    ensures Numbered(m, d, ds, fs, r)
  {}

  // Renumbering does not touch the files' contents.
  lemma NumberedDirTotals(m: Slots, c: nat, d: nat, row: nat)
    requires IsDir(m, c)
    ensures var r := m[c := Some(NumberedDir(m[c].value, d, row))]; Size(r) == Size(m) && Count(r) == Count(m)
  {
    TotalsUpdate(m, c, Some(NumberedDir(m[c].value, d, row)));
  }

  lemma NumberedFileTotals(m: Slots, c: nat, d: nat, row: nat)
    requires IsFile(m, c)
    ensures var r := m[c := Some(File(d, row, m[c].value.file))]; Size(r) == Size(m) && Count(r) == Count(m)
  {
    TotalsUpdate(m, c, Some(File(d, row, m[c].value.file)));
  }

  lemma {:induction false} SameHashes(n: Slots, b: Slots, ds: seq<nat>)
    requires forall c :: c in ds ==> c < |n| && c < |b| && b[c] == n[c]
    ensures ByHash(b, ds) == ByHash(n, ds)
  {
    if ds != [] {
      var most := ds[..|ds| - 1];
      assert ds == most + [ds[|ds| - 1]];
      assert forall c :: c in most ==> c in ds;
      assert ds[|ds| - 1] in ds;
      SameHashes(n, b, most);
    }
  }

  // A change of d itself leaves its children where they are.
  lemma OwnChange(n: Slots, depth: seq<nat>, d: nat, m: Slots)
    requires Tree(n, depth) && IsDir(n, d) && |m| == |n| && forall i :: 0 <= i < |n| && i != d ==> m[i] == n[i]
    ensures forall c :: c in n[d].value.subdirs ==> IsDir(m, c)
    ensures ByHash(m, n[d].value.subdirs) == ByHash(n, n[d].value.subdirs)
  {
    assert GoodDir(n, depth, d);
    forall c | c in n[d].value.subdirs
      ensures c != d && IsDir(n, c)
    {
      assert ChildOf(n, depth, d, c);
    }
    SameHashes(n, m, n[d].value.subdirs);
  }

  // When both lists have been placed, they can be numbered.
  lemma ReadyToNumber(n: Slots, depth: seq<nat>, u: Change, m1: Slots, b: Slots, m3: Slots, m4: Slots)
    requires Tree(n, depth) && IsDir(n, u.d)
    requires DirsPlaced(n, u.d, n[u.d].value.(dir := u.info, subdirs := []), u.hashes, m1, u.ds)
    requires b == Emptied(m1, GoneDirs(n, depth, ByHash(n, n[u.d].value.subdirs), u.hashes))
    requires FilesPlaced(b, u.d, n[u.d].value.(dir := u.info, subdirs := u.ds, subfiles := []),
                         ByName(n, n[u.d].value.subfiles), u.files, m3, u.fs)
    requires m4 == Emptied(m3, GoneFiles(ByName(n, n[u.d].value.subfiles), u.files))
    ensures u.d < |m4| && m4[u.d] == Some(n[u.d].value.(dir := u.info, subdirs := u.ds, subfiles := u.fs))
    ensures u.d !in u.ds && u.d !in u.fs
    ensures NumberedUpTo(m4, u.d, u.ds, u.fs, m4, 0, 0)
  {
    hide ByName, ByHash, GoneDirs, Tree;
    AfterDirs(n, depth, u, m1, b);
    ByNameFacts(n, n[u.d].value.subfiles);
    var byName := ByName(n, n[u.d].value.subfiles);
    forall k | 0 <= k < |u.fs|
      ensures IsFile(m4, u.fs[k]) && u.fs[k] != u.d
    {
      PlacedNotGone(n, u, b, m3, k);
    }
    forall k | 0 <= k < |u.ds|
      ensures IsDir(m4, u.ds[k])
    {
      DirNotGone(n, u, b, m3, u.ds[k]);
    }
  }

  lemma PlacedNotGone(n: Slots, u: Change, b: Slots, m3: Slots, k: nat)
    requires IsDir(n, u.d) && FilesIndexed(b, ByName(n, n[u.d].value.subfiles)) && k < |u.fs|
    requires FilesPlaced(b, u.d, n[u.d].value.(dir := u.info, subdirs := u.ds, subfiles := []),
                         ByName(n, n[u.d].value.subfiles), u.files, m3, u.fs)
    ensures IsFile(m3, u.fs[k]) && u.fs[k] != u.d && u.fs[k] !in GoneFiles(ByName(n, n[u.d].value.subfiles), u.files)
  {
    hide ByName;
    var byName := ByName(n, n[u.d].value.subfiles);
    assert FilePlaced(b, m3, byName, u.files, k, u.fs[k]);
    assert u.files[k].name in Names(u.files);
  }

  lemma DirNotGone(n: Slots, u: Change, b: Slots, m3: Slots, c: nat)
    requires IsDir(n, u.d) && FilesIndexed(b, ByName(n, n[u.d].value.subfiles)) && IsDir(b, c) && c != u.d
    requires FilesPlaced(b, u.d, n[u.d].value.(dir := u.info, subdirs := u.ds, subfiles := []),
                         ByName(n, n[u.d].value.subfiles), u.files, m3, u.fs)
    ensures IsDir(m3, c) && c !in GoneFiles(ByName(n, n[u.d].value.subfiles), u.files)
  {
    hide ByName;
    forall k | 0 <= k < |u.fs|
      ensures u.fs[k] != c
    {
      assert FilePlaced(b, m3, ByName(n, n[u.d].value.subfiles), u.files, k, u.fs[k]);
    }
  }

  // ---- Distinct siblings stay distinct ----

  ghost predicate SiblingsDistinct(n: Slots, p: nat)
    requires IsDir(n, p)
  {
    DistinctHashes(n, n[p].value.subdirs) && DistinctNames(n, n[p].value.subfiles)
  }

  ghost predicate AllDistinct(n: Slots) {
    forall p :: IsDir(n, p) ==> SiblingsDistinct(n, p)
  }

  // The arguments of an update name each hash and each file once.
  ghost predicate DistinctArguments(u: Change) {
    NoDup(u.hashes) && forall i, j :: 0 <= i < j < |u.files| ==> u.files[i].name != u.files[j].name
  }

  // The updated directory has distinct children exactly when the arguments named each once.
  lemma NewSiblings(n: Slots, depth: seq<nat>, m: Slots, u: Change)
    requires Tree(n, depth) && IsDir(n, u.d) && Updated(n, depth, m, u)
    ensures IsDir(m, u.d) && (SiblingsDistinct(m, u.d) <==> DistinctArguments(u))
  {
    NewChildHashes(n, depth, m, u);
    NewChildNames(n, depth, m, u);
    hide GoneDirs, ByHash, ByName, Tree, HashAt, NameAt, DirAt, FileAt, NoDup;
    assert m[u.d].value.subdirs == u.ds && m[u.d].value.subfiles == u.fs;
    hide Updated;
    SameAsArguments(m, u);
  }

  lemma NewChildHashes(n: Slots, depth: seq<nat>, m: Slots, u: Change)
    requires Tree(n, depth) && IsDir(n, u.d) && Updated(n, depth, m, u)
    ensures |u.ds| == |u.hashes| && forall k :: 0 <= k < |u.ds| ==> HashAt(m, u.ds[k]) == u.hashes[k]
  {
    ByHashFacts(n, n[u.d].value.subdirs);
    hide GoneDirs, ByHash, ByName, Tree;
    forall k | 0 <= k < |u.ds|
      ensures HashAt(m, u.ds[k]) == u.hashes[k]
    {
      assert DirAt(n, m, u.d, ByHash(n, n[u.d].value.subdirs), u.hashes, k, u.ds[k]);
    }
  }

  lemma NewChildNames(n: Slots, depth: seq<nat>, m: Slots, u: Change)
    requires Tree(n, depth) && IsDir(n, u.d) && Updated(n, depth, m, u)
    ensures |u.fs| == |u.files| && forall k :: 0 <= k < |u.fs| ==> NameAt(m, u.fs[k]) == u.files[k].name
  {
    hide GoneDirs, ByHash, ByName, Tree;
    var goneDirs := GoneDirs(n, depth, ByHash(n, n[u.d].value.subdirs), u.hashes);
    forall k | 0 <= k < |u.fs|
      ensures NameAt(m, u.fs[k]) == u.files[k].name
    {
      assert FileAt(n, m, u.d, ByName(n, n[u.d].value.subfiles), goneDirs, u.files, k, |u.ds| + k, u.fs[k]);
    }
  }

  lemma SameAsArguments(m: Slots, u: Change)
    requires |u.ds| == |u.hashes| && forall k :: 0 <= k < |u.ds| ==> HashAt(m, u.ds[k]) == u.hashes[k]
    requires |u.fs| == |u.files| && forall k :: 0 <= k < |u.fs| ==> NameAt(m, u.fs[k]) == u.files[k].name
    ensures DistinctHashes(m, u.ds) && DistinctNames(m, u.fs) <==> DistinctArguments(u)
  {
    hide HashAt, NameAt;
    assert DistinctHashes(m, u.ds) <==> NoDup(u.hashes) by {
      if !NoDup(u.hashes) {
        var i, j :| 0 <= i < j < |u.hashes| && u.hashes[i] == u.hashes[j];
        assert HashAt(m, u.ds[i]) == HashAt(m, u.ds[j]);
      }
    }
    if DistinctNames(m, u.fs) {
      forall i, j | 0 <= i < j < |u.files|
        ensures u.files[i].name != u.files[j].name
      {
        assert NameAt(m, u.fs[i]) != NameAt(m, u.fs[j]);
      }
    }
  }

  // After arguments that repeat a hash or a name, no further update of that directory leaves a tree.
  lemma RepeatsBreakNext(n: Slots, depth: seq<nat>, m: Slots, u: Change, depth': seq<nat>, r: Slots, w: Change)
    requires Tree(n, depth) && IsDir(n, u.d) && Updated(n, depth, m, u) && !DistinctArguments(u)
    requires Tree(m, depth') && w.d == u.d && IsDir(m, w.d) && Updated(m, depth', r, w)
    ensures !exists dd :: Tree(r, dd)
  {
    NewSiblings(n, depth, m, u);
    TreeIffDistinct(m, depth', r, w);
  }

  lemma OldSiblings(n: Slots, depth: seq<nat>, m: Slots, u: Change, p: nat)
    requires Tree(n, depth) && IsDir(n, u.d) && Updated(n, depth, m, u) && AllDistinct(n)
    requires u.info.hash == n[u.d].value.dir.hash && IsDir(m, p) && p != u.d
    ensures SiblingsDistinct(m, p)
  {
    hide Tree, Updated, GoneDirs;
    OldDir(n, depth, m, u, p);
    if Live(n, p) {
      SelfHash(n, depth, m, u);
      ListsGood(n, depth, p);
      forall c | ChildOf(n, depth, p, c)
        ensures HashAt(m, c) == HashAt(n, c) && NameAt(m, c) == NameAt(n, c)
      {
        OldChild(n, depth, m, u, p, c);
      }
      assert SiblingsDistinct(n, p);
    }
  }

  lemma SelfHash(n: Slots, depth: seq<nat>, m: Slots, u: Change)
    requires Tree(n, depth) && IsDir(n, u.d) && Updated(n, depth, m, u) && u.info.hash == n[u.d].value.dir.hash
    ensures HashAt(m, u.d) == HashAt(n, u.d) && NameAt(m, u.d) == NameAt(n, u.d)
  {}

  lemma ListsGood(n: Slots, depth: seq<nat>, p: nat)
    requires Tree(n, depth) && IsDir(n, p)
    ensures forall k :: 0 <= k < |n[p].value.subdirs| ==> ChildOf(n, depth, p, n[p].value.subdirs[k])
    ensures forall k :: 0 <= k < |n[p].value.subfiles| ==> ChildOf(n, depth, p, n[p].value.subfiles[k])
  {
    assert GoodDir(n, depth, p);
  }

  // Updates with distinct arguments keep the condition under which the next update keeps the tree.
  lemma UpdatedDistinct(n: Slots, depth: seq<nat>, m: Slots, u: Change)
    requires Tree(n, depth) && IsDir(n, u.d) && Updated(n, depth, m, u) && AllDistinct(n)
    requires DistinctArguments(u) && u.info.hash == n[u.d].value.dir.hash
    ensures AllDistinct(m)
  {
    forall p: nat | IsDir(m, p)
      ensures SiblingsDistinct(m, p)
    {
      if p == u.d { NewSiblings(n, depth, m, u); } else { OldSiblings(n, depth, m, u, p); }
    }
  }

  // So does taking out a subtree.
  lemma PrunedDistinct(n: Slots, depth: seq<nat>, p: nat, k: nat)
    requires Tree(n, depth) && IsDir(n, p) && k < |n[p].value.subdirs| && AllDistinct(n)
    ensures AllDistinct(Pruned(n, depth, p, k))
  {
    PrunedTree(n, depth, p, k);
    var r := Pruned(n, depth, p, k);
    forall q: nat | IsDir(r, q)
      ensures SiblingsDistinct(r, q)
    {
      PrunedSiblings(n, depth, p, k, q);
    }
  }

  lemma PrunedSiblings(n: Slots, depth: seq<nat>, p: nat, k: nat, q: nat)
    requires Tree(n, depth) && IsDir(n, p) && k < |n[p].value.subdirs| && AllDistinct(n)
    requires Tree(Pruned(n, depth, p, k), depth) && IsDir(Pruned(n, depth, p, k), q)
    ensures SiblingsDistinct(Pruned(n, depth, p, k), q)
  {
    hide Tree, Sub;
    var r := Pruned(n, depth, p, k);
    assert SiblingsDistinct(n, q);
    ListsGood(r, depth, q);
    var ds := n[p].value.subdirs;
    if q == p {
      assert forall j :: 0 <= j < |ds| - 1 ==> SwapPop(ds, k)[j] == if j == k then ds[|ds| - 1] else ds[j];
    }
    assert forall c: nat :: Live(r, c) ==> HashAt(r, c) == HashAt(n, c) && NameAt(r, c) == NameAt(n, c);
  }

  // No other file of the same directory has the name.
  predicate NameIsFree(n: Slots, i: nat, x: string)
    requires IsFile(n, i)
  {
    var p := n[i].value.parent;
    IsDir(n, p) ==> forall c :: c in n[p].value.subfiles && c != i ==> NameAt(n, c) != x
  }

  // So does a change of a file to a name that no other file beside it has.
  lemma FileChangeDistinct(n: Slots, depth: seq<nat>, i: nat, f: FileInfo)
    requires Tree(n, depth) && AllDistinct(n) && IsFile(n, i) && NameIsFree(n, i, f.name)
    ensures AllDistinct(n[i := Some(n[i].value.(file := f))])
  {
    var m := n[i := Some(n[i].value.(file := f))];
    forall p: nat | IsDir(m, p)
      ensures SiblingsDistinct(m, p)
    {
      assert SiblingsDistinct(n, p);
      ListsGood(n, depth, p);
      GoodKids(n, depth, p);
      hide Tree;
      FileChangeSiblings(n, i, f, p);
    }
  }

  lemma FileChangeSiblings(n: Slots, i: nat, f: FileInfo, p: nat)
    requires IsFile(n, i) && IsDir(n, p) && SiblingsDistinct(n, p) && NameIsFree(n, i, f.name)
    requires NoDup(n[p].value.subfiles)
    requires forall c :: c in n[p].value.subfiles ==> Live(n, c) && n[c].value.parent == p
    ensures SiblingsDistinct(n[i := Some(n[i].value.(file := f))], p)
  {
    var m := n[i := Some(n[i].value.(file := f))];
    var fs := n[p].value.subfiles;
    assert forall c: nat :: HashAt(m, c) == HashAt(n, c) && (c != i ==> NameAt(m, c) == NameAt(n, c));
    assert forall k :: 0 <= k < |fs| ==> fs[k] in fs;
  }

  // Keeping the name is always free.
  lemma OwnNameFree(n: Slots, depth: seq<nat>, i: nat)
    requires Tree(n, depth) && AllDistinct(n) && IsFile(n, i)
    ensures NameIsFree(n, i, n[i].value.file.name)
  {
    hide Tree;
    ParentOfFile(n, depth, i);
    assert SiblingsDistinct(n, n[i].value.parent);
    OthersDiffer(n, n[n[i].value.parent].value.subfiles, i);
  }

  lemma OthersDiffer(n: Slots, fs: seq<nat>, i: nat)
    requires DistinctNames(n, fs) && i in fs
    ensures forall c :: c in fs && c != i ==> NameAt(n, c) != NameAt(n, i)
  {
    hide NameAt;
    var k :| 0 <= k < |fs| && fs[k] == i;
    forall c | c in fs && c != i
      ensures NameAt(n, c) != NameAt(n, i)
    {
      var j :| 0 <= j < |fs| && fs[j] == c;
    }
  }

  lemma ParentOfFile(n: Slots, depth: seq<nat>, i: nat)
    requires Tree(n, depth) && IsFile(n, i)
    ensures var p := n[i].value.parent; IsDir(n, p) && i in n[p].value.subfiles
  {
    assert i != 0;
    ParentAbove(n, depth, i);
    assert Listed(n, i);
  }

  // ---- Rows ----

  // The row-th child of a directory, subdirectories first.
  function Child(n: Slots, e: nat, row: nat): Option<nat> {
    if !IsDir(n, e) then None
    else
      var d := n[e].value;
      if row < |d.subdirs| then Some(d.subdirs[row])
      else if row - |d.subdirs| < |d.subfiles| then Some(d.subfiles[row - |d.subdirs|])
      else None
  }

  // After an update every child is found under its own row and its own parent.
  lemma ChildAtItsRow(n: Slots, depth: seq<nat>, m: Slots, u: Change, c: nat)
    requires Tree(n, depth) && IsDir(n, u.d) && Updated(n, depth, m, u) && (c in u.ds || c in u.fs)
    ensures Live(m, c) && m[c].value.parent == u.d && Child(m, u.d, m[c].value.row) == Some(c)
  {
    if c in u.ds {
      var k :| 0 <= k < |u.ds| && u.ds[k] == c;
      assert DirAt(n, m, u.d, ByHash(n, n[u.d].value.subdirs), u.hashes, k, u.ds[k]);
    } else {
      var k :| 0 <= k < |u.fs| && u.fs[k] == c;
      var goneDirs := GoneDirs(n, depth, ByHash(n, n[u.d].value.subdirs), u.hashes);
      assert FileAt(n, m, u.d, ByName(n, n[u.d].value.subfiles), goneDirs, u.files, k, |u.ds| + k, u.fs[k]);
    }
  }
}
