// The store of shared directories and files (InternalFileHierarchyStorage).
module DirHierarchy {
  import opened Words
  import opened Options
  import opened DirTree
  import opened DirUpdate
  import opened DirTotals
  import opened DirLocal
  import opened DirSubdirs
  import opened DirFiles
  import opened DirCheck

  const NO_INDEX: nat := 0xffff_ffff

  // The k-th entry of the free list is the first that leads to an empty slot, namely i.
  predicate FirstEmpty(n: Slots, free: seq<nat>, k: nat, i: nat) {
    k < |free| && free[k] == i < |n| && n[i].None? && forall j :: 0 <= j < k ==> Live(n, free[j])
  }

  class Hierarchy {
    var nodes: Slots
    var freeNodes: seq<nat>
    var fileHashes: map<Hash, nat>
    var dirHashes: map<Hash, nat>
    var totalFiles: u32
    var totalSize: u64
    ghost var depth: seq<nat>

    // The slots form a tree and the free list is exact.
    ghost predicate Valid()
      reads this
    {
      Tree(nodes, depth) && FreeExact(nodes, freeNodes)
    }

    // The counters are the number and the total size of the live files.
    ghost predicate Totalled()
      reads this
    {
      totalFiles == Count(nodes) && totalSize == Size(nodes)
    }

    constructor ()
      ensures Valid() && Totalled() && AllDistinct(nodes)
      ensures nodes == [Some(Dir(0, 0, DirInfo("", NO_HASH, 0, 0, 0, 0), [], []))]
      ensures freeNodes == [] && fileHashes == map[] && dirHashes == map[NO_HASH := 0]
    {
      nodes := [Some(Dir(0, 0, DirInfo("", NO_HASH, 0, 0, 0, 0), [], []))];
      freeNodes := [];
      fileHashes := map[];
      dirHashes := map[NO_HASH := 0];
      totalFiles, totalSize := 0, 0;
      depth := [0];
    }

    predicate CheckIndex(i: nat, directory: bool)
      reads this
    {
      i != NO_INDEX && i < |nodes| && nodes[i].Some? && nodes[i].value.Dir? == directory
    }

    method DeleteNode(i: nat)
      requires i < |nodes|
      modifies `nodes, `freeNodes
      ensures nodes == old(nodes)[i := None]
      ensures freeNodes == old(freeNodes) + if old(nodes[i]).Some? then [i] else []
    {
      if nodes[i].Some? {
        freeNodes := freeNodes + [i];
        nodes := nodes[i := None];
      }
    }

    method DeleteFileNode(i: nat)
      requires i < |nodes| && (nodes[i].Some? ==> nodes[i].value.File?)
      modifies `nodes, `freeNodes, `totalFiles, `totalSize
      ensures nodes == old(nodes)[i := None]
      ensures freeNodes == old(freeNodes) + if old(nodes[i]).Some? then [i] else []
      ensures old(nodes[i]).Some? ==>
        totalSize ==
          old(if totalSize >= nodes[i].value.file.size then totalSize - nodes[i].value.file.size else totalSize) &&
        totalFiles == old(if totalFiles > 0 then totalFiles - 1 else 0)
      ensures old(nodes[i]).None? ==> totalSize == old(totalSize) && totalFiles == old(totalFiles)
      ensures old(Totalled()) ==> Totalled()
    {
      TotalsUpdate(nodes, i, None);
      if nodes[i].Some? {
        if totalSize >= nodes[i].value.file.size { totalSize := totalSize - nodes[i].value.file.size; }
        if totalFiles > 0 { totalFiles := totalFiles - 1; }
        freeNodes := freeNodes + [i];
        nodes := nodes[i := None];
      }
    }

    // Returns an empty slot that is not, or no longer, on the free list. The store grows only when
    // the free list leads to no empty slot.
    method AllocateNewIndex() returns (i: nat)
      requires forall f :: f in freeNodes ==> f < |nodes|
      modifies `nodes, `freeNodes
      ensures i < |nodes| && nodes[i].None?
      ensures if i < |old(nodes)| then nodes == old(nodes) else nodes == old(nodes) + [None]
      ensures i == |old(nodes)| ==> freeNodes == [] && forall f :: f in old(freeNodes) ==> old(nodes)[f].Some?
      ensures old(FreeExact(nodes, freeNodes)) ==> FreeBut(nodes, freeNodes, i)
      ensures i < |old(nodes)| ==>
        exists k :: FirstEmpty(old(nodes), old(freeNodes), k, i) && freeNodes == old(freeNodes)[k + 1..]
      ensures old(FreeExact(nodes, freeNodes) && freeNodes != []) ==>
        i == old(freeNodes[0]) && freeNodes == old(freeNodes[1..])
    {
      if FreeExact(nodes, freeNodes) { FreeFirst(nodes, freeNodes); }
      ghost var k := 0;
      while freeNodes != []
        invariant nodes == old(nodes)
        invariant 0 <= k <= |old(freeNodes)| && freeNodes == old(freeNodes)[k..]
        invariant forall j :: 0 <= j < k ==> old(freeNodes)[j] < |nodes| && nodes[old(freeNodes)[j]].Some?
        invariant old(FreeExact(nodes, freeNodes)) ==> k == 0
        decreases |freeNodes|
      {
        var index := freeNodes[0];
        assert index == old(freeNodes)[k] && index in old(freeNodes);
        freeNodes := freeNodes[1..];
        k := k + 1;
        if nodes[index].None? {
          assert FirstEmpty(nodes, old(freeNodes), k - 1, index);
          return index;
        }
      }
      nodes := nodes + [None];
      return |nodes| - 1;
    }

    method UpdateFile(i: nat, f: FileInfo) returns (ok: bool)
      modifies `nodes, `totalSize, `fileHashes
      ensures ok == old(CheckIndex(i, false))
      ensures !ok ==> unchanged(this)
      ensures ok ==> nodes == old(nodes)[i := Some(old(nodes)[i].value.(file := f))]
      ensures ok ==> fileHashes == if f.hash == NO_HASH then old(fileHashes) else old(fileHashes)[f.hash := i]
      ensures ok && old(Totalled()) && Size(nodes) < U64 ==> Totalled()
      ensures old(Valid()) ==> Valid()
      ensures ok && old(Valid() && AllDistinct(nodes)) && NameIsFree(old(nodes), i, f.name) ==> AllDistinct(nodes)
    {
      hide AllDistinct, Tree, FreeExact, Size, Count, NameIsFree;
      if !CheckIndex(i, false) { return false; }
      var node := nodes[i].value;
      FileChange(nodes, depth, freeNodes, i, f);
      if Valid() && AllDistinct(nodes) && NameIsFree(nodes, i, f.name) { FileChangeDistinct(nodes, depth, i, f); }
      var size: int := totalSize;
      if size >= node.file.size { size := size - node.file.size; }
      totalSize := (size + f.size) % U64;
      nodes := nodes[i := Some(node.(file := f))];
      if f.hash != NO_HASH { fileHashes := fileHashes[f.hash := i]; }
      ok := true;
    }

    // Deletes the subtree of a directory. The tree n is the store as it was when the subtree was
    // still in place; the rest of the store may have changed since.
    method RecursRemoveDirectory(d: nat, ghost n: Slots, ghost depth: seq<nat>, ghost top: nat) returns (ok: bool)
      requires Tree(n, depth) && IsDir(n, d) && depth[d] <= top
      requires forall i :: 0 <= i < |depth| ==> depth[i] <= top
      requires Agree(n, nodes, Sub(n, depth, d)) && FreeExact(nodes, freeNodes)
      modifies `nodes, `freeNodes, `totalFiles, `totalSize, `dirHashes
      ensures ok && nodes == Emptied(old(nodes), Sub(n, depth, d))
      ensures FreeExact(nodes, freeNodes) && dirHashes == old(dirHashes) - HashesIn(n, Sub(n, depth, d))
      ensures old(Totalled()) ==> Totalled()
      decreases top - depth[d]
    {
      hide Tree, FreeExact, Sub, SubAll, Emptied, Agree, HashesIn;
      HashesSplit(n, depth, d);
      DirStillThere(n, depth, nodes, d, 0);
      EmptiedNone(nodes, n, depth, n[d].value.subdirs);
      DirOutlivesChildren(n, depth, nodes, d, 0);
      DirOutlivesChildren(n, depth, nodes, d, |n[d].value.subfiles|);
      WholeFiles(n[d].value.subfiles);
      EmptiedAll(nodes, n, depth, d);
      var hash := nodes[d].value.dir.hash;
      RemoveSubdirs(d, n, depth, top);
      RemoveSubfiles(d, n, depth, old(nodes));
      TotalsUpdate(nodes, d, None);
      FreeMore(nodes, freeNodes, d);
      DeleteNode(d);
      dirHashes := dirHashes - {hash};
      return true;
    }

    method RemoveSubdirs(d: nat, ghost n: Slots, ghost depth: seq<nat>, ghost top: nat)
      requires Tree(n, depth) && IsDir(n, d) && depth[d] <= top
      requires forall i :: 0 <= i < |depth| ==> depth[i] <= top
      requires Agree(n, nodes, Sub(n, depth, d)) && FreeExact(nodes, freeNodes)
      modifies `nodes, `freeNodes, `totalFiles, `totalSize, `dirHashes
      ensures nodes == Emptied(old(nodes), SubAll(n, depth, n[d].value.subdirs))
      ensures FreeExact(nodes, freeNodes)
      ensures dirHashes == old(dirHashes) - HashesIn(n, SubAll(n, depth, n[d].value.subdirs))
      ensures old(Totalled()) ==> Totalled()
      decreases top - depth[d], 0
    {
      hide Tree, FreeExact, Totalled, Sub, SubAll, Agree, Emptied, HashesIn;
      ghost var kids := n[d].value.subdirs;
      EmptiedNone(nodes, n, depth, kids);
      NoHashes(n, depth, kids);
      DirStillThere(n, depth, nodes, d, 0);
      var i := 0;
      while i < |nodes[d].value.subdirs|
        invariant d < |nodes| == |old(nodes)| && nodes[d] == n[d] && i <= |kids|
        invariant nodes == Emptied(old(nodes), SubAll(n, depth, kids[..i]))
        invariant FreeExact(nodes, freeNodes)
        invariant dirHashes == old(dirHashes) - HashesIn(n, SubAll(n, depth, kids[..i]))
        invariant old(Totalled()) ==> Totalled()
      {
        SubdirFacts(n, depth, d, i);
        StillThere(n, depth, old(nodes), d, i);
        EmptiedTwice(old(nodes), SubAll(n, depth, kids[..i]), Sub(n, depth, kids[i]));
        SubAllSnoc(n, depth, kids, i);
        DirStillThere(n, depth, old(nodes), d, i + 1);
        HashesSnoc(n, depth, kids, i);
        var _ := RecursRemoveDirectory(nodes[d].value.subdirs[i], n, depth, top);
        i := i + 1;
      }
      assert kids[..|kids|] == kids;
    }

    method RemoveSubfiles(d: nat, ghost n: Slots, ghost depth: seq<nat>, ghost m: Slots)
      requires Tree(n, depth) && IsDir(n, d) && Agree(n, m, Sub(n, depth, d)) && d < |nodes| && nodes[d] == n[d]
      requires nodes == Emptied(m, SubAll(n, depth, n[d].value.subdirs)) && FreeExact(nodes, freeNodes)
      modifies `nodes, `freeNodes, `totalFiles, `totalSize
      ensures nodes == Emptied(old(nodes), ToSet(n[d].value.subfiles))
      ensures FreeExact(nodes, freeNodes)
      ensures old(Totalled()) ==> Totalled()
    {
      hide Tree, FreeExact, Totalled, Sub, SubAll, Agree, Emptied, ToSet;
      ghost var files := n[d].value.subfiles;
      EmptiedNoFiles(nodes, files);
      var i := 0;
      while i < |nodes[d].value.subfiles|
        invariant d < |nodes| == |old(nodes)| && nodes[d] == n[d] && i <= |files|
        invariant nodes == Emptied(old(nodes), ToSet(files[..i]))
        invariant FreeExact(nodes, freeNodes)
        invariant old(Totalled()) ==> Totalled()
      {
        FileStillThere(n, depth, m, d, i);
        DirOutlivesChildren(n, depth, m, d, i + 1);
        FilesSnoc(files, i);
        EmptiedOne(old(nodes), ToSet(files[..i]), files[i]);
        FreeMore(nodes, freeNodes, files[i]);
        DeleteFileNode(nodes[d].value.subfiles[i]);
        i := i + 1;
      }
      assert files[..|files|] == files;
    }

    method RemoveDirectory(d: nat) returns (ok: bool)
      requires Valid()
      modifies `nodes, `freeNodes, `totalFiles, `totalSize, `dirHashes
      ensures Valid() && (old(Totalled()) ==> Totalled())
      ensures ok <==> old(CheckIndex(d, true)) && d != 0
      ensures !ok ==> unchanged(this)
      ensures old(AllDistinct(nodes)) ==> AllDistinct(nodes)
      ensures ok ==> var p := old(nodes)[d].value.parent;
        && IsDir(old(nodes), p)
        && (exists k :: 0 <= k < |old(nodes)[p].value.subdirs| && old(nodes)[p].value.subdirs[k] == d
             && nodes == Pruned(old(nodes), depth, p, k))
      ensures ok ==> dirHashes == old(dirHashes) - HashesIn(old(nodes), Sub(old(nodes), depth, d))
    {
      if !CheckIndex(d, true) || d == 0 { return false; }
      ghost var n := nodes;
      ParentAbove(nodes, depth, d);
      assert Listed(n, d);
      var p := nodes[d].value.parent;
      var i := 0;
      while i < |nodes[p].value.subdirs|
        invariant i <= |n[p].value.subdirs| && nodes == n && d !in n[p].value.subdirs[..i]
        invariant unchanged(this)
      {
        if nodes[p].value.subdirs[i] == d {
          if AllDistinct(n) { PrunedDistinct(n, depth, p, i); }
          Detach(p, i);
          return true;
        }
        i := i + 1;
      }
      assert false;
    }

    // Takes the i-th subdirectory of p out of its list and deletes its subtree.
    method Detach(p: nat, i: nat)
      requires Valid() && IsDir(nodes, p) && i < |nodes[p].value.subdirs|
      modifies `nodes, `freeNodes, `totalFiles, `totalSize, `dirHashes
      ensures Valid() && (old(Totalled()) ==> Totalled())
      ensures nodes == Pruned(old(nodes), depth, p, i)
      ensures dirHashes == old(dirHashes) - HashesIn(old(nodes), Sub(old(nodes), depth, old(nodes)[p].value.subdirs[i]))
    {
      hide Tree, Sub, Emptied, HashesIn;
      ghost var n := nodes;
      var d := nodes[p].value.subdirs[i];
      SubdirFacts(n, depth, p, i);
      PrunedTree(n, depth, p, i);
      var dir := nodes[p].value;
      nodes := nodes[p := Some(dir.(subdirs := SwapPop(dir.subdirs, i)))];
      TotalsUpdate(n, p, nodes[p]);
      AgreeBelow(n, depth, nodes, p, i);
      ghost var top := Top(depth);
      var _ := RecursRemoveDirectory(d, n, depth, top);
    }

    // ---- Updating a directory entry ----

    // The first part of the update: reuses or creates a subdirectory for each hash, in order, and
    // returns the old subdirectories that were not asked for.
    method PlaceSubdirs(d: nat, hashes: seq<Hash>, existing: map<Hash, nat>, ghost n: Slots,
                        ghost depth: seq<nat>, ghost node: Node)
      returns (rest: map<Hash, nat>, ghost ds: seq<nat>)
      requires Tree(n, depth) && IsDir(n, d) && node.Dir? && node.subdirs == []
      requires nodes == n[d := Some(node)] && FreeExact(nodes, freeNodes) && existing == ByHash(n, n[d].value.subdirs)
      modifies `nodes, `freeNodes, `dirHashes
      ensures DirsPlaced(n, d, node, hashes, nodes, ds) && FreeExact(nodes, freeNodes)
      ensures |nodes| <= |old(nodes)| + |hashes|
      ensures rest == existing - HashSet(hashes)
      ensures |ds| == |hashes| && dirHashes == Linked(old(dirHashes), hashes, ds)
      ensures Size(nodes) == old(Size(nodes)) && Count(nodes) == old(Count(nodes))
    {
      hide Tree, FreeExact, FreeBut, DirsPlaced, HashSet, ByHash, Size, Count, Linked;
      rest := existing;
      ds := [];
      LinkedSnoc(dirHashes, [], [], 0, 0);
      NonePlaced(n, depth, d, node, nodes);
      HashSetSnoc([], 0);
      var i := 0;
      while i < |hashes|
        invariant i <= |hashes| && FreeExact(nodes, freeNodes) && |nodes| <= |old(nodes)| + i
        invariant DirsPlaced(n, d, node, hashes[..i], nodes, ds)
        invariant rest == existing - HashSet(hashes[..i])
        invariant |ds| == i && dirHashes == Linked(old(dirHashes), hashes[..i], ds)
        invariant Size(nodes) == old(Size(nodes)) && Count(nodes) == old(Count(nodes))
      {
        ghost var c := PlaceSubdir(d, hashes[i], rest, n, depth, node, hashes[..i], ds);
        assert hashes[..i + 1] == hashes[..i] + [hashes[i]];
        HashSetSnoc(hashes[..i], hashes[i]);
        LinkedSnoc(old(dirHashes), hashes[..i], ds, hashes[i], c);
        rest := rest - {hashes[i]};
        ds := ds + [c];
        i := i + 1;
      }
      assert hashes[..|hashes|] == hashes;
    }

    // Puts a new node into an empty slot.
    method Store(node: Node) returns (index: nat)
      requires FreeExact(nodes, freeNodes)
      modifies `nodes, `freeNodes
      ensures |old(nodes)| <= |nodes| && index < |nodes| && !Live(old(nodes), index) && nodes[index] == Some(node)
      ensures forall i: nat :: i < |nodes| && i != index ==>
        nodes[i] == if i < |old(nodes)| then old(nodes)[i] else None
      ensures FreeExact(nodes, freeNodes) && |nodes| <= |old(nodes)| + 1
      ensures Size(nodes) == old(Size(nodes)) + SizeOf(Some(node))
      ensures Count(nodes) == old(Count(nodes)) + CountOf(Some(node))
    {
      assert forall f :: f in freeNodes ==> f < |nodes|;
      hide FreeExact, FreeBut, Size, Count;
      TotalsAppend(nodes);
      index := AllocateNewIndex();
      TotalsUpdate(nodes, index, Some(node));
      FreeFilled(nodes, freeNodes, index, node);
      nodes := nodes[index := Some(node)];
    }

    method PickSubdir(d: nat, h: Hash, rest: map<Hash, nat>, ghost n: Slots, ghost depth: seq<nat>, ghost node: Node,
                      ghost hs: seq<Hash>, ghost ds: seq<nat>) returns (index: nat)
      requires Tree(n, depth) && IsDir(n, d) && node.Dir?
      requires DirsPlaced(n, d, node, hs, nodes, ds) && FreeExact(nodes, freeNodes)
      requires rest == ByHash(n, n[d].value.subdirs) - HashSet(hs)
      modifies `nodes, `freeNodes
      ensures Picked(n, d, hs, old(nodes), h, nodes, index) && FreeExact(nodes, freeNodes)
      ensures |nodes| <= |old(nodes)| + 1
      ensures Size(nodes) == old(Size(nodes)) && Count(nodes) == old(Count(nodes))
    {
      if h in rest { OldStays(n, depth, d, node, hs, nodes, ds, h); }
      assert Live(nodes, d);
      hide Tree, FreeExact, DirsPlaced, ByHash, Size, Count;
      if h in rest && rest[h] < |nodes| && nodes[rest[h]].Some? && nodes[rest[h]].value.Dir? {
        index := rest[h];
      } else {
        index := Store(NewDir(h));
      }
    }

    method PlaceSubdir(d: nat, h: Hash, rest: map<Hash, nat>, ghost n: Slots, ghost depth: seq<nat>, ghost node: Node,
                       ghost hs: seq<Hash>, ghost ds: seq<nat>) returns (ghost c: nat)
      requires Tree(n, depth) && IsDir(n, d) && node.Dir?
      requires DirsPlaced(n, d, node, hs, nodes, ds) && FreeExact(nodes, freeNodes)
      requires rest == ByHash(n, n[d].value.subdirs) - HashSet(hs)
      modifies `nodes, `freeNodes, `dirHashes
      ensures DirsPlaced(n, d, node, hs + [h], nodes, ds + [c]) && FreeExact(nodes, freeNodes)
      ensures |nodes| <= |old(nodes)| + 1 && dirHashes == old(dirHashes)[h := c]
      ensures Size(nodes) == old(Size(nodes)) && Count(nodes) == old(Count(nodes))
    {
      ghost var m := nodes;
      assert d < |m| && m[d] == Some(node.(subdirs := ds));
      hide Tree, FreeExact, DirsPlaced, ByHash, Size, Count, Picked, NextDir;
      var index := PickSubdir(d, h, rest, n, depth, node, hs, ds);
      PickedNext(n, d, node, hs, m, ds, h, nodes, index);
      var dir := nodes[d].value;
      TotalsUpdate(nodes, d, Some(dir.(subdirs := dir.subdirs + [index])));
      Refilled(nodes, freeNodes, d, dir.(subdirs := dir.subdirs + [index]));
      nodes := nodes[d := Some(dir.(subdirs := dir.subdirs + [index]))];
      dirHashes := dirHashes[h := index];
      c := index;
      NextDirsPlaced(n, depth, d, node, hs, m, ds, h, nodes, c);
    }

    method RemoveVanished(c: nat, ghost n: Slots, ghost depth: seq<nat>)
      requires Tree(n, depth) && IsDir(n, c) && Agree(n, nodes, Sub(n, depth, c))
      requires FreeExact(nodes, freeNodes) && |nodes| <= NO_INDEX
      modifies `nodes, `freeNodes, `totalFiles, `totalSize, `dirHashes
      ensures nodes == Emptied(old(nodes), Sub(n, depth, c)) && FreeExact(nodes, freeNodes)
      ensures dirHashes == old(dirHashes) - HashesIn(n, Sub(n, depth, c)) && (old(Totalled()) ==> Totalled())
    {
      SubStep(n, depth, c, c);
      if CheckIndex(c, true) {
        ghost var top := Top(depth);
        hide Tree, FreeExact, Totalled, Sub, Agree, Emptied, HashesIn;
        var _ := RecursRemoveDirectory(c, n, depth, top);
      }
    }

    // One of them, when those of the hashes in `done` are gone.
    method RemoveNext(c: nat, ghost h: Hash, ghost n: Slots, ghost depth: seq<nat>, ghost d: nat, ghost node: Node,
                      ghost hashes: seq<Hash>, ghost m: Slots, ghost index: map<Hash, nat>, ghost ds: seq<nat>,
                      ghost done: set<Hash>)
      requires Tree(n, depth) && IsDir(n, d) && node.Dir? && DirsPlaced(n, d, node, hashes, m, ds)
      requires h in ByHash(n, n[d].value.subdirs) - HashSet(hashes) && h !in done
      requires c == ByHash(n, n[d].value.subdirs)[h] && FreeExact(nodes, freeNodes) && |nodes| <= NO_INDEX
      requires nodes == Emptied(m, SubsOf(n, depth, ByHash(n, n[d].value.subdirs), done))
      requires dirHashes == index - HashesIn(n, SubsOf(n, depth, ByHash(n, n[d].value.subdirs), done))
      modifies `nodes, `freeNodes, `totalFiles, `totalSize, `dirHashes
      ensures nodes == Emptied(m, SubsOf(n, depth, ByHash(n, n[d].value.subdirs), done + {h}))
      ensures dirHashes == index - HashesIn(n, SubsOf(n, depth, ByHash(n, n[d].value.subdirs), done + {h}))
      ensures FreeExact(nodes, freeNodes) && (old(Totalled()) ==> Totalled())
    {
      hide Tree, FreeExact, DirsPlaced, ByHash, Sub, SubsOf, Totalled, Agree, Emptied, HashSet, HashesIn;
      RestStep(n, depth, d, node, hashes, m, ds, done, h);
      HashesOfNext(n, depth, ByHash(n, n[d].value.subdirs), done, h, index);
      RemoveVanished(c, n, depth);
    }

    // The second part: removes the old subdirectories that were not asked for. The order in which
    // they go only shows in the order of the free list.
    method RemoveRest(d: nat, hashes: seq<Hash>, rest: map<Hash, nat>, ghost n: Slots, ghost depth: seq<nat>,
                      ghost node: Node, ghost ds: seq<nat>)
      requires Tree(n, depth) && IsDir(n, d) && node.Dir? && DirsPlaced(n, d, node, hashes, nodes, ds)
      requires FreeExact(nodes, freeNodes) && rest == ByHash(n, n[d].value.subdirs) - HashSet(hashes)
      requires |nodes| <= NO_INDEX
      modifies `nodes, `freeNodes, `totalFiles, `totalSize, `dirHashes
      ensures nodes == Emptied(old(nodes), GoneDirs(n, depth, ByHash(n, n[d].value.subdirs), hashes))
      ensures dirHashes == old(dirHashes) - HashesIn(n, GoneDirs(n, depth, ByHash(n, n[d].value.subdirs), hashes))
      ensures FreeExact(nodes, freeNodes) && (old(Totalled()) ==> Totalled())
    {
      hide Tree, FreeExact, DirsPlaced, ByHash, Sub, SubsOf, Totalled, Agree, Emptied, GoneDirs, HashSet, HashesIn;
      ghost var byHash := ByHash(n, n[d].value.subdirs);
      SubsOfNone(n, depth, byHash, nodes);
      SubsOfAll(n, depth, byHash, hashes);
      NoHashesOf(n, depth, byHash);
      var left := rest.Keys;
      NothingDone(left);
      while left != {}
        invariant left <= rest.Keys
        invariant nodes == Emptied(old(nodes), SubsOf(n, depth, byHash, rest.Keys - left))
        invariant dirHashes == old(dirHashes) - HashesIn(n, SubsOf(n, depth, byHash, rest.Keys - left))
        invariant FreeExact(nodes, freeNodes) && (old(Totalled()) ==> Totalled())
        decreases |left|
      {
        var h :| h in left;
        RemoveNext(rest[h], h, n, depth, d, node, hashes, old(nodes), old(dirHashes), ds, rest.Keys - left);
        OneDone(rest.Keys, left, h);
        left := left - {h};
      }
      NothingDone(rest.Keys);
    }

    // The third part: rewrites or creates a file for each given one, in order, and returns the old
    // files that were not given again.
    method PlaceFiles(d: nat, files: seq<FileInfo>, existing: map<string, nat>, ghost b: Slots, ghost node: Node)
      returns (rest: map<string, nat>, ghost fs: seq<nat>)
      requires IsDir(b, d) && node.Dir? && node.subfiles == [] && FilesIndexed(b, existing)
      requires nodes == b[d := Some(node)] && FreeExact(nodes, freeNodes) && |nodes| + |files| <= NO_INDEX
      modifies `nodes, `freeNodes, `fileHashes, `totalFiles, `totalSize
      ensures FilesPlaced(b, d, node, existing, files, nodes, fs) && FreeExact(nodes, freeNodes)
      ensures |nodes| <= |old(nodes)| + |files|
      ensures rest == existing - Names(files)
      ensures |fs| == |files| && fileHashes == LinkedFiles(old(fileHashes), existing, files, fs)
      ensures Size(nodes) <= old(Size(nodes)) + SumSizes(files) && Count(nodes) <= old(Count(nodes)) + |files|
      ensures old(Totalled() && Fits(nodes, files)) ==> Totalled()
    {
      hide FreeExact, FilesPlaced, FilesIndexed, Names, Totalled, Size, Count, LinkedFiles;
      rest := existing;
      fs := [];
      NoFilesPlaced(b, d, node, existing, nodes);
      NamesSnoc([], FileInfo("", 0, 0, 0));
      LinkedFilesSnoc(fileHashes, existing, [], [], FileInfo("", 0, 0, 0), 0);
      var i := 0;
      while i < |files|
        invariant i <= |files| && FreeExact(nodes, freeNodes) && |nodes| <= |old(nodes)| + i
        invariant FilesPlaced(b, d, node, existing, files[..i], nodes, fs)
        invariant rest == existing - Names(files[..i])
        invariant |fs| == i && fileHashes == LinkedFiles(old(fileHashes), existing, files[..i], fs)
        invariant Size(nodes) + SumSizes(files[i..]) <= old(Size(nodes)) + SumSizes(files)
        invariant Count(nodes) <= old(Count(nodes)) + i
        invariant old(Totalled() && Fits(nodes, files)) ==> Totalled()
      {
        ghost var c := PlaceFile(d, files[i], rest, existing, b, node, files[..i], fs);
        assert files[..i + 1] == files[..i] + [files[i]] && files[i..][1..] == files[i + 1..];
        NamesSnoc(files[..i], files[i]);
        LinkedFilesSnoc(old(fileHashes), existing, files[..i], fs, files[i], c);
        rest := rest - {files[i].name};
        fs := fs + [c];
        i := i + 1;
      }
      assert files[..|files|] == files;
    }

    method PlaceFile(d: nat, f: FileInfo, rest: map<string, nat>, ghost byName: map<string, nat>,
                     ghost b: Slots, ghost node: Node,
                     ghost before: seq<FileInfo>, ghost fs: seq<nat>) returns (ghost c: nat)
      requires IsDir(b, d) && node.Dir? && FilesIndexed(b, byName)
      requires FilesPlaced(b, d, node, byName, before, nodes, fs) && FreeExact(nodes, freeNodes) && |nodes| <= NO_INDEX
      requires rest == byName - Names(before)
      modifies `nodes, `freeNodes, `fileHashes, `totalFiles, `totalSize
      ensures FilesPlaced(b, d, node, byName, before + [f], nodes, fs + [c]) && FreeExact(nodes, freeNodes)
      ensures |nodes| <= |old(nodes)| + 1 && fileHashes == LinkFile(old(fileHashes), byName, before, f, c)
      ensures Size(nodes) <= old(Size(nodes)) + f.size && Count(nodes) <= old(Count(nodes)) + 1
      ensures old(Totalled() && Size(nodes) + f.size < U64 && Count(nodes) + 1 < WORD) ==> Totalled()
    {
      ghost var m := nodes;
      assert d < |m| && m[d] == Some(node.(subfiles := fs));
      hide FreeExact, FilesPlaced, FilesIndexed, Size, Count, PickedFile, Names;
      var index := PickFile(d, f, rest, byName, b, node, before, fs);
      NextFilesPlaced(b, d, node, byName, before, m, fs, f, nodes, index);
      var dir := nodes[d].value;
      TotalsUpdate(nodes, d, Some(dir.(subfiles := dir.subfiles + [index])));
      Refilled(nodes, freeNodes, d, dir.(subfiles := dir.subfiles + [index]));
      nodes := nodes[d := Some(dir.(subfiles := dir.subfiles + [index]))];
      c := index;
    }

    method PickFile(d: nat, f: FileInfo, rest: map<string, nat>, ghost byName: map<string, nat>,
                    ghost b: Slots, ghost node: Node,
                    ghost before: seq<FileInfo>, ghost fs: seq<nat>) returns (index: nat)
      requires IsDir(b, d) && node.Dir? && FilesIndexed(b, byName)
      requires FilesPlaced(b, d, node, byName, before, nodes, fs) && FreeExact(nodes, freeNodes) && |nodes| <= NO_INDEX
      requires rest == byName - Names(before)
      modifies `nodes, `freeNodes, `fileHashes, `totalFiles, `totalSize
      ensures PickedFile(d, byName, before, old(nodes), f, nodes, index) && FreeExact(nodes, freeNodes)
      ensures fileHashes == LinkFile(old(fileHashes), byName, before, f, index)
      ensures |nodes| <= |old(nodes)| + 1 && Size(nodes) <= old(Size(nodes)) + f.size
      ensures Count(nodes) <= old(Count(nodes)) + 1
      ensures old(Totalled() && Size(nodes) + f.size < U64 && Count(nodes) + 1 < WORD) ==> Totalled()
    {
      assert d < |nodes| && IsDir(nodes, d);
      if f.name in rest { OldFileStays(b, d, node, byName, before, nodes, fs, f.name); }
      hide FreeExact, FilesPlaced, FilesIndexed, Size, Count, Names, Totalled;
      if f.name in rest && rest[f.name] < |nodes| && nodes[rest[f.name]].Some? && nodes[rest[f.name]].value.File? {
        index := rest[f.name];
        RewriteFile(index, f);
      } else {
        index := StoreFile(f);
      }
    }

    method RewriteFile(index: nat, f: FileInfo)
      requires IsFile(nodes, index) && FreeExact(nodes, freeNodes) && |nodes| <= NO_INDEX
      modifies `nodes, `totalSize, `fileHashes
      ensures nodes == old(nodes)[index := Some(old(nodes)[index].value.(file := f))] && FreeExact(nodes, freeNodes)
      ensures fileHashes == if f.hash == NO_HASH then old(fileHashes) else old(fileHashes)[f.hash := index]
      ensures Size(nodes) <= old(Size(nodes)) + f.size && Count(nodes) <= old(Count(nodes)) + 1
      ensures old(Totalled() && Size(nodes) + f.size < U64 && Count(nodes) + 1 < WORD) ==> Totalled()
    {
      hide FreeExact, Size, Count;
      ghost var before := nodes[index].value;
      TotalsUpdate(nodes, index, Some(before.(file := f)));
      Refilled(nodes, freeNodes, index, before.(file := f));
      var _ := UpdateFile(index, f);
    }

    method StoreFile(f: FileInfo) returns (index: nat)
      requires FreeExact(nodes, freeNodes)
      modifies `nodes, `freeNodes, `fileHashes, `totalFiles, `totalSize
      ensures |old(nodes)| <= |nodes| <= |old(nodes)| + 1 && index < |nodes| && !Live(old(nodes), index)
      ensures nodes[index] == Some(File(0, 0, f))
      ensures forall i: nat :: i < |nodes| && i != index ==>
        nodes[i] == if i < |old(nodes)| then old(nodes)[i] else None
      ensures FreeExact(nodes, freeNodes) && fileHashes == old(fileHashes)[f.hash := index]
      ensures Size(nodes) <= old(Size(nodes)) + f.size && Count(nodes) <= old(Count(nodes)) + 1
      ensures old(Totalled() && Size(nodes) + f.size < U64 && Count(nodes) + 1 < WORD) ==> Totalled()
    {
      hide FreeExact, Size, Count;
      index := Store(File(0, 0, f));
      fileHashes := fileHashes[f.hash := index];
      totalSize := (totalSize as int + f.size) % U64;
      totalFiles := (totalFiles as int + 1) % WORD;
    }

    // The fourth part: deletes the old files that were not given again.
    method RemoveRestFiles(rest: map<string, nat>)
      requires FreeExact(nodes, freeNodes) && |nodes| <= NO_INDEX && forall x :: x in rest ==> IsFile(nodes, rest[x])
      modifies `nodes, `freeNodes, `totalFiles, `totalSize
      ensures nodes == Emptied(old(nodes), rest.Values)
      ensures FreeExact(nodes, freeNodes) && (old(Totalled()) ==> Totalled())
    {
      hide FreeExact, Totalled;
      ghost var gone: set<nat> := {};
      var left := rest.Keys;
      while left != {}
        invariant left <= rest.Keys && gone <= rest.Values && |nodes| == |old(nodes)|
        invariant forall x :: x in rest && x !in left ==> rest[x] in gone
        invariant nodes == Emptied(old(nodes), gone)
        invariant FreeExact(nodes, freeNodes) && (old(Totalled()) ==> Totalled())
        decreases |left|
      {
        var x :| x in left;
        if CheckIndex(rest[x], false) {
          FreeMore(nodes, freeNodes, rest[x]);
          DeleteFileNode(rest[x]);
        }
        gone := gone + {rest[x]};
        left := left - {x};
      }
      assert gone == rest.Values;
    }

    // The last part: rows and parents of the children, subdirectories first.
    method NumberChildren(d: nat, ghost ds: seq<nat>, ghost fs: seq<nat>)
      requires IsDir(nodes, d) && nodes[d].value.subdirs == ds && nodes[d].value.subfiles == fs && d !in ds && d !in fs
      requires NumberedUpTo(nodes, d, ds, fs, nodes, 0, 0) && FreeExact(nodes, freeNodes)
      modifies `nodes
      ensures Numbered(old(nodes), d, ds, fs, nodes) && FreeExact(nodes, freeNodes) && |nodes| == |old(nodes)|
      ensures Size(nodes) == old(Size(nodes)) && Count(nodes) == old(Count(nodes))
    {
      hide FreeExact, NumberedUpTo, Size, Count;
      var row := 0;
      var i := 0;
      while i < |nodes[d].value.subdirs|
        invariant d < |nodes| == |old(nodes)| && nodes[d] == old(nodes)[d] && i == row <= |ds|
        invariant NumberedUpTo(old(nodes), d, ds, fs, nodes, i, 0) && FreeExact(nodes, freeNodes)
        invariant Size(nodes) == old(Size(nodes)) && Count(nodes) == old(Count(nodes))
      {
        NumberDir(old(nodes), d, ds, fs, nodes, i, 0);
        var c := nodes[d].value.subdirs[i];
        NumberedDirTotals(nodes, c, d, row);
        Refilled(nodes, freeNodes, c, NumberedDir(nodes[c].value, d, row));
        nodes := nodes[c := Some(NumberedDir(nodes[c].value, d, row))];
        row := row + 1;
        i := i + 1;
      }
      i := 0;
      while i < |nodes[d].value.subfiles|
        invariant d < |nodes| == |old(nodes)| && nodes[d] == old(nodes)[d] && i <= |fs| && row == |ds| + i
        invariant NumberedUpTo(old(nodes), d, ds, fs, nodes, |ds|, i) && FreeExact(nodes, freeNodes)
        invariant Size(nodes) == old(Size(nodes)) && Count(nodes) == old(Count(nodes))
      {
        NumberFile(old(nodes), d, ds, fs, nodes, |ds|, i);
        var c := nodes[d].value.subfiles[i];
        NumberedFileTotals(nodes, c, d, row);
        Refilled(nodes, freeNodes, c, File(d, row, nodes[c].value.file));
        nodes := nodes[c := Some(File(d, row, nodes[c].value.file))];
        row := row + 1;
        i := i + 1;
      }
      NumberedAll(old(nodes), d, ds, fs, nodes);
    }

    method CollectDirs(ds: seq<nat>) returns (m: map<Hash, nat>)
      requires forall c :: c in ds ==> IsDir(nodes, c)
      ensures m == ByHash(nodes, ds)
    {
      m := map[];
      var i := 0;
      while i < |ds|
        invariant i <= |ds| && m == ByHash(nodes, ds[..i])
      {
        assert ds[i] in ds && ds[..i + 1][..i] == ds[..i];
        m := m[nodes[ds[i]].value.dir.hash := ds[i]];
        i := i + 1;
      }
      assert ds[..|ds|] == ds;
    }

    method CollectFiles(fs: seq<nat>) returns (m: map<string, nat>)
      requires forall c :: c in fs ==> IsFile(nodes, c)
      ensures m == ByName(nodes, fs)
    {
      m := map[];
      var i := 0;
      while i < |fs|
        invariant i <= |fs| && m == ByName(nodes, fs[..i])
      {
        assert fs[i] in fs && fs[..i + 1][..i] == fs[..i];
        m := m[nodes[fs[i]].value.file.name := fs[i]];
        i := i + 1;
      }
      assert fs[..|fs|] == fs;
    }

    // Changes the fields of a directory in place.
    method SetDir(d: nat, dir: Node)
      requires IsDir(nodes, d) && dir.Dir? && FreeExact(nodes, freeNodes)
      modifies `nodes
      ensures nodes == old(nodes)[d := Some(dir)] && FreeExact(nodes, freeNodes)
      ensures Size(nodes) == old(Size(nodes)) && Count(nodes) == old(Count(nodes))
      ensures old(Totalled()) ==> Totalled()
    {
      hide FreeExact, Size, Count;
      TotalsUpdate(nodes, d, Some(dir));
      Refilled(nodes, freeNodes, d, dir);
      nodes := nodes[d := Some(dir)];
    }

    method UpdateSubdirs(d: nat, hashes: seq<Hash>, ghost n: Slots, ghost depth: seq<nat>, ghost info: DirInfo)
      returns (ghost m: Slots, ghost ds: seq<nat>)
      requires Tree(n, depth) && IsDir(n, d) && nodes == n[d := Some(n[d].value.(dir := info))]
      requires FreeExact(nodes, freeNodes)
      requires |nodes| + |hashes| <= NO_INDEX
      modifies `nodes, `freeNodes, `totalFiles, `totalSize, `dirHashes
      ensures DirsPlaced(n, d, n[d].value.(dir := info, subdirs := []), hashes, m, ds)
      ensures nodes == Emptied(m, GoneDirs(n, depth, ByHash(n, n[d].value.subdirs), hashes))
      ensures FreeExact(nodes, freeNodes) && |nodes| <= |old(nodes)| + |hashes| && |ds| == |hashes|
      ensures dirHashes ==
        Linked(old(dirHashes), hashes, ds) - HashesIn(n, GoneDirs(n, depth, ByHash(n, n[d].value.subdirs), hashes))
      ensures Size(nodes) <= old(Size(nodes)) && Count(nodes) <= old(Count(nodes))
      ensures old(Totalled()) ==> Totalled()
    {
      hide Tree, FreeExact, ByHash, GoneDirs, DirsPlaced, Size, Count, HashSet, Linked, HashesIn;
      OwnChange(n, depth, d, nodes);
      ghost var node := n[d].value.(dir := info, subdirs := []);
      var existing := CollectDirs(nodes[d].value.subdirs);
      SetDir(d, nodes[d].value.(subdirs := []));
      assert nodes == n[d := Some(node)];
      var rest;
      rest, ds := PlaceSubdirs(d, hashes, existing, n, depth, node);
      m := nodes;
      EmptiedSmaller(m, GoneDirs(n, depth, ByHash(n, n[d].value.subdirs), hashes));
      RemoveRest(d, hashes, rest, n, depth, node, ds);
    }

    method UpdateSubfiles(d: nat, files: seq<FileInfo>, ghost byName: map<string, nat>)
      returns (ghost m: Slots, ghost fs: seq<nat>)
      requires IsDir(nodes, d) && FreeExact(nodes, freeNodes) && |nodes| + |files| <= NO_INDEX
      requires forall f :: f in nodes[d].value.subfiles ==> IsFile(nodes, f)
      requires byName == ByName(nodes, nodes[d].value.subfiles)
      modifies `nodes, `freeNodes, `fileHashes, `totalFiles, `totalSize
      ensures FilesPlaced(old(nodes), d, old(nodes)[d].value.(subfiles := []), byName, files, m, fs)
      ensures nodes == Emptied(m, GoneFiles(byName, files))
      ensures FreeExact(nodes, freeNodes) && |nodes| <= |old(nodes)| + |files|
      ensures |fs| == |files| && fileHashes == LinkedFiles(old(fileHashes), byName, files, fs)
      ensures Size(nodes) <= old(Size(nodes)) + SumSizes(files) && Count(nodes) <= old(Count(nodes)) + |files|
      ensures old(Totalled() && Fits(nodes, files)) ==> Totalled()
    {
      hide FreeExact, ByName, GoneFiles, FilesPlaced, FilesIndexed, Size, Count, Names, LinkedFiles, Totalled, SumSizes;
      ghost var b := nodes;
      IndexedByName(b, nodes[d].value.subfiles);
      var dir := nodes[d].value;
      var existing := CollectFiles(dir.subfiles);
      SetDir(d, dir.(subfiles := []));
      var rest;
      rest, fs := PlaceFiles(d, files, existing, b, dir.(subfiles := []));
      m := nodes;
      EmptiedSmaller(m, GoneFiles(byName, files));
      OldFilesStay(b, d, dir.(subfiles := []), byName, files, nodes, fs, rest);
      RemoveRestFiles(rest);
    }

    // Everything but the counters: the phases one after the other.
    method Reconcile(d: nat, info: DirInfo, hashes: seq<Hash>, files: seq<FileInfo>) returns (ghost u: Change)
      requires Valid() && IsDir(nodes, d) && |nodes| + |hashes| + |files| <= NO_INDEX
      modifies `nodes, `freeNodes, `fileHashes, `totalFiles, `totalSize, `dirHashes
      ensures u == Change(d, info, hashes, files, u.ds, u.fs) && Updated(old(nodes), depth, nodes, u)
      ensures FreeExact(nodes, freeNodes) && |nodes| <= |old(nodes)| + |hashes| + |files|
      ensures |u.ds| == |hashes| && |u.fs| == |files|
      ensures dirHashes ==
        Linked(old(dirHashes), hashes, u.ds)
          - HashesIn(old(nodes), GoneDirs(old(nodes), depth, ByHash(old(nodes), old(nodes)[d].value.subdirs), hashes))
      ensures fileHashes == LinkedFiles(old(fileHashes), ByName(old(nodes), old(nodes)[d].value.subfiles), files, u.fs)
      ensures Size(nodes) <= old(Size(nodes)) + SumSizes(files) && Count(nodes) <= old(Count(nodes)) + |files|
      ensures old(Totalled() && Fits(nodes, files)) ==> Totalled()
    {
      hide Tree, FreeExact, GoneDirs, GoneFiles, DirsPlaced, FilesPlaced, Size, Count, ByHash, ByName, Updated,
        Numbered, NumberedUpTo;
      hide Linked, LinkedFiles, HashesIn;
      ghost var n := nodes;
      ghost var byName := ByName(n, n[d].value.subfiles);
      SetDir(d, nodes[d].value.(dir := info));
      ghost var m1, ds := UpdateSubdirs(d, hashes, n, depth, info);
      ghost var b := nodes;
      u := Change(d, info, hashes, files, ds, []);
      AfterDirs(n, depth, u, m1, b);
      SameNames(n, b, n[d].value.subfiles);
      ghost var m3, fs := UpdateSubfiles(d, files, byName);
      u := Change(d, info, hashes, files, ds, fs);
      ReadyToNumber(n, depth, u, m1, b, m3, nodes);
      NumberChildren(d, ds, fs);
      PhasesUpdated(n, depth, u, m1, b, m3, nodes);
    }

    // Makes the children of d the directories of the given hashes and the given files, in order.
    method UpdateDirEntry(d: nat, name: string, mostRecent: int, modtime: int, hashes: seq<Hash>,
                          files: seq<FileInfo>, now: int)
      returns (ok: bool, ghost u: Change)
      requires Valid() && |nodes| + |hashes| + |files| <= NO_INDEX
      modifies this
      ensures ok == old(CheckIndex(d, true))
      ensures !ok ==> unchanged(this)
      ensures ok ==> IsDir(old(nodes), d) && u == Change(d, u.info, hashes, files, u.ds, u.fs)
      ensures ok ==>
        u.info == old(nodes)[d].value.dir.(name := name, mostRecent := mostRecent, modtime := modtime,
                                           updateTime := now)
      ensures ok ==> Updated(old(nodes), old(depth), nodes, u) && FreeExact(nodes, freeNodes)
      ensures ok ==> |u.ds| == |hashes| && |u.fs| == |files| && |nodes| <= |old(nodes)| + |hashes| + |files|
      ensures ok ==>
        dirHashes == Linked(old(dirHashes), hashes, u.ds)
                     - HashesIn(old(nodes),
                                GoneDirs(old(nodes), old(depth), ByHash(old(nodes), old(nodes)[d].value.subdirs),
                                         hashes))
      ensures ok ==>
        fileHashes == LinkedFiles(old(fileHashes), ByName(old(nodes), old(nodes)[d].value.subfiles), files, u.fs)
      ensures ok && SiblingsDistinct(old(nodes), d) ==> Valid()
      ensures ok && old(AllDistinct(nodes)) && DistinctArguments(u) ==> Valid() && AllDistinct(nodes)
      ensures Size(nodes) <= old(Size(nodes)) + SumSizes(files)
      ensures old(Totalled() && Fits(nodes, files)) ==> Totalled()
    {
      u := Change(d, DirInfo("", NO_HASH, 0, 0, 0, 0), hashes, files, [], []);
      if !CheckIndex(d, true) { return false, u; }
      ghost var n := nodes;
      var info := nodes[d].value.dir.(name := name, mostRecent := mostRecent, modtime := modtime, updateTime := now);
      u := Reconcile(d, info, hashes, files);
      if DistinctHashes(n, n[d].value.subdirs) && DistinctNames(n, n[d].value.subfiles) {
        UpdatedTree(n, depth, nodes, u);
        depth := NewDepth(depth, nodes, u);
      }
      if AllDistinct(n) {
        assert SiblingsDistinct(n, d);
        if DistinctArguments(u) { UpdatedDistinct(n, old(depth), nodes, u); }
      }
      ok := true;
    }

    // ---- Recursive sweeps ----

    // Sums the sizes of the files below d, without the top bits of a sum that does not fit, and
    // caches the sums in the directories. The tree n is the store without the cached values.
    method RecursUpdateCumulatedSize(d: nat, ghost n: Slots, ghost depth: seq<nat>, ghost top: nat) returns (size: u64)
      requires Tree(n, depth) && IsDir(n, d) && Swept(n, nodes) && depth[d] <= top
      requires forall i :: 0 <= i < |depth| ==> depth[i] <= top
      modifies `nodes
      ensures size == Low64(SizeIn(n, Sub(n, depth, d)))
      ensures nodes == Summed(old(nodes), n, depth, Sub(n, depth, d)) && Swept(n, nodes)
      decreases top - depth[d]
    {
      hide Tree, Sub, SubAll, SizeIn, Summed, Swept, ToSet, Low64, Add64;
      SummedDir(nodes, n, depth, d);
      SizeSplit(n, depth, d);
      SummedSwept(n, nodes, depth, Sub(n, depth, d));
      var own := SumFiles(d, n, depth);
      var below := SumSubdirs(d, n, depth, top);
      LowAdd(SizeIn(n, ToSet(n[d].value.subfiles)), SizeIn(n, SubAll(n, depth, n[d].value.subdirs)));
      size := Add64(own, below);
      var dir := nodes[d].value;
      nodes := nodes[d := Some(dir.(dir := dir.dir.(cumulated := size)))];
    }

    method SumFiles(d: nat, ghost n: Slots, ghost depth: seq<nat>) returns (size: u64)
      requires Tree(n, depth) && IsDir(n, d) && Swept(n, nodes)
      ensures size == Low64(SizeIn(n, ToSet(n[d].value.subfiles)))
    {
      hide Tree, SizeIn, ToSet, Swept, Low64, Add64;
      ghost var files := n[d].value.subfiles;
      SweptFiles(n, depth, nodes, d);
      LowSmall(0);
      size := 0;
      var i := 0;
      while i < |nodes[d].value.subfiles|
        invariant i <= |files| && size == Low64(SizeIn(n, ToSet(files[..i])))
      {
        var f := nodes[d].value.subfiles[i];
        FileSizeSnoc(n, depth, d, i);
        if nodes[f].Some? {
          LowSmall(nodes[f].value.file.size);
          LowAdd(SizeIn(n, ToSet(files[..i])), nodes[f].value.file.size);
          size := Add64(size, nodes[f].value.file.size);
        }
        i := i + 1;
      }
      assert files[..|files|] == files;
    }

    method SumSubdirs(d: nat, ghost n: Slots, ghost depth: seq<nat>, ghost top: nat) returns (size: u64)
      requires Tree(n, depth) && IsDir(n, d) && Swept(n, nodes) && depth[d] <= top
      requires forall i :: 0 <= i < |depth| ==> depth[i] <= top
      modifies `nodes
      ensures size == Low64(SizeIn(n, SubAll(n, depth, n[d].value.subdirs)))
      ensures nodes == Summed(old(nodes), n, depth, SubAll(n, depth, n[d].value.subdirs))
      decreases top - depth[d], 0
    {
      hide Tree, Sub, SubAll, SizeIn, Summed, Swept, Low64, Add64;
      ghost var kids := n[d].value.subdirs;
      ghost var m := nodes;
      LowSmall(0);
      NoneSummed(m, n, depth, kids);
      SummedSelf(m, n, depth, d, 0);
      size := 0;
      var i := 0;
      while i < |nodes[d].value.subdirs|
        invariant i <= |kids| && d < |nodes| && nodes[d] == m[d] && IsDir(m, d) && m[d].value.subdirs == kids
        invariant size == Low64(SizeIn(n, SubAll(n, depth, kids[..i])))
        invariant nodes == Summed(m, n, depth, SubAll(n, depth, kids[..i])) && Swept(n, nodes)
      {
        SumStep(m, n, depth, d, i);
        var s := RecursUpdateCumulatedSize(nodes[d].value.subdirs[i], n, depth, top);
        size := Add64(size, s);
        i := i + 1;
      }
      assert kids[..|kids|] == kids;
    }

    // The sweep of a whole subtree; from the root it returns the counter of the store.
    method UpdateCumulatedSize(d: nat) returns (size: u64)
      requires Valid() && IsDir(nodes, d)
      modifies `nodes
      ensures Valid() && (old(Totalled()) ==> Totalled())
      ensures size == Low64(SizeIn(old(nodes), Sub(old(nodes), depth, d)))
      ensures nodes == Summed(old(nodes), old(nodes), depth, Sub(old(nodes), depth, d))
      ensures d == 0 && Totalled() ==> size == totalSize
    {
      hide Tree, FreeExact, Sub, SizeIn, Summed, Swept, Low64, Size, Count;
      SweptSelf(nodes);
      DepthOf(nodes, depth, d);
      size := RecursUpdateCumulatedSize(d, nodes, depth, Top(depth));
      SweptValid(old(nodes), nodes, depth, freeNodes);
      RootSize(old(nodes), depth);
      LowSmall(Size(old(nodes)));
    }

    // The latest modification time below d, held back while files are unhashed, and whether any is.
    method RecursUpdateLastModfTime(d: nat, ghost n: Slots, ghost depth: seq<nat>, ghost top: nat)
      returns (largest: int, unfinished: bool)
      requires Tree(n, depth) && IsDir(n, d) && Swept(n, nodes) && DirsWithin(n, depth, top)
      requires TimesInRange(n) && depth[d] <= top
      modifies `nodes
      ensures largest == Recent(n, depth, top, d) && unfinished == Unhashed(n, Sub(n, depth, d))
      ensures nodes == Marked(old(nodes), n, depth, top, Sub(n, depth, d)) && Swept(n, nodes)
      decreases top - depth[d]
    {
      hide Tree, Sub, SubAll, Recent, RecentOwn, RecentBelow, Marked, Swept, ToSet, DirsWithin, TimesInRange, Unhashed;
      MarkedDir(nodes, n, depth, top, d);
      UnhashedSplit(n, depth, d);
      MarkedSwept(n, nodes, depth, top, Sub(n, depth, d));
      RecentIs(n, depth, top, d);
      largest, unfinished := ScanFiles(d, n, depth);
      largest, unfinished := ScanSubdirs(d, n, depth, top, largest, unfinished);
      if unfinished && largest > 0 { largest := largest - 1; }
      var dir := nodes[d].value;
      nodes := nodes[d := Some(dir.(dir := dir.dir.(mostRecent := largest)))];
    }

    method ScanFiles(d: nat, ghost n: Slots, ghost depth: seq<nat>) returns (largest: int, unfinished: bool)
      requires Tree(n, depth) && IsDir(n, d) && Swept(n, nodes) && TimesInRange(n)
      ensures largest == RecentOwn(n, d) && unfinished == Unhashed(n, ToSet(n[d].value.subfiles))
    {
      hide Tree, Swept, Latest, ToSet, TimesInRange, Unhashed;
      ghost var files := n[d].value.subfiles;
      SweptFiles(n, depth, nodes, d);
      SweptTime(n, depth, nodes, d);
      largest, unfinished := nodes[d].value.dir.modtime, false;
      var i := 0;
      while i < |nodes[d].value.subfiles|
        invariant i <= |files| && largest == Max(n[d].value.dir.modtime, Latest(n, ToSet(files[..i])))
        invariant unfinished == Unhashed(n, ToSet(files[..i]))
      {
        FileTimeSnoc(n, depth, d, i);
        var f := nodes[d].value.subfiles[i];
        if nodes[f].value.file.hash != NO_HASH {
          largest := Max(largest, nodes[f].value.file.modtime);
        } else {
          unfinished := true;
        }
        i := i + 1;
      }
      assert files[..|files|] == files;
    }

    method ScanSubdirs(d: nat, ghost n: Slots, ghost depth: seq<nat>, ghost top: nat, t: int, u: bool)
      returns (largest: int, unfinished: bool)
      requires Tree(n, depth) && IsDir(n, d) && Swept(n, nodes) && DirsWithin(n, depth, top)
      requires TimesInRange(n) && depth[d] <= top && EARLIEST <= t
      modifies `nodes
      ensures largest == Max(t, RecentBelow(n, depth, top, d, |n[d].value.subdirs|))
      ensures unfinished == (u || Unhashed(n, SubAll(n, depth, n[d].value.subdirs)))
      ensures nodes == Marked(old(nodes), n, depth, top, SubAll(n, depth, n[d].value.subdirs))
      decreases top - depth[d], 0
    {
      hide Tree, Sub, SubAll, Recent, Marked, Swept, DirsWithin, TimesInRange, Unhashed;
      ghost var kids := n[d].value.subdirs;
      ghost var m := nodes;
      NoneMarked(m, n, depth, top, kids);
      MarkedSelf(m, n, depth, top, d, 0);
      largest, unfinished := t, u;
      var i := 0;
      while i < |nodes[d].value.subdirs|
        invariant i <= |kids| && d < |nodes| && nodes[d] == m[d] && IsDir(m, d) && m[d].value.subdirs == kids
        invariant largest == Max(t, RecentBelow(n, depth, top, d, i))
          && unfinished == (u || Unhashed(n, SubAll(n, depth, kids[..i])))
        invariant nodes == Marked(m, n, depth, top, SubAll(n, depth, kids[..i])) && Swept(n, nodes)
      {
        MarkStep(m, n, depth, top, d, i);
        var below, more := RecursUpdateLastModfTime(nodes[d].value.subdirs[i], n, depth, top);
        largest := Max(largest, below);
        unfinished := unfinished || more;
        i := i + 1;
      }
      assert kids[..|kids|] == kids;
    }

    method UpdateLastModfTime(d: nat, ghost top: nat) returns (largest: int, unfinished: bool)
      requires Valid() && IsDir(nodes, d) && TimesInRange(nodes) && DirsWithin(nodes, depth, top)
      modifies `nodes
      ensures Valid() && (old(Totalled()) ==> Totalled())
      ensures unfinished <==> Unhashed(old(nodes), Sub(old(nodes), depth, d))
      ensures d < |depth| && depth[d] <= top
      ensures Between(largest, Latest(old(nodes), Sub(old(nodes), depth, d)), unfinished, top - depth[d] + 1)
      ensures nodes == Marked(old(nodes), old(nodes), depth, top, Sub(old(nodes), depth, d))
    {
      hide Tree, FreeExact, Sub, Recent, Marked, Swept, TimesInRange, Unhashed, Size, Count, Latest, Between;
      SweptSelf(nodes);
      DepthOf(nodes, depth, d);
      largest, unfinished := RecursUpdateLastModfTime(d, nodes, depth, top);
      SweptValid(old(nodes), nodes, depth, freeNodes);
      RecentBounds(old(nodes), depth, top, d);
    }

    // ---- Lookups ----

    // The child of a directory in a row. The row is a signed number that the code casts: a negative
    // one is out of range, unless the lists are longer than any signed number.
    method GetChildIndex(e: nat, row: int) returns (c: Option<nat>)
      requires -0x8000_0000 <= row < 0x8000_0000
      requires row < 0 && CheckIndex(e, true) ==> |nodes[e].value.subdirs| + |nodes[e].value.subfiles| <= WORD + row
      ensures c == if e != NO_INDEX && 0 <= row then Child(nodes, e, row) else None
    {
      if !CheckIndex(e, true) { return None; }
      var d := nodes[e].value;
      var cast := row % WORD;
      if cast < |d.subdirs| { return Some(d.subdirs[row]); }
      if cast < |d.subdirs| + |d.subfiles| { return Some(d.subfiles[row - |d.subdirs|]); }
      return None;
    }

    // A directory hash leads to a live directory of that hash or to nothing; an entry that leads
    // elsewhere is dropped.
    method GetIndexFromDirHash(h: Hash) returns (i: Option<nat>)
      modifies `dirHashes
      ensures i.Some? ==>
        IsDir(nodes, i.value) && nodes[i.value].value.dir.hash == h && h in dirHashes && dirHashes[h] == i.value
      ensures i.Some? ==> dirHashes == old(dirHashes)
      ensures i.None? ==> dirHashes == old(dirHashes) - {h}
      ensures h in old(dirHashes) ==>
              var c := old(dirHashes)[h];
              CheckIndex(c, true) && nodes[c].value.dir.hash == h ==> i == Some(c)
    {
      if h !in dirHashes { return None; }
      var index := dirHashes[h];
      if !CheckIndex(index, true) || nodes[index].value.dir.hash != h {
        dirHashes := dirHashes - {h};
        return None;
      }
      return Some(index);
    }

    method GetIndexFromFileHash(h: Hash) returns (i: Option<nat>)
      modifies `fileHashes
      ensures i.Some? ==>
        IsFile(nodes, i.value) && nodes[i.value].value.file.hash == h && h in fileHashes && fileHashes[h] == i.value
      ensures i.Some? ==> fileHashes == old(fileHashes)
      ensures i.None? ==> fileHashes == old(fileHashes) - {h}
      ensures h in old(fileHashes) ==>
              var c := old(fileHashes)[h];
              CheckIndex(c, false) && nodes[c].value.file.hash == h ==> i == Some(c)
    {
      if h !in fileHashes { return None; }
      var index := fileHashes[h];
      if !CheckIndex(index, false) || nodes[index].value.file.hash != h {
        fileHashes := fileHashes - {h};
        return None;
      }
      return Some(index);
    }

    // ---- Following the local disk ----

    // Makes the names of the subdirectories of d exactly the given ones: others go with their
    // subtrees, missing ones are created. The hash of a new directory comes from createDirHash.
    method UpdateSubDirectoryList(d: nat, subdirs: set<string>, seed: Hash,
                                  createDirHash: (string, Hash, Hash) -> Hash)
      returns (ok: bool, ghost names: seq<string>)
      requires Valid() && |nodes| <= NO_INDEX
      modifies this
      ensures ok == old(CheckIndex(d, true)) && Valid() && (old(Totalled()) ==> Totalled())
      ensures !ok ==> unchanged(this)
      ensures ok ==> IsDir(old(nodes), d) && Missing(old(nodes), d, subdirs, names)
      ensures ok ==> nodes == Listing(old(nodes), old(depth), d, subdirs, names, seed, createDirHash)
      ensures ok ==> IsDir(nodes, d) && DirNames(nodes, nodes[d].value.subdirs) == subdirs
      ensures |nodes| <= |old(nodes)| + |subdirs|
      ensures ok ==>
        var gone := SubSet(old(nodes), old(depth), Unwanted(old(nodes), d, subdirs));
        dirHashes == Linked(old(dirHashes) - HashesIn(old(nodes), gone),
                            HashesFor(names, ParentHash(old(nodes), d), seed, createDirHash),
                            From(|old(nodes)|, |names|))
    {
      names := [];
      if !CheckIndex(d, true) { return false, names; }
      hide Tree, FreeExact, Sub, DirNames, Totalled, Reduced, Listing, HashesIn, Linked, SubSet, Dropped;
      var missing := DropUnlisted(d, subdirs);
      names := AddMissing(d, missing, seed, createDirHash, nodes, dirHashes);
      MissingCount(names, missing);
      Smaller(missing, subdirs);
      ListingMade(old(nodes), old(depth), d, subdirs, names, seed, createDirHash);
      ListingNames(old(nodes), old(depth), d, subdirs, names, seed, createDirHash);
      ok := true;
    }

    // The first part: removes the subdirectories with other names and returns the names to create.
    method DropUnlisted(d: nat, wanted: set<string>) returns (missing: set<string>)
      requires Valid() && |nodes| <= NO_INDEX && IsDir(nodes, d)
      modifies `nodes, `freeNodes, `totalFiles, `totalSize, `dirHashes
      ensures Valid() && (old(Totalled()) ==> Totalled()) && IsDir(nodes, d)
      ensures nodes == Reduced(old(nodes), depth, d, NamedOnly(old(nodes), old(nodes)[d].value.subdirs, wanted, 0))
      ensures missing == wanted - DirNames(old(nodes), old(nodes)[d].value.subdirs)
      ensures dirHashes == old(dirHashes)
        - HashesIn(old(nodes),
                   Dropped(old(nodes), depth, d, NamedOnly(old(nodes), old(nodes)[d].value.subdirs, wanted, 0)))
    {
      hide Tree, FreeExact, DirNames, Totalled, Sub, Reduced, Dropped, SameSubs, SomeOf, HashesIn, NamedOnly, SwapPop;
      ghost var n := nodes;
      ghost var ds := nodes[d].value.subdirs;
      NothingDropped(n, depth, d);
      NoHashesDropped(n, depth, d, dirHashes);
      NothingSwept(n, depth, d, wanted);
      missing := wanted;
      var i := 0;
      while i < |nodes[d].value.subdirs|
        invariant Valid() && (old(Totalled()) ==> Totalled()) && IsDir(nodes, d) && |nodes| == |n|
        invariant i <= |nodes[d].value.subdirs| && SomeOf(nodes[d].value.subdirs, ds)
        invariant nodes == Reduced(n, depth, d, nodes[d].value.subdirs) && SameSubs(n, nodes, depth)
        invariant dirHashes == old(dirHashes) - HashesIn(n, Dropped(n, depth, d, nodes[d].value.subdirs))
        invariant SweptNames(n, ds, nodes[d].value.subdirs, wanted, i, missing)
        decreases |nodes[d].value.subdirs| - i
      {
        ghost var cur := nodes[d].value.subdirs;
        SameBelow(n, depth, d, cur, cur[i]);
        SweptNext(n, ds, cur, wanted, i, missing);
        var c := nodes[d].value.subdirs[i];
        if nodes[c].value.dir.name !in wanted {
          DropOneMore(n, depth, d, cur, i);
          HashesDropped(n, depth, d, cur, i, old(dirHashes));
          RemoveChild(d, i);
        } else {
          missing := missing - {nodes[c].value.dir.name};
          i := i + 1;
        }
      }
      SweptEnd(n, ds, nodes[d].value.subdirs, wanted, i, missing);
    }

    method RemoveChild(d: nat, i: nat)
      requires Valid() && |nodes| <= NO_INDEX && IsDir(nodes, d) && i < |nodes[d].value.subdirs|
      modifies `nodes, `freeNodes, `totalFiles, `totalSize, `dirHashes
      ensures Valid() && (old(Totalled()) ==> Totalled())
      ensures nodes == Pruned(old(nodes), depth, d, i)
      ensures dirHashes == old(dirHashes) - HashesIn(old(nodes), Sub(old(nodes), depth, old(nodes)[d].value.subdirs[i]))
    {
      hide Totalled, Sub, Pruned, Tree, FreeExact, HashesIn;
      ChildHere(nodes, depth, d, i);
      var _ := RemoveDirectory(nodes[d].value.subdirs[i]);
    }

    // The second part: a new directory for each missing name, in any order.
    method AddMissing(d: nat, missing: set<string>, seed: Hash, createDirHash: (string, Hash, Hash) -> Hash,
                      ghost m: Slots, ghost index: map<Hash, nat>)
      returns (ghost names: seq<string>)
      requires Valid() && IsDir(nodes, d) && nodes == m && dirHashes == index
      modifies `nodes, `dirHashes, `depth
      ensures Valid() && (old(Totalled()) ==> Totalled())
      ensures NoDup(names) && forall x :: x in names <==> x in missing
      ensures nodes == WithNew(m, d, names, seed, createDirHash)
      ensures dirHashes == Linked(index, HashesFor(names, ParentHash(m, d), seed, createDirHash), From(|m|, |names|))
    {
      hide Tree, FreeExact, Totalled, WithNew, Linked, HashesFor, From, NoDup;
      names := [];
      NoneNew(m, d, seed, createDirHash, index);
      var left := missing;
      while left != {}
        invariant Valid() && (old(Totalled()) ==> Totalled()) && IsDir(nodes, d)
        invariant left <= missing && NoDup(names) && forall x :: x in names <==> x in missing - left
        invariant nodes == WithNew(m, d, names, seed, createDirHash)
        invariant dirHashes ==
          Linked(index, HashesFor(names, ParentHash(m, d), seed, createDirHash), From(|m|, |names|))
        decreases |left|
      {
        var name :| name in left;
        WithNewSnoc(m, d, names, name, seed, createDirHash);
        LinkedNew(index, m, d, names, name, seed, createDirHash);
        NameMade(missing, left, names, name);
        AddDirectory(d, name, seed, createDirHash);
        names := names + [name];
        left := left - {name};
      }
    }

    method AddDirectory(d: nat, name: string, seed: Hash, createDirHash: (string, Hash, Hash) -> Hash)
      requires Valid() && IsDir(nodes, d)
      modifies `nodes, `dirHashes, `depth
      ensures Valid() && (old(Totalled()) ==> Totalled())
      ensures nodes ==
        AddedDir(old(nodes), d, NewNamed(d, |old(nodes)|, name, ParentHash(old(nodes), d), seed, createDirHash))
      ensures dirHashes == old(dirHashes)[createDirHash(name, ParentHash(old(nodes), d), seed) := |old(nodes)|]
    {
      hide Tree, FreeExact, AddedDir, Size, Count;
      ghost var m := nodes;
      var dir := nodes[d].value;
      var hash := createDirHash(name, dir.dir.hash, seed);
      var node := Dir(d, |nodes|, DirInfo(name, hash, 0, 0, 0, 0), [], []);
      AddedDirTree(m, depth, d, node);
      AddedTotals(m, freeNodes, d, node);
      DepthOf(m, depth, d);
      dirHashes := dirHashes[hash := |nodes|];
      nodes := nodes[d := Some(dir.(subdirs := dir.subdirs + [|nodes|]))] + [Some(node)];
      depth := depth + [depth[d] + 1];
      AddedIs(m, d, node);
    }

    // Makes the files of d exactly the listed ones and returns the new ones. The total size is only
    // followed as far as files come and go: a kept file counts with its former size.
    method UpdateSubFilesList(d: nat, subfiles: map<string, FileTS>) returns (ok: bool, newFiles: map<string, FileTS>)
      requires Valid() && |nodes| <= NO_INDEX
      modifies `nodes, `freeNodes, `totalFiles, `totalSize, `depth
      ensures ok == old(CheckIndex(d, true)) && Valid()
      ensures !ok ==> unchanged(this)
      ensures ok ==> IsDir(old(nodes), d) && FilesListed(old(nodes), nodes, d, subfiles, subfiles.Keys)
      ensures ok ==> newFiles == subfiles - FileNames(old(nodes), old(nodes)[d].value.subfiles)
      ensures ok ==> |nodes| == |old(nodes)| + |newFiles| <= |old(nodes)| + |subfiles|
      ensures ok && old(Totalled()) ==>
        totalSize == Low64(Size(Shadow(nodes, old(nodes)))) && totalFiles == Count(nodes) % WORD
    {
      newFiles := map[];
      if !CheckIndex(d, true) { return false, newFiles; }
      hide Tree, FreeExact, FilesListed, FilesSwept, FileNames, KeptFiles, Totalled, Shadow, Low64, Size, Count;
      ghost var n := nodes;
      newFiles := RefreshFiles(d, subfiles);
      SweptListed(n, nodes, depth, d, subfiles);
      NewNames(n, nodes, depth, d, subfiles);
      Smaller(newFiles.Keys, subfiles.Keys);
      AddFiles(d, subfiles, newFiles, n);
      ok := true;
    }

    method RefreshFiles(d: nat, subfiles: map<string, FileTS>) returns (newFiles: map<string, FileTS>)
      requires Valid() && |nodes| <= NO_INDEX && IsDir(nodes, d)
      modifies `nodes, `freeNodes, `totalFiles, `totalSize
      ensures Valid() && IsDir(nodes, d) && FilesSwept(old(nodes), nodes, d, subfiles, |nodes[d].value.subfiles|)
      ensures |nodes| == |old(nodes)|
      ensures newFiles == subfiles - FileNames(nodes, nodes[d].value.subfiles)
      ensures old(Totalled()) ==>
        totalSize == Low64(Size(Shadow(nodes, old(nodes)))) && totalFiles == Count(nodes) % WORD
    {
      hide Tree, FreeExact, FilesSwept, FileNames, KeptFiles, Shadow, Size, Count;
      ghost var n := nodes;
      NoneSwept(n, depth, d, subfiles);
      ShadowSelf(n);
      newFiles := subfiles;
      NoFileNames(nodes, nodes[d].value.subfiles);
      var i := 0;
      while i < |nodes[d].value.subfiles|
        invariant Valid() && |nodes| == |n| && IsDir(nodes, d) && i <= |nodes[d].value.subfiles|
        invariant FilesSwept(n, nodes, d, subfiles, i)
        invariant newFiles == subfiles - FileNames(nodes, nodes[d].value.subfiles[..i])
        invariant old(Totalled()) ==> totalSize == Size(Shadow(nodes, n)) && totalFiles == Count(nodes)
        decreases |nodes[d].value.subfiles| - i
      {
        FilesInRange(nodes, depth, d);
        var c := nodes[d].value.subfiles[i];
        assert c in nodes[d].value.subfiles;
        FileNamesSnoc(nodes, nodes[d].value.subfiles, i);
        if nodes[c].value.file.name !in subfiles {
          DropFile(d, i, subfiles, n);
        } else {
          newFiles := newFiles - {nodes[c].value.file.name};
          RefreshOne(d, i, subfiles, n);
          i := i + 1;
        }
      }
      WholeNames(nodes[d].value.subfiles);
    }

    method DropFile(d: nat, i: nat, ghost subfiles: map<string, FileTS>, ghost n: Slots)
      requires Valid() && IsDir(nodes, d) && IsDir(n, d) && i < |nodes[d].value.subfiles|
      requires FilesSwept(n, nodes, d, subfiles, i) && NameAt(nodes, nodes[d].value.subfiles[i]) !in subfiles
      modifies `nodes, `freeNodes, `totalFiles, `totalSize
      ensures Valid() && |nodes| == |old(nodes)| && IsDir(nodes, d) && FilesSwept(n, nodes, d, subfiles, i)
      ensures i <= |nodes[d].value.subfiles| == |old(nodes)[d].value.subfiles| - 1
      ensures FileNames(nodes, nodes[d].value.subfiles[..i]) == FileNames(old(nodes), old(nodes)[d].value.subfiles[..i])
      ensures old(totalSize == Size(Shadow(nodes, n)) && totalFiles == Count(nodes)) ==>
        totalSize == Size(Shadow(nodes, n)) && totalFiles == Count(nodes)
    {
      hide Tree, FreeExact, FilesSwept, FileNames, KeptFiles, Shadow, Size, Count, SwapPop;
      ghost var m := nodes;
      FilesInRange(m, depth, d);
      SweepDrop(n, m, depth, d, subfiles, i);
      ShadowDrop(n, m, depth, d, subfiles, i);
      DroppedFileTree(m, depth, d, i);
      DroppedNames(m, depth, d, i);
      DroppedFree(m, freeNodes, d, i);
      var dir := nodes[d].value;
      DeleteFileNode(dir.subfiles[i]);
      nodes := nodes[d := Some(dir.(subfiles := SwapPop(dir.subfiles, i)))];
      DroppedIs(m, d, i);
    }

    // A file whose size or time differs loses its hash and takes the listed values. By then its own
    // size has been overwritten, so the two steps on the total size cancel.
    method RefreshOne(d: nat, i: nat, subfiles: map<string, FileTS>, ghost n: Slots)
      requires Valid() && IsDir(nodes, d) && IsDir(n, d) && i < |nodes[d].value.subfiles|
      requires FilesSwept(n, nodes, d, subfiles, i) && NameAt(nodes, nodes[d].value.subfiles[i]) in subfiles
      modifies `nodes, `totalSize
      ensures Valid() && |nodes| == |old(nodes)| && IsDir(nodes, d) && FilesSwept(n, nodes, d, subfiles, i + 1)
      ensures nodes[d].value.subfiles == old(nodes)[d].value.subfiles
      ensures FileNames(nodes, nodes[d].value.subfiles[..i + 1])
           == FileNames(old(nodes), old(nodes)[d].value.subfiles[..i])
             + {NameAt(old(nodes), old(nodes)[d].value.subfiles[i])}
      ensures totalSize == old(totalSize) && Size(Shadow(nodes, n)) == Size(Shadow(old(nodes), n))
      ensures Count(nodes) == Count(old(nodes))
    {
      hide Tree, FreeExact, FilesSwept, FileNames, KeptFiles, Shadow, Size, Count, Refreshed;
      ghost var m := nodes;
      SweepRefresh(n, m, depth, d, subfiles, i);
      var c := nodes[d].value.subfiles[i];
      var f := nodes[c].value.file;
      var ts := subfiles[f.name];
      ghost var r := m[c := Some(m[c].value.(file := Refreshed(f, ts)))];
      ShadowRefresh(n, m, d, subfiles, i, Refreshed(f, ts));
      RefreshedNames(m, r, d, i, c, ts);
      RefreshedValid(m, r, depth, freeNodes, c);
      SameIfFresh(m, c, ts);
      if ts.modtime != f.modtime || ts.size != f.size {
        var g := FileInfo(f.name, ts.size, ts.modtime, NO_HASH);
        nodes := nodes[c := Some(nodes[c].value.(file := g))];
        SubtractAndAdd(g.size, ts.size);
      }
    }

    method SubtractAndAdd(a: u64, b: u64)
      modifies `totalSize
      ensures totalSize as int == (old(totalSize) as int - a + b) % U64
    {
      totalSize := (totalSize as int - a) % U64;
      totalSize := (totalSize as int + b) % U64;
    }

    method AddFiles(d: nat, subfiles: map<string, FileTS>, newFiles: map<string, FileTS>, ghost n: Slots)
      requires Valid() && IsDir(nodes, d) && IsDir(n, d)
      requires FilesListed(n, nodes, d, subfiles, FileNames(nodes, nodes[d].value.subfiles))
      requires FileNames(nodes, nodes[d].value.subfiles) <= subfiles.Keys
      requires newFiles == subfiles - FileNames(nodes, nodes[d].value.subfiles)
      modifies `nodes, `totalFiles, `totalSize, `depth
      ensures Valid() && FilesListed(n, nodes, d, subfiles, subfiles.Keys) && |nodes| == |old(nodes)| + |newFiles.Keys|
      ensures old(totalSize == Low64(Size(Shadow(nodes, n))) && totalFiles == Count(nodes) % WORD) ==>
        totalSize == Low64(Size(Shadow(nodes, n))) && totalFiles == Count(nodes) % WORD
    {
      hide Tree, FreeExact, FilesListed, FileNames, KeptFiles, Shadow, Low64, Size, Count;
      KeysLeft(subfiles, FileNames(nodes, nodes[d].value.subfiles));
      var left := newFiles.Keys;
      while left != {}
        invariant Valid() && left <= newFiles.Keys && |nodes| + |left| == |old(nodes)| + |newFiles.Keys|
        invariant FilesListed(n, nodes, d, subfiles, subfiles.Keys - left)
        invariant old(totalSize == Low64(Size(Shadow(nodes, n))) && totalFiles == Count(nodes) % WORD) ==>
          totalSize == Low64(Size(Shadow(nodes, n))) && totalFiles == Count(nodes) % WORD
        decreases |left|
      {
        var x :| x in left;
        AddFile(d, x, subfiles, n, subfiles.Keys - left);
        KeyMoved(subfiles.Keys, left, x);
        left := left - {x};
      }
      assert subfiles.Keys - left == subfiles.Keys;
    }

    method AddFile(d: nat, x: string, subfiles: map<string, FileTS>, ghost n: Slots, ghost names: set<string>)
      requires Valid() && IsDir(n, d) && FilesListed(n, nodes, d, subfiles, names) && x in subfiles
      modifies `nodes, `totalFiles, `totalSize, `depth
      ensures Valid() && FilesListed(n, nodes, d, subfiles, names + {x}) && |nodes| == |old(nodes)| + 1
      ensures old(totalSize == Low64(Size(Shadow(nodes, n))) && totalFiles == Count(nodes) % WORD) ==>
        totalSize == Low64(Size(Shadow(nodes, n))) && totalFiles == Count(nodes) % WORD
    {
      hide Tree, FreeExact, FilesListed, Shadow, Low64, Add64, Size, Count, AddedFile;
      ghost var m := nodes;
      ListedDir(n, m, d, subfiles, names);
      var ts := subfiles[x];
      var node := File(d, |nodes|, FileInfo(x, ts.size, ts.modtime, NO_HASH));
      AddListed(n, m, depth, d, subfiles, names, x, node);
      AddedFileTree(m, depth, d, node);
      AddFileSums(n, m, freeNodes, d, node);
      AddedFileIs(m, d, node);
      DepthOf(m, depth, d);
      var dir := nodes[d].value;
      nodes := nodes[d := Some(dir.(subfiles := dir.subfiles + [|nodes|]))] + [Some(node)];
      depth := depth + [depth[d] + 1];
      totalSize := Add64(totalSize, ts.size);
      totalFiles := (totalFiles as int + 1) % WORD;
    }

    // ---- The consistency check ----

    // Drops references out of range or to a node already reached, deletes nodes that nothing leads
    // to, and rebuilds the free list; works on any slots with a first one.
    method Check() returns (ok: bool)
      requires nodes != []
      modifies `nodes, `freeNodes
      ensures Checked(old(nodes), nodes) && FreeExact(nodes, freeNodes)
      ensures ok <==> nodes == old(nodes)
      ensures ok <==> Clean(old(nodes))
      ensures Clean(nodes) <==> SettledByOne(old(nodes))
      ensures !ok ==> Measure(nodes) < Measure(old(nodes))
    {
      hide Stamped, FreeExact, Checked, Clean, Measure, Hits, SettledByOne, HitBefore, Orphans;
      ghost var n := nodes;
      var hits := new nat[|nodes|](i => 0);
      hits[0] := 1;
      FirstHit(hits[..]);
      var clean := StampChildren(hits);
      ghost var m := nodes;
      var none := DeleteOrphans(hits, HitBefore(n, |n|));
      ok := clean && none;
      CheckDone(n, m);
      if nodes != n { CheckedLess(n, nodes); }
      UnchangedIsClean(n, nodes);
      CleanNextIff(n, nodes);
      if Clean(n) { CleanUnchanged(n, nodes); }
    }

    method StampChildren(hits: array<nat>) returns (clean: bool)
      requires nodes != [] && hits.Length == |nodes| && Hits(hits[..], {0})
      modifies `nodes, `freeNodes, hits
      ensures Stamped(old(nodes), nodes, |old(nodes)|) && hits.Length == |nodes| == |old(nodes)|
      ensures Hits(hits[..], HitBefore(old(nodes), |old(nodes)|))
      ensures FreeExact(nodes, freeNodes) && (clean <==> nodes == old(nodes))
    {
      hide Stamped, FreeExact, Hits, FreeBelow, HitBefore;
      ghost var n := nodes;
      freeNodes := [];
      clean := true;
      StampNothing(n);
      FreeNone(n);
      var i := 0;
      while i < |nodes|
        invariant i <= |nodes| == |n| == hits.Length && Stamped(n, nodes, i) && Hits(hits[..], HitBefore(n, i))
        invariant FreeBelow(nodes, freeNodes, i) && (clean <==> nodes == n)
      {
        if nodes[i].Some? && nodes[i].value.Dir? {
          var same := StampOne(i, hits, n);
          clean := clean && same;
        } else {
          StampOther(n, nodes, i);
          FreeNext(nodes, freeNodes, i);
          if nodes[i].None? { freeNodes := freeNodes + [i]; }
        }
        i := i + 1;
      }
      FreeAll(nodes, freeNodes);
    }

    method StampOne(i: nat, hits: array<nat>, ghost n: Slots) returns (same: bool)
      requires i < |nodes| == |n| == hits.Length && IsDir(nodes, i) && Stamped(n, nodes, i)
      requires Hits(hits[..], HitBefore(n, i)) && FreeBelow(nodes, freeNodes, i)
      modifies `nodes, hits
      ensures |nodes| == |n| && Stamped(n, nodes, i + 1) && Hits(hits[..], HitBefore(n, i + 1))
      ensures FreeBelow(nodes, freeNodes, i + 1)
      ensures (same && old(nodes) == n) <==> nodes == n
    {
      hide Stamped, Hits, SweptList, FreeBelow, HitBefore, Sifted;
      ghost var m := nodes;
      StampedHere(n, m, i);
      SiftedParts(n, i);
      SweptSame(n, i);
      var dir := nodes[i].value;
      var ds := SweepChildren(dir.subdirs, hits, HitBefore(n, i));
      var fs := SweepChildren(dir.subfiles, hits, HitBefore(n, i) + ToSet(ds));
      same := |ds| == |dir.subdirs| && |fs| == |dir.subfiles|;
      nodes := nodes[i := Some(dir.(subdirs := ds, subfiles := fs))];
      StampDir(n, m, i, nodes);
      FreeNextDir(m, nodes, freeNodes, i);
    }

    // One child list: swaps in the last entry for one that is out of range or already hit.
    static method SweepChildren(list: seq<nat>, hits: array<nat>, ghost hit: set<nat>) returns (cur: seq<nat>)
      requires Hits(hits[..], hit)
      modifies hits
      ensures cur == Sifted(list, 0, hit, hits.Length) && SweptList(list, cur, hit, hits.Length)
      ensures Hits(hits[..], hit + ToSet(cur))
    {
      hide Hits, SweptList;
      SiftedIs(list, hit, hits.Length);
      cur := list;
      ghost var now := hit;
      var j := 0;
      while j < |cur|
        invariant j <= |cur| && now == hit + ToSet(cur[..j]) && Hits(hits[..], now)
        invariant Sifted(cur, j, now, hits.Length) == Sifted(list, 0, hit, hits.Length)
        decreases |cur| - j
      {
        if cur[j] < hits.Length { HitOne(hits[..], now, cur[j]); }
        if cur[j] >= hits.Length {
          SwapPopRest(cur, j);
          cur := SwapPop(cur, j);
        } else if hits[cur[j]] != 0 {
          SwapPopRest(cur, j);
          cur := SwapPop(cur, j);
        } else {
          FilesSnoc(cur, j);
          now := now + {cur[j]};
          hits[cur[j]] := 1;
          j := j + 1;
        }
      }
      assert cur[..|cur|] == cur;
    }

    method DeleteOrphans(hits: array<nat>, ghost hit: set<nat>) returns (none: bool)
      requires hits.Length == |nodes| && Hits(hits[..], hit) && FreeExact(nodes, freeNodes)
      modifies `nodes, `freeNodes
      ensures nodes == Emptied(old(nodes), Orphans(old(nodes), hit, |old(nodes)|)) && FreeExact(nodes, freeNodes)
      ensures none <==> Orphans(old(nodes), hit, |old(nodes)|) == {}
    {
      hide FreeExact, Orphans;
      ghost var m := nodes;
      none := true;
      EmptiedTwice(m, {}, {});
      if m != [] { OrphansSnoc(m, hit, 0); } else { NoOrphans(m, hit); }
      var i := 0;
      while i < hits.Length
        invariant i <= hits.Length == |nodes| && |nodes| == |m| && nodes == Emptied(m, Orphans(m, hit, i))
        invariant FreeExact(nodes, freeNodes)
        invariant none <==> Orphans(m, hit, i) == {}
      {
        OrphansSnoc(m, hit, i);
        if hits[i] == 0 && nodes[i].Some? {
          none := false;
          EmptiedOne(m, Orphans(m, hit, i), i);
          FreeMore(nodes, freeNodes, i);
          DeleteNode(i);
        }
        i := i + 1;
      }
    }
  }
}
