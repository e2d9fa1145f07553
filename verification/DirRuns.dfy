// Whole runs of the directory store: any sequence of updates, file changes and removals.
module DirRuns {
  import opened Words
  import opened Options
  import opened DirTree
  import opened DirUpdate
  import opened DirTotals
  import opened DirHierarchy

  // A file change gives a new name or keeps the one the file has.
  datatype Operation =
    | UpdateDir(d: nat, name: string, mostRecent: int, modtime: int, hashes: seq<Hash>, files: seq<FileInfo>, now: int)
    | ChangeFile(i: nat, rename: Option<string>, size: u64, modtime: int, hash: Hash)
    | RemoveDir(d: nat)

  // ---- What an operation may need ----

  predicate NamedOnce(hashes: seq<Hash>, files: seq<FileInfo>) {
    NoDup(hashes) && forall i, j :: 0 <= i < j < |files| ==> files[i].name != files[j].name
  }

  function SlotsFor(op: Operation): nat {
    if op.UpdateDir? then |op.hashes| + |op.files| else 0
  }

  function FilesFor(op: Operation): nat {
    if op.UpdateDir? then |op.files| else 0
  }

  function SizeFor(op: Operation): nat {
    match op
    case UpdateDir(_, _, _, _, _, files, _) => SumSizes(files)
    case ChangeFile(_, _, size, _, _) => size
    case RemoveDir(_) => 0
  }

  // Each hash and each name is given once, a new name is free in its directory, and the slots and
  // the sizes fit.
  predicate Admissible(n: Slots, op: Operation) {
    && |n| + SlotsFor(op) <= NO_INDEX
    && Size(n) + SizeFor(op) < U64 && Count(n) + FilesFor(op) < WORD
    && (op.UpdateDir? ==> NamedOnce(op.hashes, op.files))
    && (op.ChangeFile? && op.rename.Some? && IsFile(n, op.i) ==> NameIsFree(n, op.i, op.rename.value))
  }

  // The same, to be seen from the operations alone.
  predicate Plain(op: Operation) {
    (op.UpdateDir? ==> NamedOnce(op.hashes, op.files)) && (op.ChangeFile? ==> op.rename.None?)
  }

  function AllSlots(ops: seq<Operation>): nat {
    if ops == [] then 0 else SlotsFor(ops[0]) + AllSlots(ops[1..])
  }

  function AllSizes(ops: seq<Operation>): nat {
    if ops == [] then 0 else SizeFor(ops[0]) + AllSizes(ops[1..])
  }

  predicate Modest(n: Slots, ops: seq<Operation>) {
    && (forall op :: op in ops ==> Plain(op))
    && |n| + AllSlots(ops) <= NO_INDEX && Size(n) + AllSizes(ops) < U64
  }

  // All operations together fit an empty store, which has one slot.
  predicate FitTogether(ops: seq<Operation>) {
    (forall op :: op in ops ==> Plain(op)) && 1 + AllSlots(ops) <= NO_INDEX && AllSizes(ops) < U64
  }

  lemma {:induction false} CountBelow(n: Slots)
    ensures Count(n) <= |n|
  {
    if n != [] { CountBelow(n[..|n| - 1]); }
  }

  lemma ModestFirst(n: Slots, ops: seq<Operation>)
    requires Modest(n, ops) && ops != []
    ensures Admissible(n, ops[0])
  {
    hide Size, Count;
    CountBelow(n);
    assert Plain(ops[0]);
  }

  // ---- One operation ----

  // What each operation does to the slots; it leaves them alone when its slot is of the wrong kind.
  ghost predicate Did(op: Operation, n: Slots, m: Slots) {
    match op
    case UpdateDir(d, name, mostRecent, modtime, hashes, files, now) =>
      if IsDir(n, d) then
        exists depth, u :: Tree(n, depth) && Updates(n, depth, m, op, u)
      else m == n
    case ChangeFile(i, rename, size, modtime, hash) =>
      m == if IsFile(n, i) then n[i := Some(n[i].value.(file := NewContents(n[i].value.file.name, op)))] else n
    case RemoveDir(d) =>
      if IsDir(n, d) && d != 0 then exists depth, p, k :: Tree(n, depth) && Removes(n, depth, m, d, p, k) else m == n
  }

  ghost predicate Updates(n: Slots, depth: seq<nat>, m: Slots, op: Operation, u: Change)
    requires Tree(n, depth) && op.UpdateDir? && IsDir(n, op.d)
  {
    && u.d == op.d && u.hashes == op.hashes && u.files == op.files && Updated(n, depth, m, u)
    && u.info == n[op.d].value.dir.(name := op.name, mostRecent := op.mostRecent, modtime := op.modtime,
                                    updateTime := op.now)
  }

  ghost predicate Removes(n: Slots, depth: seq<nat>, m: Slots, d: nat, p: nat, k: nat)
    requires Tree(n, depth)
  {
    && IsDir(n, p) && k < |n[p].value.subdirs| && n[p].value.subdirs[k] == d
    && m == Pruned(n, depth, p, k)
  }

  function NewContents(name: string, op: Operation): FileInfo
    requires op.ChangeFile?
  {
    FileInfo(if op.rename.Some? then op.rename.value else name, op.size, op.modtime, op.hash)
  }

  method Perform(store: Hierarchy, op: Operation)
    requires store.Valid() && store.Totalled() && AllDistinct(store.nodes) && Admissible(store.nodes, op)
    modifies store
    ensures store.Valid() && store.Totalled() && AllDistinct(store.nodes)
    ensures |store.nodes| <= |old(store.nodes)| + SlotsFor(op)
      && Size(store.nodes) <= old(Size(store.nodes)) + SizeFor(op)
    ensures Did(op, old(store.nodes), store.nodes)
  {
    hide Tree, FreeExact, AllDistinct, Size, Count, Updated, HashesIn, Linked, LinkedFiles, NameIsFree, Pruned;
    match op {
      case UpdateDir(d, name, mostRecent, modtime, hashes, files, now) =>
        ghost var depth := store.depth;
        var ok, u := store.UpdateDirEntry(d, name, mostRecent, modtime, hashes, files, now);
        if ok { assert Updates(old(store.nodes), depth, store.nodes, op, u); }
      case ChangeFile(i, rename, size, modtime, hash) =>
        ChangeOne(store, i, op);
      case RemoveDir(d) =>
        ghost var p, k := RemoveOne(store, d);
        if IsDir(old(store.nodes), d) && d != 0 { assert Removes(old(store.nodes), store.depth, store.nodes, d, p, k); }
    }
  }

  method ChangeOne(store: Hierarchy, i: nat, op: Operation)
    requires store.Valid() && store.Totalled() && AllDistinct(store.nodes)
    requires op.ChangeFile? && op.i == i && Admissible(store.nodes, op)
    modifies store
    ensures store.Valid() && store.Totalled() && AllDistinct(store.nodes) && Did(op, old(store.nodes), store.nodes)
    ensures |store.nodes| == |old(store.nodes)| && Size(store.nodes) <= old(Size(store.nodes)) + op.size
  {
    hide Tree, FreeExact, AllDistinct, Size, Count, NameIsFree;
    if store.CheckIndex(i, false) {
      var f := NewContents(store.nodes[i].value.file.name, op);
      OwnNameFree(store.nodes, store.depth, i);
      FileChange(store.nodes, store.depth, store.freeNodes, i, f);
      var ok := store.UpdateFile(i, f);
    }
  }

  method RemoveOne(store: Hierarchy, d: nat) returns (ghost p: nat, ghost k: nat)
    requires store.Valid() && store.Totalled() && AllDistinct(store.nodes) && |store.nodes| <= NO_INDEX
    modifies store
    ensures store.Valid() && store.Totalled() && AllDistinct(store.nodes) && store.depth == old(store.depth)
    ensures |store.nodes| == |old(store.nodes)| && Size(store.nodes) <= old(Size(store.nodes))
    ensures if IsDir(old(store.nodes), d) && d != 0 then Removes(old(store.nodes), store.depth, store.nodes, d, p, k)
            else store.nodes == old(store.nodes)
  {
    hide Tree, FreeExact, AllDistinct, Size, Count, HashesIn, Sub, Pruned;
    p, k := 0, 0;
    var ok := store.RemoveDirectory(d);
    if ok {
      ghost var n := old(store.nodes);
      p := n[d].value.parent;
      k :| 0 <= k < |n[p].value.subdirs| && n[p].value.subdirs[k] == d && store.nodes == Pruned(n, store.depth, p, k);
      PrunedSmaller(n, store.depth, p, k);
    }
  }

  lemma PrunedSmaller(n: Slots, depth: seq<nat>, p: nat, k: nat)
    requires Tree(n, depth) && IsDir(n, p) && k < |n[p].value.subdirs|
    ensures Size(Pruned(n, depth, p, k)) <= Size(n)
  {
    hide Tree, Size, Count, Sub;
    var d := n[p].value;
    var m := n[p := Some(d.(subdirs := SwapPop(d.subdirs, k)))];
    TotalsUpdate(n, p, m[p]);
    EmptiedSmaller(m, Sub(n, depth, d.subdirs[k]));
  }

  // ---- Runs ----

  // A run of the operations through the given slots, from one slot with an empty root directory.
  ghost predicate RunThrough(ops: seq<Operation>, trace: seq<Slots>) {
    && |trace| == |ops| + 1 && trace[0] == [Some(Dir(0, 0, DirInfo("", NO_HASH, 0, 0, 0, 0), [], []))]
    && (forall k :: 0 <= k < |ops| ==> Did(ops[k], trace[k], trace[k + 1]))
    && (forall k :: 0 <= k <= |ops| ==> Sound(trace[k]))
  }

  ghost predicate Sound(n: Slots) {
    AllDistinct(n) && exists depth :: Tree(n, depth)
  }

  // From the empty store the operations are performed for as long as they are admissible. Whatever
  // they are, the store is a tree with distinct siblings all the way, and its counters are the number
  // and the total size of its files. Operations that name everything once, keep the names of files
  // and fit all together are performed to the end.
  method Replay(ops: seq<Operation>) returns (store: Hierarchy, done: nat, ghost trace: seq<Slots>)
    ensures fresh(store) && store.Valid() && AllDistinct(store.nodes) && store.Totalled()
    ensures done <= |ops| && (done < |ops| ==> !Admissible(store.nodes, ops[done]))
    ensures FitTogether(ops) ==> done == |ops|
    ensures RunThrough(ops[..done], trace) && store.nodes == trace[done]
  {
    hide Tree, FreeExact, Size, Count, AllDistinct, Admissible, Modest, FitTogether, RunThrough, Did;
    store := new Hierarchy();
    RootFits(store.nodes, ops);
    done, trace := 0, [store.nodes];
    RunStarts(ops, store.nodes, store.depth);
    while done < |ops| && Admissible(store.nodes, ops[done])
      invariant fresh(store) && store.Valid() && store.Totalled() && AllDistinct(store.nodes)
      invariant done <= |ops| && (FitTogether(ops) ==> Modest(store.nodes, ops[done..]))
      invariant |trace| == done + 1 && RunThrough(ops[..done], trace) && store.nodes == trace[done]
    {
      ghost var n := store.nodes;
      Perform(store, ops[done]);
      ModestNext(n, store.nodes, ops[done..]);
      assert ops[done..][1..] == ops[done + 1..] && ops[..done + 1] == ops[..done] + [ops[done]];
      RunOn(ops[..done], trace, ops[done], store.nodes, store.depth);
      done, trace := done + 1, trace + [store.nodes];
    }
    if done < |ops| && FitTogether(ops) { ModestFirst(store.nodes, ops[done..]); }
  }

  lemma RunStarts(ops: seq<Operation>, n: Slots, depth: seq<nat>)
    requires n == [Some(Dir(0, 0, DirInfo("", NO_HASH, 0, 0, 0, 0), [], []))] && Tree(n, depth) && AllDistinct(n)
    ensures RunThrough(ops[..0], [n])
  {}

  lemma RunOn(ops: seq<Operation>, trace: seq<Slots>, op: Operation, m: Slots, depth: seq<nat>)
    requires RunThrough(ops, trace) && Did(op, trace[|ops|], m) && Tree(m, depth) && AllDistinct(m)
    ensures RunThrough(ops + [op], trace + [m])
  {
    assert Sound(m);
    hide Did, Sound;
    var os, t := ops + [op], trace + [m];
    forall k | 0 <= k < |os|
      ensures Did(os[k], t[k], t[k + 1])
    {
      if k < |ops| { assert Did(ops[k], trace[k], trace[k + 1]); }
    }
    forall k | 0 <= k <= |os|
      ensures Sound(t[k])
    {
      if k <= |ops| { assert t[k] == trace[k] && Sound(trace[k]); }
    }
  }

  // The sizes summed up from the root are then the same total as the counter.
  method ReplayAndSum(ops: seq<Operation>) returns (store: Hierarchy, done: nat, total: u64)
    ensures fresh(store) && store.Valid() && store.Totalled() && total == store.totalSize
    ensures FitTogether(ops) ==> done == |ops|
    ensures exists trace, depth ::
      && done <= |ops| && RunThrough(ops[..done], trace) && Tree(trace[done], depth)
      && store.nodes == Summed(trace[done], trace[done], depth, Sub(trace[done], depth, 0))
           && total == Size(trace[done])
  {
    hide Tree, FreeExact, Size, Count, AllDistinct, Admissible, Modest, FitTogether, RunThrough, Sub, SizeIn, Summed;
    ghost var trace;
    store, done, trace := Replay(ops);
    RootIsDir(store.nodes, store.depth);
    total := store.UpdateCumulatedSize(0);
    assert |trace| > done by { RunLength(ops[..done], trace); }
    assert Tree(trace[done], store.depth);
  }

  lemma RunLength(ops: seq<Operation>, trace: seq<Slots>)
    requires RunThrough(ops, trace)
    ensures |trace| == |ops| + 1
  {}

  // ---- Repeated hashes and names ----

  // From the empty store: the root is given one hash twice, then nothing. No tree is left.
  method RepeatedHash(h: Hash) returns (store: Hierarchy)
    ensures fresh(store) && !exists depth :: Tree(store.nodes, depth)
  {
    assert [h, h][0] == [h, h][1];
    store := GiveAndClear([h, h], []);
  }

  // The same with a file name.
  method RepeatedName(f: FileInfo) returns (store: Hierarchy)
    ensures fresh(store) && !exists depth :: Tree(store.nodes, depth)
  {
    assert [f, f][0].name == [f, f][1].name;
    store := GiveAndClear([], [f, f]);
  }

  method GiveAndClear(hashes: seq<Hash>, files: seq<FileInfo>) returns (store: Hierarchy)
    requires |hashes| + |files| < NO_INDEX && !NamedOnce(hashes, files)
    ensures fresh(store) && !exists depth :: Tree(store.nodes, depth)
  {
    hide Tree, FreeExact, AllDistinct, Updated, HashesIn, Linked, LinkedFiles, DistinctHashes, DistinctNames;
    store := new Hierarchy();
    ghost var n, before := store.nodes, store.depth;
    assert n[0].value.subdirs == [] && n[0].value.subfiles == [];
    NoChildren(n);
    var ok, u := store.UpdateDirEntry(0, "", 0, 0, hashes, files, 0);
    ghost var m, between := store.nodes, store.depth;
    RootIsDir(m, between);
    var ok', w := store.UpdateDirEntry(0, "", 0, 0, [], [], 0);
    RepeatsBreakNext(n, before, m, u, between, store.nodes, w);
  }

  // From the empty store: a directory with another one in it, whose hash is then given to the root. The
  // root lists a directory of that hash, but the hash leads nowhere.
  method ErasedHash(outer: Hash, inner: Hash) returns (store: Hierarchy, c: nat)
    requires outer != inner
    ensures fresh(store) && store.Valid() && IsDir(store.nodes, 0) && store.nodes[0].value.subdirs == [c]
    ensures IsDir(store.nodes, c) && HashAt(store.nodes, c) == inner && inner !in store.dirHashes
  {
    hide Tree, FreeExact, AllDistinct, Updated, HashesIn, Linked, LinkedFiles, GoneDirs, ByHash, ByName;
    store := new Hierarchy();
    ghost var n0, t0 := store.nodes, store.depth;
    NoneByHash(n0);
    var _, u := store.UpdateDirEntry(0, "", 0, 0, [outer], [], 0);
    OnlyChild(n0, t0, store.nodes, u, outer);
    ghost var n1, t1 := store.nodes, store.depth;
    NoneByHash(n1);
    c := store.nodes[0].value.subdirs[0];
    var _, v := store.UpdateDirEntry(c, "", 0, 0, [inner], [], 0);
    OnlyChild(n1, t1, store.nodes, v, inner);
    ghost var n2, t2 := store.nodes, store.depth;
    OneByHash(n2, c);
    VanishesInside(n2, t2, 0, c, v.ds[0], [inner]);
    var _, w := store.UpdateDirEntry(0, "", 0, 0, [inner], [], 0);
    OnlyChild(n2, t2, store.nodes, w, inner);
    c := store.nodes[0].value.subdirs[0];
  }

  lemma NoneByHash(n: Slots)
    ensures ByHash(n, []) == map[]
  {}

  lemma NoChildren(n: Slots)
    ensures DistinctHashes(n, []) && DistinctNames(n, [])
  {}

  lemma RootIsDir(n: Slots, depth: seq<nat>)
    requires Tree(n, depth)
    ensures IsDir(n, 0)
  {}

  lemma ModestNext(n: Slots, m: Slots, ops: seq<Operation>)
    requires ops != [] && |m| <= |n| + SlotsFor(ops[0]) && Size(m) <= Size(n) + SizeFor(ops[0])
    ensures Modest(n, ops) ==> Modest(m, ops[1..])
  {
    hide Size, Plain;
  }

  lemma RootFits(n: Slots, ops: seq<Operation>)
    requires |n| == 1 && IsDir(n, 0)
    ensures FitTogether(ops) ==> Modest(n, ops)
  {
    assert n[..0] == [];
  }
}
