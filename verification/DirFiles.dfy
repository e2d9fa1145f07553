// The files of one directory brought up to date with the local disk, and what the size counter
// makes of it.
module DirFiles {
  import opened Options
  import opened DirTree
  import opened DirUpdate
  import opened DirTotals
  import opened DirLocal

  datatype FileTS = FileTS(size: u64, modtime: int)

  // The slot with the size it had before, if it held a file before.
  function OldSize(s: Option<Node>, before: Option<Node>): Option<Node> {
    match (s, before)
    case (Some(File(p, r, f)), Some(File(_, _, g))) => Some(File(p, r, f.(size := g.size)))
    case _ => s
  }

  // The slots m, with every file that was there before at its former size.
  ghost function Shadow(m: Slots, n: Slots): (w: Slots)
    ensures |w| == |m|
    ensures forall i :: 0 <= i < |m| ==> w[i] == if i < |n| then OldSize(m[i], n[i]) else m[i]
  {
    seq(|m|, i requires 0 <= i < |m| => if i < |n| then OldSize(m[i], n[i]) else m[i])
  }

  lemma ShadowSelf(n: Slots)
    ensures Shadow(n, n) == n
  {}

  // The listed size and time of a file of d.
  ghost predicate UpToDate(m: Slots, subfiles: map<string, FileTS>, c: nat) {
    && IsFile(m, c) && NameAt(m, c) in subfiles
    && m[c].value.file.size == subfiles[NameAt(m, c)].size && m[c].value.file.modtime == subfiles[NameAt(m, c)].modtime
  }

  ghost function FileNames(m: Slots, fs: seq<nat>): set<string> {
    set c | c in fs :: NameAt(m, c)
  }

  // The old files of d that are still listed.
  ghost function KeptFiles(n: Slots, d: nat, subfiles: map<string, FileTS>): set<nat>
    requires IsDir(n, d)
  {
    set c | c in n[d].value.subfiles && NameAt(n, c) in subfiles
  }

  // A kept file: up to date, and with its hash only if nothing changed.
  function Refreshed(f: FileInfo, ts: FileTS): FileInfo {
    if f.size == ts.size && f.modtime == ts.modtime then f else FileInfo(f.name, ts.size, ts.modtime, NO_HASH)
  }

  // After i files have been dealt with: those are kept and refreshed, the others are untouched.
  ghost predicate FilesSwept(n: Slots, m: Slots, d: nat, subfiles: map<string, FileTS>, i: nat)
    requires IsDir(n, d)
  {
    && |m| == |n| && IsDir(m, d) && m[d] == Some(n[d].value.(subfiles := m[d].value.subfiles))
         && i <= |m[d].value.subfiles|
    && (forall j :: 0 <= j < i ==>
          var c := m[d].value.subfiles[j];
          c in KeptFiles(n, d, subfiles) && IsFile(n, c) && c < |m| &&
          m[c] == Some(n[c].value.(file := Refreshed(n[c].value.file, subfiles[NameAt(n, c)]))))
    && (forall j :: i <= j < |m[d].value.subfiles| ==>
          var c := m[d].value.subfiles[j];
          c in n[d].value.subfiles && IsFile(n, c) && c < |m| && m[c] == n[c])
    && (forall c :: c in KeptFiles(n, d, subfiles) ==> c in m[d].value.subfiles)
    && (forall c: nat :: c < |n| && c != d && c !in n[d].value.subfiles ==> m[c] == n[c])
    && (forall c :: c in n[d].value.subfiles && c !in m[d].value.subfiles ==> c < |m| && m[c] == None)
  }

  lemma NoneSwept(n: Slots, depth: seq<nat>, d: nat, subfiles: map<string, FileTS>)
    requires Tree(n, depth) && IsDir(n, d)
    ensures FilesSwept(n, n, d, subfiles, 0)
  {
    GoodKids(n, depth, d);
    assert n[d].value.(subfiles := n[d].value.subfiles) == n[d].value;
    hide Tree;
    assert forall j :: 0 <= j < |n[d].value.subfiles| ==> n[d].value.subfiles[j] in n[d].value.subfiles;
  }

  // Dropping the i-th file, which is not listed.
  lemma SweepDrop(n: Slots, m: Slots, depth: seq<nat>, d: nat, subfiles: map<string, FileTS>, i: nat)
    requires IsDir(n, d) && IsDir(m, d) && FilesSwept(n, m, d, subfiles, i) && i < |m[d].value.subfiles|
    requires Tree(m, depth) && m[d].value.subfiles[i] < |m| && NameAt(m, m[d].value.subfiles[i]) !in subfiles
    ensures FilesSwept(n, DroppedFile(m, d, i), d, subfiles, i)
    ensures DroppedFile(m, d, i)[d].value.subfiles[..i] == m[d].value.subfiles[..i]
  {
    hide Tree, FilesSwept, DroppedFile, SwapPop, KeptFiles;
    DroppedKeeps(m, depth, d, i);
    NotKept(n, m, d, subfiles, i);
    Swapped(m[d].value.subfiles, i);
    SweepDropFrom(n, m, DroppedFile(m, d, i), d, subfiles, i);
  }

  lemma Swapped(fs: seq<nat>, i: nat)
    requires i < |fs|
    ensures forall j :: 0 <= j < |fs| - 1 ==> SwapPop(fs, i)[j] == if j == i then fs[|fs| - 1] else fs[j]
    ensures SwapPop(fs, i)[..i] == fs[..i]
  {}

  lemma SweepDropFrom(n: Slots, m: Slots, r: Slots, d: nat, subfiles: map<string, FileTS>, i: nat)
    requires IsDir(n, d) && FilesSwept(n, m, d, subfiles, i) && i < |m[d].value.subfiles|
    requires var fs := m[d].value.subfiles;
             && |r| == |m| && IsDir(r, d) && r[d] == Some(m[d].value.(subfiles := r[d].value.subfiles))
             && |r[d].value.subfiles| == |fs| - 1 && fs[i] < |m| && r[fs[i]] == None && fs[i] != d
             && (forall j :: 0 <= j < |fs| - 1 ==> r[d].value.subfiles[j] == if j == i then fs[|fs| - 1] else fs[j])
             && (forall c :: c in r[d].value.subfiles <==> c in fs && c != fs[i])
             && (forall c: nat :: c < |m| && c != d && c != fs[i] ==> r[c] == m[c])
             && fs[i] !in KeptFiles(n, d, subfiles)
    ensures FilesSwept(n, r, d, subfiles, i)
  {
    hide KeptFiles;
    var fs, rs := m[d].value.subfiles, r[d].value.subfiles;
    forall j | 0 <= j < |rs|
      ensures rs[j] != fs[i] && rs[j] in fs
    {
      assert rs[j] in rs;
    }
  }

  lemma NotKept(n: Slots, m: Slots, d: nat, subfiles: map<string, FileTS>, i: nat)
    requires IsDir(n, d) && FilesSwept(n, m, d, subfiles, i) && i < |m[d].value.subfiles|
    requires NameAt(m, m[d].value.subfiles[i]) !in subfiles
    ensures m[d].value.subfiles[i] !in KeptFiles(n, d, subfiles)
  {}

  lemma DroppedKeeps(m: Slots, depth: seq<nat>, d: nat, i: nat)
    requires Tree(m, depth) && IsDir(m, d) && i < |m[d].value.subfiles| && m[d].value.subfiles[i] < |m|
    ensures var r, fs := DroppedFile(m, d, i), m[d].value.subfiles;
            && |r| == |m| && IsDir(r, d) && r[d] == Some(m[d].value.(subfiles := SwapPop(fs, i)))
            && r[fs[i]] == None && fs[i] != d
            && (forall c :: c in SwapPop(fs, i) <==> c in fs && c != fs[i])
            && (forall c: nat :: c < |m| && c != d && c != fs[i] ==> r[c] == m[c])
  {
    hide SwapPop, DroppedFile, Tree;
    DroppedFacts(m, depth, d, i);
  }

  // Refreshing the i-th file, which is listed.
  lemma SweepRefresh(n: Slots, m: Slots, depth: seq<nat>, d: nat, subfiles: map<string, FileTS>, i: nat)
    requires IsDir(n, d) && IsDir(m, d) && FilesSwept(n, m, d, subfiles, i) && i < |m[d].value.subfiles|
    requires Tree(m, depth) && NameAt(m, m[d].value.subfiles[i]) in subfiles
    ensures var c := m[d].value.subfiles[i];
            && IsFile(m, c) && IsFile(n, c) && m[c] == n[c] && c != d
            && FilesSwept(n, m[c := Some(m[c].value.(file := Refreshed(m[c].value.file, subfiles[NameAt(m, c)])))], d,
                          subfiles, i + 1)
  {
    hide Tree, Refreshed, FilesSwept;
    NoDupFiles(m, depth, d);
    Untouched(n, m, d, subfiles, i);
    NotSelf(n, m, d, subfiles, i);
    var c := m[d].value.subfiles[i];
    SweepRefreshFrom(n, m, m[c := Some(m[c].value.(file := Refreshed(m[c].value.file, subfiles[NameAt(m, c)])))], d,
                     subfiles, i);
  }

  lemma NotSelf(n: Slots, m: Slots, d: nat, subfiles: map<string, FileTS>, i: nat)
    requires IsDir(n, d) && FilesSwept(n, m, d, subfiles, i) && i < |m[d].value.subfiles|
    requires NameAt(m, m[d].value.subfiles[i]) in subfiles
    ensures m[d].value.subfiles[i] != d && m[d].value.subfiles[i] in KeptFiles(n, d, subfiles)
  {}

  lemma SweepRefreshFrom(n: Slots, m: Slots, r: Slots, d: nat, subfiles: map<string, FileTS>, i: nat)
    requires IsDir(n, d) && IsDir(m, d) && FilesSwept(n, m, d, subfiles, i) && i < |m[d].value.subfiles|
    requires NoDup(m[d].value.subfiles)
    requires var c := m[d].value.subfiles[i];
             && c < |m| && |m| == |n| && |r| == |m| && c != d && IsFile(n, c) && m[c] == n[c]
                  && c in KeptFiles(n, d, subfiles)
             && r[c] == Some(n[c].value.(file := Refreshed(n[c].value.file, subfiles[NameAt(n, c)])))
             && (forall x: nat :: x < |m| && x != c ==> r[x] == m[x])
    ensures FilesSwept(n, r, d, subfiles, i + 1)
  {
    hide Refreshed, KeptFiles;
    assert forall j :: 0 <= j < |m[d].value.subfiles| ==> m[d].value.subfiles[j] in m[d].value.subfiles;
    KeptAre(n, d, subfiles);
  }

  lemma KeptAre(n: Slots, d: nat, subfiles: map<string, FileTS>)
    requires IsDir(n, d)
    ensures forall c :: c in KeptFiles(n, d, subfiles) ==> c in n[d].value.subfiles && NameAt(n, c) in subfiles
  {}

  lemma NoDupFiles(m: Slots, depth: seq<nat>, d: nat)
    requires Tree(m, depth) && IsDir(m, d)
    ensures NoDup(m[d].value.subfiles)
  {
    GoodKids(m, depth, d);
  }

  // ---- The counters during the sweep ----

  lemma ShadowDrop(n: Slots, m: Slots, depth: seq<nat>, d: nat, subfiles: map<string, FileTS>, i: nat)
    requires IsDir(n, d) && IsDir(m, d) && FilesSwept(n, m, d, subfiles, i) && i < |m[d].value.subfiles|
    requires Tree(m, depth) && IsFile(m, m[d].value.subfiles[i])
    ensures var c, r := m[d].value.subfiles[i], DroppedFile(m, d, i);
            && Size(Shadow(m, n)) == Size(Shadow(r, n)) + m[c].value.file.size
            && Count(m) == Count(r) + 1
  {
    hide Tree, DroppedFile, SwapPop, Size, Count;
    var c, r := m[d].value.subfiles[i], DroppedFile(m, d, i);
    DroppedKeeps(m, depth, d, i);
    TotalsUpdate(Shadow(m, n), c, None);
    TotalsUpdate(m, c, None);
    Untouched(n, m, d, subfiles, i);
    SameTotals(Shadow(m, n)[c := None], Shadow(r, n));
    SameTotals(m[c := None], r);
  }

  lemma Untouched(n: Slots, m: Slots, d: nat, subfiles: map<string, FileTS>, i: nat)
    requires IsDir(n, d) && FilesSwept(n, m, d, subfiles, i) && i < |m[d].value.subfiles|
    ensures var c := m[d].value.subfiles[i]; |m| == |n| && c < |n| && m[c] == n[c] && IsFile(n, c)
  {}

  lemma ShadowRefresh(n: Slots, m: Slots, d: nat, subfiles: map<string, FileTS>, i: nat, f: FileInfo)
    requires IsDir(n, d) && FilesSwept(n, m, d, subfiles, i) && i < |m[d].value.subfiles|
    ensures var c := m[d].value.subfiles[i];
            && c < |m| && IsFile(m, c)
            && Size(Shadow(m[c := Some(m[c].value.(file := f))], n)) == Size(Shadow(m, n))
            && Count(m[c := Some(m[c].value.(file := f))]) == Count(m)
  {
    hide Size, Count;
    Untouched(n, m, d, subfiles, i);
    hide FilesSwept;
    var c := m[d].value.subfiles[i];
    var r := m[c := Some(m[c].value.(file := f))];
    SameTotals(Shadow(m, n), Shadow(r, n));
    TotalsUpdate(m, c, r[c]);
  }

  // ---- The result: the files of d are exactly the listed ones ----

  // The files of d have the given names, the listed sizes and times; the old ones among them are
  // those still listed, and the new ones have no hash yet.
  ghost predicate FilesListed(n: Slots, m: Slots, d: nat, subfiles: map<string, FileTS>, names: set<string>)
    requires IsDir(n, d)
  {
    && |n| <= |m| && IsDir(m, d) && m[d] == Some(n[d].value.(subfiles := m[d].value.subfiles))
    && (forall c :: c in m[d].value.subfiles ==> ListedFile(n, m, d, subfiles, c))
    && (forall c :: c in KeptFiles(n, d, subfiles) ==> c in m[d].value.subfiles)
    && (forall c: nat :: c < |n| && c != d && c !in n[d].value.subfiles ==> m[c] == n[c])
    && (forall c :: c in n[d].value.subfiles && c !in KeptFiles(n, d, subfiles) ==> c < |m| && m[c] == None)
    && FileNames(m, m[d].value.subfiles) == names
  }

  ghost predicate ListedFile(n: Slots, m: Slots, d: nat, subfiles: map<string, FileTS>, c: nat)
    requires IsDir(n, d)
  {
    && UpToDate(m, subfiles, c)
    && if c < |n| then
         c in KeptFiles(n, d, subfiles) && IsFile(n, c) &&
         m[c] == Some(n[c].value.(file := Refreshed(n[c].value.file, subfiles[NameAt(n, c)])))
       else m[c].value.file.hash == NO_HASH
  }

  // A file keeps its hash exactly when its size and its time are those listed; a file that is new or
  // has changed has to be hashed again.
  lemma HashKeptIff(n: Slots, m: Slots, d: nat, subfiles: map<string, FileTS>, names: set<string>, c: nat)
    requires IsDir(n, d) && FilesListed(n, m, d, subfiles, names) && c in m[d].value.subfiles
    ensures IsFile(m, c) && NameAt(m, c) in subfiles
    ensures var f, ts := m[c].value.file, subfiles[NameAt(m, c)];
            && f.size == ts.size && f.modtime == ts.modtime
            && (c < |n| ==> IsFile(n, c) && f.name == n[c].value.file.name)
            && f.hash == if c < |n| && n[c].value.file.size == ts.size && n[c].value.file.modtime == ts.modtime
                         then n[c].value.file.hash else NO_HASH
  {
    hide KeptFiles;
    assert ListedFile(n, m, d, subfiles, c);
  }

  lemma SweptListed(n: Slots, m: Slots, depth: seq<nat>, d: nat, subfiles: map<string, FileTS>)
    requires IsDir(n, d) && IsDir(m, d) && FilesSwept(n, m, d, subfiles, |m[d].value.subfiles|)
    ensures FilesListed(n, m, d, subfiles, FileNames(m, m[d].value.subfiles))
    ensures FileNames(m, m[d].value.subfiles) <= subfiles.Keys
  {
    hide KeptFiles;
    KeptAre(n, d, subfiles);
  }

  lemma FileNamesSnoc(m: Slots, fs: seq<nat>, k: nat)
    requires k < |fs|
    ensures FileNames(m, fs[..k + 1]) == FileNames(m, fs[..k]) + {NameAt(m, fs[k])}
    ensures FileNames(m, fs[..0]) == {} && fs[..|fs|] == fs
  {
    assert fs[..k + 1] == fs[..k] + [fs[k]];
  }

  lemma SameFileNames(m: Slots, r: Slots, fs: seq<nat>)
    requires forall c :: c in fs ==> NameAt(m, c) == NameAt(r, c)
    ensures FileNames(m, fs) == FileNames(r, fs)
  {}

  // One more listed file is created.
  lemma AddListed(n: Slots, m: Slots, depth: seq<nat>, d: nat, subfiles: map<string, FileTS>,
                  names: set<string>, x: string, node: Node)
    requires IsDir(n, d) && FilesListed(n, m, d, subfiles, names) && x in subfiles && Tree(m, depth)
    requires node == File(d, |m|, FileInfo(x, subfiles[x].size, subfiles[x].modtime, NO_HASH))
    ensures FilesListed(n, AddedFile(m, d, node), d, subfiles, names + {x})
  {
    hide AddedFile, Tree, KeptFiles, ListedFile;
    var r := AddedFile(m, d, node);
    var fs := m[d].value.subfiles;
    KeptAre(n, d, subfiles);
    FilesInRange(m, depth, d);
    forall c | c in fs + [|m|]
      ensures ListedFile(n, r, d, subfiles, c)
    {
      AddListedFile(n, m, depth, d, subfiles, names, x, node, c);
    }
    assert (fs + [|m|])[..|fs|] == fs;
    FileNamesSnoc(r, fs + [|m|], |fs|);
    assert (fs + [|m|])[..|fs| + 1] == fs + [|m|];
    SameFileNames(m, r, fs);
  }

  lemma FilesInRange(m: Slots, depth: seq<nat>, d: nat)
    requires Tree(m, depth) && IsDir(m, d)
    ensures forall c :: c in m[d].value.subfiles ==> c < |m| && c != d && IsFile(m, c)
  {
    GoodKids(m, depth, d);
  }

  lemma AddListedFile(n: Slots, m: Slots, depth: seq<nat>, d: nat, subfiles: map<string, FileTS>,
                      names: set<string>, x: string, node: Node, c: nat)
    requires IsDir(n, d) && FilesListed(n, m, d, subfiles, names) && x in subfiles && Tree(m, depth)
    requires node == File(d, |m|, FileInfo(x, subfiles[x].size, subfiles[x].modtime, NO_HASH))
    requires c in m[d].value.subfiles || c == |m|
    ensures ListedFile(n, AddedFile(m, d, node), d, subfiles, c)
  {
    hide AddedFile, Tree, KeptFiles;
    FilesInRange(m, depth, d);
    if c in m[d].value.subfiles { assert ListedFile(n, m, d, subfiles, c); }
  }

  lemma AddedFileTotals(n: Slots, m: Slots, free: seq<nat>, p: nat, node: Node)
    requires FreeExact(m, free) && IsDir(m, p) && node.File? && |n| <= |m|
    ensures FreeExact(AddedFile(m, p, node), free)
    ensures Size(Shadow(AddedFile(m, p, node), n)) == Size(Shadow(m, n)) + node.file.size
    ensures Count(AddedFile(m, p, node)) == Count(m) + 1
  {
    hide Size, Count, AddedFile, FreeExact, Shadow;
    var d := Some(m[p].value.(subfiles := m[p].value.subfiles + [|m|]));
    var r := AddedFile(m, p, node);
    TotalsUpdate(m, p, d);
    TotalsGrown(m[p := d], node);
    AddedFileIs(m, p, node);
    Refilled(m, free, p, d.value);
    FreeGrown(m[p := d], free, node);
    TotalsGrown(Shadow(m, n), node);
    ShadowAdded(n, m, p, node);
    SameTotals(Shadow(m, n) + [Some(node)], Shadow(r, n));
  }

  lemma AddedFileIs(m: Slots, p: nat, node: Node)
    requires IsDir(m, p)
    ensures m[p := Some(m[p].value.(subfiles := m[p].value.subfiles + [|m|]))] + [Some(node)] == AddedFile(m, p, node)
  {}

  lemma ShadowAdded(n: Slots, m: Slots, p: nat, node: Node)
    requires IsDir(m, p) && |n| <= |m|
    ensures var w, r := Shadow(m, n) + [Some(node)], Shadow(AddedFile(m, p, node), n);
            |w| == |r| && forall i :: 0 <= i < |w| ==> SizeOf(w[i]) == SizeOf(r[i]) && CountOf(w[i]) == CountOf(r[i])
  {
    hide AddedFile;
  }

  // ---- What the counter is off by ----

  // The slots with the listed sizes instead of the stored ones.
  ghost function AtListedSizes(n: Slots, subfiles: map<string, FileTS>): (r: Slots)
    ensures |r| == |n|
  {
    seq(|n|, i requires 0 <= i < |n| =>
      if IsFile(n, i) && NameAt(n, i) in subfiles then
        Some(n[i].value.(file := n[i].value.file.(size := subfiles[NameAt(n, i)].size)))
      else n[i])
  }

  lemma {:induction false} SizeOutside(a: Slots, b: Slots, s: set<nat>)
    requires |a| == |b| && forall i: nat :: i < |a| && i !in s ==> SizeOf(a[i]) == SizeOf(b[i])
    ensures Size(a) + SizeIn(b, s) == Size(b) + SizeIn(a, s)
  {
    if a != [] { SizeOutside(a[..|a| - 1], b[..|b| - 1], s); }
  }

  lemma {:induction false} SizeInSame(a: Slots, b: Slots, s: set<nat>)
    requires |b| <= |a| && forall i :: i in s ==> i < |b| && SizeOf(a[i]) == SizeOf(b[i])
    ensures SizeIn(a, s) == SizeIn(b, s)
  {
    if |b| < |a| {
      SizeInSame(a[..|a| - 1], b, s);
    } else if a != [] {
      SizeInSame2(a, b, s);
    }
  }

  lemma {:induction false} SizeInSame2(a: Slots, b: Slots, s: set<nat>)
    requires |b| == |a| && forall i: nat :: i in s && i < |a| ==> SizeOf(a[i]) == SizeOf(b[i])
    ensures SizeIn(a, s) == SizeIn(b, s)
  {
    if a != [] { SizeInSame2(a[..|a| - 1], b[..|b| - 1], s); }
  }

  // The files grow by what the kept ones are listed with beyond their former sizes; the counter,
  // which stands for the former sizes, does not see it.
  lemma Drift(n: Slots, m: Slots, d: nat, subfiles: map<string, FileTS>, names: set<string>)
    requires IsDir(n, d) && FilesListed(n, m, d, subfiles, names) && forall c :: c in n[d].value.subfiles ==>
      IsFile(n, c)
    ensures var kept := KeptFiles(n, d, subfiles);
            Size(m) + SizeIn(n, kept) == Size(Shadow(m, n)) + SizeIn(AtListedSizes(n, subfiles), kept)
  {
    hide Size, SizeIn;
    var kept := KeptFiles(n, d, subfiles);
    forall i | i in kept
      ensures i < |n| && SizeOf(Shadow(m, n)[i]) == SizeOf(n[i])
      ensures SizeOf(m[i]) == SizeOf(AtListedSizes(n, subfiles)[i])
    {
      assert ListedFile(n, m, d, subfiles, i);
    }
    ShadowOutside(n, m, d, subfiles, names);
    SizeOutside(m, Shadow(m, n), kept);
    SizeInSame(Shadow(m, n), n, kept);
    SizeInSame(m, AtListedSizes(n, subfiles), kept);
  }

  lemma ShadowOutside(n: Slots, m: Slots, d: nat, subfiles: map<string, FileTS>, names: set<string>)
    requires IsDir(n, d) && FilesListed(n, m, d, subfiles, names)
    ensures forall i: nat :: i < |m| && i !in KeptFiles(n, d, subfiles) ==> SizeOf(m[i]) == SizeOf(Shadow(m, n)[i])
  {
    hide KeptFiles, ListedFile, FileNames;
    forall i: nat | i < |n| && i !in KeptFiles(n, d, subfiles)
      ensures SizeOf(m[i]) == SizeOf(OldSize(m[i], n[i]))
    {
      if i != d && i !in n[d].value.subfiles { assert m[i] == n[i]; }
    }
  }

  lemma NoFileNames(m: Slots, fs: seq<nat>)
    ensures FileNames(m, fs[..0]) == {}
  {}

  lemma DroppedIs(m: Slots, d: nat, i: nat)
    requires IsDir(m, d) && i < |m[d].value.subfiles| && m[d].value.subfiles[i] < |m|
    ensures m[m[d].value.subfiles[i] := None][d := Some(m[d].value.(subfiles := SwapPop(m[d].value.subfiles, i)))] ==
      DroppedFile(m, d, i)
  {}

  lemma DroppedFree(m: Slots, free: seq<nat>, d: nat, i: nat)
    requires IsDir(m, d) && i < |m[d].value.subfiles| && IsFile(m, m[d].value.subfiles[i]) && FreeExact(m, free)
    ensures FreeExact(DroppedFile(m, d, i), free + [m[d].value.subfiles[i]])
  {
    hide FreeExact, SwapPop;
    FreeMore(m, free, m[d].value.subfiles[i]);
    Refilled(m[m[d].value.subfiles[i] := None], free + [m[d].value.subfiles[i]], d,
             m[d].value.(subfiles := SwapPop(m[d].value.subfiles, i)));
  }

  lemma DroppedNames(m: Slots, depth: seq<nat>, d: nat, i: nat)
    requires Tree(m, depth) && IsDir(m, d) && i < |m[d].value.subfiles| && m[d].value.subfiles[i] < |m|
    ensures var r := DroppedFile(m, d, i);
            && IsDir(r, d) && |r[d].value.subfiles| == |m[d].value.subfiles| - 1
            && FileNames(r, r[d].value.subfiles[..i]) == FileNames(m, m[d].value.subfiles[..i])
  {
    hide Tree, DroppedFile, FileNames, SwapPop;
    DroppedKeeps(m, depth, d, i);
    FilesInRange(m, depth, d);
    Swapped(m[d].value.subfiles, i);
    var r := DroppedFile(m, d, i);
    assert forall c :: c in r[d].value.subfiles[..i] ==> c in r[d].value.subfiles;
    SameFileNames(r, m, r[d].value.subfiles[..i]);
  }

  // Names kept so far leave the same listed names over as all old names do.
  lemma NewNames(n: Slots, m: Slots, depth: seq<nat>, d: nat, subfiles: map<string, FileTS>)
    requires IsDir(n, d) && IsDir(m, d) && FilesSwept(n, m, d, subfiles, |m[d].value.subfiles|)
    ensures subfiles - FileNames(m, m[d].value.subfiles) == subfiles - FileNames(n, n[d].value.subfiles)
  {
    var fs := m[d].value.subfiles;
    forall x | x in subfiles
      ensures x in FileNames(m, fs) <==> x in FileNames(n, n[d].value.subfiles)
    {
      if x in FileNames(m, fs) {
        var j :| 0 <= j < |fs| && NameAt(m, fs[j]) == x;
        assert NameAt(n, fs[j]) == x;
      }
      if x in FileNames(n, n[d].value.subfiles) {
        var c :| c in n[d].value.subfiles && NameAt(n, c) == x;
        assert c in KeptFiles(n, d, subfiles);
        var j :| 0 <= j < |fs| && fs[j] == c;
        assert NameAt(m, fs[j]) == x;
      }
    }
  }

  lemma SameIfFresh(m: Slots, c: nat, ts: FileTS)
    requires IsFile(m, c)
    ensures var f := m[c].value.file;
            var r := m[c := Some(m[c].value.(file := Refreshed(f, ts)))];
            if ts.modtime != f.modtime || ts.size != f.size then
              Refreshed(f, ts) == FileInfo(f.name, ts.size, ts.modtime, NO_HASH)
            else r == m
  {
    var f := m[c].value.file;
    assert m[c].value.(file := f) == m[c].value;
  }

  lemma RefreshedNames(m: Slots, r: Slots, d: nat, i: nat, c: nat, ts: FileTS)
    requires IsDir(m, d) && i < |m[d].value.subfiles| && c == m[d].value.subfiles[i] && IsFile(m, c) && c != d
    requires r == m[c := Some(m[c].value.(file := Refreshed(m[c].value.file, ts)))]
    ensures IsDir(r, d) && r[d].value.subfiles == m[d].value.subfiles
    ensures FileNames(r, r[d].value.subfiles[..i + 1]) == FileNames(m, m[d].value.subfiles[..i]) + {NameAt(m, c)}
  {
    var fs := m[d].value.subfiles;
    FileNamesSnoc(m, fs, i);
    SameFileNames(r, m, fs[..i + 1]);
  }

  lemma RefreshedValid(m: Slots, r: Slots, depth: seq<nat>, free: seq<nat>, c: nat)
    requires Tree(m, depth) && FreeExact(m, free) && IsFile(m, c) && |r| == |m| && IsFile(r, c)
    requires r[c].value.parent == m[c].value.parent && forall i: nat :: i < |m| && i != c ==> r[i] == m[i]
    ensures Tree(r, depth) && FreeExact(r, free)
  {
    ShapeTree(m, r, depth);
    hide Tree;
  }

  lemma ListedDir(n: Slots, m: Slots, d: nat, subfiles: map<string, FileTS>, names: set<string>)
    requires IsDir(n, d) && FilesListed(n, m, d, subfiles, names)
    ensures IsDir(m, d) && |n| <= |m|
  {}

  lemma AddFileSums(n: Slots, m: Slots, free: seq<nat>, p: nat, node: Node)
    requires FreeExact(m, free) && IsDir(m, p) && node.File? && |n| <= |m|
    ensures var r := AddedFile(m, p, node);
            && FreeExact(r, free)
            && Low64(Size(Shadow(r, n))) == Add64(Low64(Size(Shadow(m, n))), node.file.size)
            && Count(r) % 0x1_0000_0000 == (Count(m) % 0x1_0000_0000 + 1) % 0x1_0000_0000
  {
    hide FreeExact, Shadow, Low64, Add64, Size, Count, AddedFile;
    AddedFileTotals(n, m, free, p, node);
    LowAdd(Size(Shadow(m, n)), node.file.size);
    LowSmall(node.file.size);
  }

  lemma KeysLeft(subfiles: map<string, FileTS>, names: set<string>)
    requires names <= subfiles.Keys
    ensures subfiles.Keys - (subfiles - names).Keys == names
  {}

  lemma KeyMoved(keys: set<string>, left: set<string>, x: string)
    requires left <= keys && x in left
    ensures keys - left + {x} == keys - (left - {x})
  {}

  // After a list update the counter is the total size of the files exactly when the kept files, all
  // together, are listed with the sizes they already had.
  lemma CounterFollowsIff(n: Slots, m: Slots, depth: seq<nat>, d: nat, subfiles: map<string, FileTS>,
                          names: set<string>, counter: u64)
    requires Tree(n, depth) && IsDir(n, d) && FilesListed(n, m, d, subfiles, names)
    requires counter == Low64(Size(Shadow(m, n))) && Size(Shadow(m, n)) < U64
    ensures counter == Size(m) <==>
      SizeIn(n, KeptFiles(n, d, subfiles)) == SizeIn(AtListedSizes(n, subfiles), KeptFiles(n, d, subfiles))
  {
    hide FilesListed, Size, SizeIn, KeptFiles, AtListedSizes, Shadow, Low64, Tree;
    LowSmall(Size(Shadow(m, n)));
    FilesInRange(n, depth, d);
    Drift(n, m, d, subfiles, names);
  }

  // One file of one byte that has become two bytes long: the counter stays at one.
  lemma DriftExample()
    ensures var n: Slots := [Some(Dir(0, 0, DirInfo("", NO_HASH, 0, 0, 0, 0), [], [1])),
                             Some(File(0, 0, FileInfo("a", 1, 5, 7)))];
            var m: Slots := [n[0], Some(File(0, 0, FileInfo("a", 2, 6, NO_HASH)))];
            var listed := map["a" := FileTS(2, 6)];
            Tree(n, [0, 1]) && FilesListed(n, m, 0, listed, listed.Keys) && Size(Shadow(m, n)) == 1 && Size(m) == 2
  {
    var n: Slots := [Some(Dir(0, 0, DirInfo("", NO_HASH, 0, 0, 0, 0), [], [1])),
                     Some(File(0, 0, FileInfo("a", 1, 5, 7)))];
    var m: Slots := [n[0], Some(File(0, 0, FileInfo("a", 2, 6, NO_HASH)))];
    var w := Shadow(m, n);
    ExampleTree(n);
    assert w == [n[0], Some(File(0, 0, FileInfo("a", 1, 6, NO_HASH)))];
    assert w[..1] == [n[0]] && m[..1] == [n[0]] && [n[0]][..0] == [];
    assert Size([n[0]]) == Size([]) + SizeOf(n[0]);
    assert Size(w) == Size(w[..1]) + SizeOf(w[1]);
    assert Size(m) == Size(m[..1]) + SizeOf(m[1]);
  }

  lemma ExampleTree(n: Slots)
    requires n == [Some(Dir(0, 0, DirInfo("", NO_HASH, 0, 0, 0, 0), [], [1])), Some(File(0, 0, FileInfo("a", 1, 5, 7)))]
    ensures Tree(n, [0, 1])
  {}
}
