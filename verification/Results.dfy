/** What the finished tree holds, said of the files and their tables alone: which export
    each import is matched with, and which exports are marked as used. */
module Results {
  import opened Words
  import opened Text
  import opened ExportTable
  import opened Matcher
  import opened DependencyTree
  import opened Discovery
  import TO = TreeOrder
  import opened ModulesList
  import opened PairAll
  import opened Processor

  // ---- What a node of the tree stands for ----

  /** File q located for DLL i of file p, when the main file is main. */
  ghost predicate LocatedAs(w: World, main: Path, p: Path, i: nat, q: Path) {
    && p in w.load && i < |w.load[p].dlls|
    && (main, p, w.load[p].dlls[i]) in w.located && w.located[(main, p, w.load[p].dlls[i])] == q
  }

  /** Node c stands for what DLL i of p locates: for the first instance of that file, as the
      instance itself or as a duplicate of it, or for nothing. */
  ghost predicate StandsFor(w: World, main: Path, b: Build, p: Path, i: nat, c: nat) {
    && c < |b.nodes|
    && (forall q :: LocatedAs(w, main, p, i, q) ==>
          q in b.known && (c == b.known[q].instance || b.nodes[c].orig == Some(b.known[q].instance)))
    && ((forall q :: !LocatedAs(w, main, p, i, q)) ==> b.nodes[c].path.None? && b.nodes[c].orig.None?)
  }

  /** The first instance of p holds the tables of the file, and its children stand for what
      its DLLs locate. */
  ghost predicate FileOk(w: World, main: Path, tops: nat, b: Build, p: Path) {
    && p in b.known && p in w.load && b.known[p].instance < |b.nodes|
    && b.nodes[b.known[p].instance].mod == w.load[p]
    && forall i :: 0 <= i < |w.load[p].dlls| ==> ChildOk(w, main, tops, b, p, i)
  }

  ghost predicate ChildOk(w: World, main: Path, tops: nat, b: Build, p: Path, i: nat)
    requires p in b.known && b.known[p].instance < |b.nodes|
  {
    var c := b.nodes[b.known[p].instance].fis + i;
    tops < c && StandsFor(w, main, b, p, i, c)
  }

  /** Root j is the one whose run found p. */
  ghost predicate FinderOf(w: World, paths: seq<Path>, j: nat, p: Path)
    requires GoodWorld(w)
  {
    j < |paths| && FoundBy(w, paths, j, p) && p !in AfterRoots(w, paths, j).value.known
  }

  ghost predicate FoundAndOk(w: World, paths: seq<Path>, j: nat, b: Build, p: Path)
    requires GoodWorld(w)
  {
    FinderOf(w, paths, j, p) && FileOk(w, paths[j], |paths|, b, p)
  }

  ghost predicate FilesOk(w: World, paths: seq<Path>, k: nat, b: Build)
    requires GoodWorld(w)
  {
    forall p :: p in b.known ==> exists j :: 0 <= j < k && FoundAndOk(w, paths, j, b, p)
  }

  // ---- Every run keeps it ----

  /** A file that this run has found. */
  lemma NewFileOk(w: World, paths: seq<Path>, k: nat, b: Build, e: Build, p: Path)
    requires RunsTo(w, paths, k, b, e) && p in e.known && p !in b.known
    ensures FileOk(w, paths[k], |paths|, e, p)
  {
    var s := RootRun(w, paths, k, b);
    RunMirrorsImports(s);
    assert New(s, e, p) && Unrolled(s, e, p);
    forall i | 0 <= i < |w.load[p].dlls| ensures ChildOk(w, paths[k], |paths|, e, p, i) {
      assert MirrorsImport(s, e, p, i);
      ChildStands(w, paths, k, b, e, p, i);
    }
  }

  lemma ChildStands(w: World, paths: seq<Path>, k: nat, b: Build, e: Build, p: Path, i: nat)
    requires RunsTo(w, paths, k, b, e) && Inv(e) && e.queue == []
    requires p in e.known && p in w.load && i < |w.load[p].dlls|
    requires MirrorsImport(RootRun(w, paths, k, b), e, p, i)
    ensures StandsFor(w, paths[k], e, p, i, e.nodes[e.known[p].instance].fis + i)
  {
    var c := e.nodes[e.known[p].instance].fis + i;
    var key := (paths[k], p, w.load[p].dlls[i]);
    if key in w.located {
      assert LocatedAs(w, paths[k], p, i, w.located[key]);
      assert NodeOk(e, c);
    }
  }

  /** All that was known before, and all nodes but the root, are as they were. */
  ghost predicate Extends(b: Build, e: Build, root: nat) {
    && |b.nodes| <= |e.nodes|
    && (forall j :: 0 <= j < |b.nodes| && j != root ==> e.nodes[j] == b.nodes[j])
    && (forall q :: q in b.known ==> q in e.known && e.known[q] == b.known[q])
  }

  lemma RunExtends(w: World, paths: seq<Path>, k: nat, b: Build, e: Build)
    requires RunsTo(w, paths, k, b, e)
    ensures Extends(b, e, k + 1)
  {
    RunMirrorsImports(RootRun(w, paths, k, b));
    RunKeepsNodes(w, paths, k, b, e);
  }

  lemma OldChildOk(w: World, main: Path, tops: nat, b: Build, e: Build, root: nat, p: Path, i: nat)
    requires Extends(b, e, root) && root <= tops && FileOk(w, main, tops, b, p) && b.known[p].instance != root
    requires i < |w.load[p].dlls|
    ensures p in e.known && e.known[p].instance < |e.nodes| && ChildOk(w, main, tops, e, p, i)
  {
    assert ChildOk(w, main, tops, b, p, i);
  }

  /** A file found before keeps its first instance and what its children stand for. */
  lemma OldFileOk(w: World, paths: seq<Path>, k: nat, b: Build, e: Build, main: Path, p: Path)
    requires RunsTo(w, paths, k, b, e) && FileOk(w, main, |paths|, b, p)
    ensures FileOk(w, main, |paths|, e, p)
  {
    RunExtends(w, paths, k, b, e);
    assert KnownOk(b, p);
    assert b.known[p].instance != k + 1;
    forall i | 0 <= i < |w.load[p].dlls| ensures ChildOk(w, main, |paths|, e, p, i) {
      OldChildOk(w, main, |paths|, b, e, k + 1, p, i);
    }
  }

  lemma FilesOneMore(w: World, paths: seq<Path>, k: nat, b: Build, e: Build)
    requires AfterRootsIs(w, paths, k, b) && RunsTo(w, paths, k, b, e) && FilesOk(w, paths, k, b)
    requires AfterRootsIs(w, paths, k + 1, e)
    ensures FilesOk(w, paths, k + 1, e)
  {
    forall p | p in e.known ensures exists j :: 0 <= j < k + 1 && FoundAndOk(w, paths, j, e, p) {
      if p in b.known {
        var j :| 0 <= j < k && FoundAndOk(w, paths, j, b, p);
        OldFileOk(w, paths, k, b, e, paths[j], p);
        assert FoundAndOk(w, paths, j, e, p);
      } else {
        NewFileOk(w, paths, k, b, e, p);
        RootDiscovers(w, paths, k);
        assert FoundAndOk(w, paths, k, e, p);
      }
    }
  }

  ghost predicate AfterRootsIs(w: World, paths: seq<Path>, k: nat, b: Build) {
    GoodWorld(w) && k <= |paths| && AfterRoots(w, paths, k) == Some(b)
  }

  lemma {:induction false} RootsKeepFiles(w: World, paths: seq<Path>, k: nat, b: Build)
    requires AfterRootsIs(w, paths, k, b)
    ensures BetweenRuns(b, paths, k) && FilesOk(w, paths, k, b)
    decreases k
  {
    AfterRootsBetween(w, paths, k);
    if k == 0 {
    } else {
      var a := LastRun(w, paths, k - 1, b);
      RootsKeepFiles(w, paths, k - 1, a);
      FilesOneMore(w, paths, k - 1, a, b);
    }
  }

  lemma LastRun(w: World, paths: seq<Path>, k: nat, e: Build) returns (b: Build)
    requires k < |paths| && AfterRootsIs(w, paths, k + 1, e)
    ensures AfterRootsIs(w, paths, k, b) && RunsTo(w, paths, k, b, e)
  {
    b := AfterRoots(w, paths, k).value;
    AfterOneMore(w, paths, k, b);
    RootStarts(w, paths, k, b);
  }

  // ---- The matches ----

  /** What the key of an import says of export e. */
  ghost predicate HasKey(info: ExportInfo, imp: Import, e: nat)
    requires e < |info.ordinals| == |info.names|
  {
    match imp
    case ByOrdinal(ordinal) => info.ordinals[e] == ordinal
    case ByName(_, name) => info.names[e] == Some(name)
  }

  /** Cell e is right for an import from a file with these exports: an export with its key,
      or 0xFFFF when there is none. */
  ghost predicate RightCell(info: ExportInfo, imp: Import, e: uint16)
    requires |info.ordinals| == |info.names|
  {
    if e == 0xFFFF then forall f :: 0 <= f < |info.ordinals| ==> !HasKey(info, imp, f)
    else e < |info.ordinals| && HasKey(info, imp, e)
  }

  lemma ResolveIsRight(info: ExportInfo, enpt: seq<uint16>, imp: Import)
    requires WellFormed(info, enpt)
    ensures RightCell(info, imp, Resolve(imp, info, enpt))
  {
    ResolveRefinesScan(imp, info, enpt);
    forall f | 0 <= f < |info.ordinals| ensures HasKey(info, imp, f) <==> Exports(info, f, imp) {
    }
  }

  /** The node of p, and the child for its DLL i. */
  lemma NodeOfFile(w: World, paths: seq<Path>, r: MainType, j: nat, p: Path)
    requires GoodWorld(w) && Finished(w, paths, r) && FinderOf(w, paths, j, p)
    ensures FileOk(w, paths[j], |paths|, r.build, p) && 1 <= r.build.known[p].instance
  {
    var b := r.build;
    RootsKeepFiles(w, paths, |paths|, b);
    RootsKnowExactly(w, paths, |paths|, p);
    assert AnyFinds(w, paths, |paths|, p);
    var l :| 0 <= l < |paths| && FoundAndOk(w, paths, l, b, p);
    OneFinder(w, paths, j, l, p);
    assert KnownOk(b, p);
  }

  lemma OneFinder(w: World, paths: seq<Path>, j: nat, l: nat, p: Path)
    requires GoodWorld(w) && FinderOf(w, paths, j, p) && FinderOf(w, paths, l, p)
    ensures j == l
  {
    if j < l {
      FoundStaysKnown(w, paths, j, l, p);
    } else if l < j {
      FoundStaysKnown(w, paths, l, j, p);
    }
  }

  lemma FoundStaysKnown(w: World, paths: seq<Path>, j: nat, l: nat, p: Path)
    requires GoodWorld(w) && FinderOf(w, paths, j, p) && j < l <= |paths| && AfterRoots(w, paths, l).Some?
    ensures p in AfterRoots(w, paths, l).value.known
  {
    RootsKnowExactly(w, paths, l, p);
    assert AnyFinds(w, paths, l, p);
  }

  /** The first instance of a known file, in the finished tree. */
  lemma NodeOfKnown(w: World, paths: seq<Path>, r: MainType, q: Path) returns (l: nat)
    requires GoodWorld(w) && Finished(w, paths, r) && q in r.build.known
    ensures FinderOf(w, paths, l, q) && FileOk(w, paths[l], |paths|, r.build, q)
    ensures KnownOk(r.build, q) && 1 <= r.build.known[q].instance
  {
    RootsKeepFiles(w, paths, |paths|, r.build);
    l :| 0 <= l < |paths| && FoundAndOk(w, paths, l, r.build, q);
  }

  /** A node that stands for q is paired with the first instance of q. */
  lemma StandsForOriginal(w: World, main: Path, b: Build, p: Path, i: nat, c: nat, q: Path)
    requires StandsFor(w, main, b, p, i, c) && LocatedAs(w, main, p, i, q) && q in b.known && KnownOk(b, q)
    ensures c < |b.nodes| && Proper(b.nodes, c) == Some(b.known[q].instance)
  {
  }

  lemma StandsForNothing(w: World, main: Path, b: Build, p: Path, i: nat, c: nat)
    requires StandsFor(w, main, b, p, i, c) && forall q :: !LocatedAs(w, main, p, i, q)
    ensures c < |b.nodes| && Proper(b.nodes, c).None?
  {
  }

  /** The cell of import k of DLL i in the tables of the first instance of p. */
  ghost function CellOf(r: MainType, p: Path, i: nat, k: nat): Option<uint16> {
    if p in r.build.known && r.build.known[p].instance < |r.matches.matched|
       && i < |r.matches.matched[r.build.known[p].instance]|
       && k < |r.matches.matched[r.build.known[p].instance][i]|
    then Some(r.matches.matched[r.build.known[p].instance][i][k]) else None
  }

  /** The cell as the pass left it. */
  lemma CellIsResolved(w: World, main: Path, tops: nat, r: MainType, p: Path, i: nat, k: nat)
    requires TreeOk(r.build) && AllPaired(r.build, r.matches) && FileOk(w, main, tops, r.build, p)
    requires 1 <= r.build.known[p].instance && SizesOk(w.load[p])
    requires i < |w.load[p].dlls| && k < |w.load[p].imports[i]|
    ensures var c := r.build.nodes[r.build.known[p].instance].fis + i;
            && 1 <= c < |r.build.nodes| && ChildOk(w, main, tops, r.build, p, i)
            && CellOf(r, p, i, k) == Some(Resolved(r.build, c, w.load[p].imports[i][k]))
  {
    CellsExactly(r.build, r.matches, r.build.known[p].instance, i, k);
    assert r.matches.matched != [];
  }

  /** Files p and q in a finished tree; main is the main file of p. */
  ghost predicate InTree(w: World, main: Path, tops: nat, r: MainType, p: Path) {
    && TreeOk(r.build) && AllPaired(r.build, r.matches) && Inv(r.build) && r.build.queue == []
    && FileOk(w, main, tops, r.build, p) && KnownOk(r.build, p) && 1 <= r.build.known[p].instance
    && GoodModule(w.load[p])
  }

  lemma FinishedInTree(w: World, paths: seq<Path>, r: MainType, j: nat, p: Path)
    requires GoodWorld(w) && Finished(w, paths, r) && FinderOf(w, paths, j, p)
    ensures InTree(w, paths[j], |paths|, r, p)
  {
    NodeOfFile(w, paths, r, j, p);
    AfterRootsBetween(w, paths, |paths|);
    assert KnownOk(r.build, p);
  }

  lemma KnownInTree(w: World, paths: seq<Path>, r: MainType, q: Path) returns (l: nat)
    requires GoodWorld(w) && Finished(w, paths, r) && q in r.build.known
    ensures FinderOf(w, paths, l, q) && InTree(w, paths[l], |paths|, r, q)
  {
    l := NodeOfKnown(w, paths, r, q);
    AfterRootsBetween(w, paths, |paths|);
  }

  /** What DLL i of a file locates is known. */
  lemma LocatedIsKnown(w: World, main: Path, tops: nat, r: MainType, p: Path, i: nat, q: Path)
    requires InTree(w, main, tops, r, p) && LocatedAs(w, main, p, i, q)
    ensures q in r.build.known
  {
    assert ChildOk(w, main, tops, r.build, p, i);
  }

  /** The cell of an import of a file whose DLL locates q. */
  lemma LocatedCell(w: World, main: Path, other: Path, tops: nat, r: MainType, p: Path, i: nat, k: nat, q: Path)
    requires InTree(w, main, tops, r, p) && InTree(w, other, tops, r, q) && LocatedAs(w, main, p, i, q)
    requires k < |w.load[p].imports[i]|
    ensures CellOf(r, p, i, k) == Some(Resolve(w.load[p].imports[i][k], w.load[q].exports, w.load[q].enpt))
  {
    CellIsResolved(w, main, tops, r, p, i, k);
    StandsForOriginal(w, main, r.build, p, i, r.build.nodes[r.build.known[p].instance].fis + i, q);
  }

  lemma MissingCell(w: World, main: Path, tops: nat, r: MainType, p: Path, i: nat, k: nat)
    requires InTree(w, main, tops, r, p) && i < |w.load[p].dlls| && k < |w.load[p].imports[i]|
    requires forall q :: !LocatedAs(w, main, p, i, q)
    ensures CellOf(r, p, i, k) == Some(0xFFFF)
  {
    CellIsResolved(w, main, tops, r, p, i, k);
    StandsForNothing(w, main, r.build, p, i, r.build.nodes[r.build.known[p].instance].fis + i);
  }

  /** After the pass the cell of import k of DLL i of file p is right for the file that this
      DLL locates, and is 0xFFFF when it locates none. */
  lemma CellsFollowFiles(w: World, paths: seq<Path>, r: MainType, j: nat, p: Path, i: nat, k: nat)
    requires GoodWorld(w) && Finished(w, paths, r) && FinderOf(w, paths, j, p)
    requires p in w.load && i < |w.load[p].dlls| && k < |w.load[p].imports[i]|
    ensures var cell := CellOf(r, p, i, k);
            && cell.Some?
            && (forall q :: LocatedAs(w, paths[j], p, i, q) ==>
                  q in w.load && GoodModule(w.load[q])
                  && RightCell(w.load[q].exports, w.load[p].imports[i][k], cell.value))
            && ((forall q :: !LocatedAs(w, paths[j], p, i, q)) ==> cell.value == 0xFFFF)
  {
    FinishedInTree(w, paths, r, j, p);
    if q :| LocatedAs(w, paths[j], p, i, q) {
      LocatedIsKnown(w, paths[j], |paths|, r, p, i, q);
      var l := KnownInTree(w, paths, r, q);
      LocatedCell(w, paths[j], paths[l], |paths|, r, p, i, k, q);
      ResolveIsRight(w.load[q].exports, w.load[q].enpt, w.load[p].imports[i][k]);
    } else {
      MissingCell(w, paths[j], |paths|, r, p, i, k);
    }
  }

  // ---- The marks ----

  /** Import k of DLL i of file p, found by root j, is matched with export e of file q. */
  ghost predicate Takes(w: World, paths: seq<Path>, r: MainType, j: nat, p: Path, i: nat, k: nat, q: Path, e: uint16)
    requires GoodWorld(w)
  {
    FinderOf(w, paths, j, p) && LocatedAs(w, paths[j], p, i, q) && CellOf(r, p, i, k) == Some(e)
  }

  ghost predicate IsMarked(r: MainType, q: Path, e: uint16) {
    && q in r.build.known && r.build.known[q].instance < |r.matches.used|
    && e < |r.matches.used[r.build.known[q].instance]| && r.matches.used[r.build.known[q].instance][e]
  }

  lemma CellInRow(w: World, main: Path, tops: nat, r: MainType, p: Path, i: nat, k: nat)
    requires InTree(w, main, tops, r, p) && i < |w.load[p].dlls| && CellOf(r, p, i, k).Some?
    ensures BlockOk(r.build.nodes, r.build.known[p].instance) && k < |w.load[p].imports[i]|
  {
    var f := r.build.known[p].instance;
    assert BlockOk(r.build.nodes, f) && SizesOk(r.build.nodes[f].mod);
    ChildHasRow(r.build, r.matches, f, i);
  }

  /** An import that takes an export resolves to it in the tree. */
  lemma TakenIsResolved(w: World, main: Path, other: Path, tops: nat, r: MainType, p: Path, i: nat, k: nat, q: Path,
                        e: uint16)
    requires InTree(w, main, tops, r, p) && InTree(w, other, tops, r, q) && LocatedAs(w, main, p, i, q)
    requires CellOf(r, p, i, k) == Some(e)
    ensures ResolvesTo(r.build, r.build.known[p].instance, i, k, r.build.known[q].instance, e)
  {
    var f := r.build.known[p].instance;
    CellInRow(w, main, tops, r, p, i, k);
    LocatedCell(w, main, other, tops, r, p, i, k, q);
    assert ChildOk(w, main, tops, r.build, p, i);
    StandsForOriginal(w, main, r.build, p, i, r.build.nodes[f].fis + i, q);
    assert ProperOk(r.build, r.build.nodes[f].fis + i);
  }

  /** The expanded nodes are the first instances of the known files. */
  lemma ExpandedIsKnown(b: Build, f: nat) returns (p: Path)
    requires Inv(b) && b.queue == [] && 1 <= f < |b.nodes| && b.nodes[f].mod.dlls != []
    ensures p in b.known && b.known[p].instance == f
  {
    assert NodeOk(b, f);
    p := b.nodes[f].path.value;
  }

  /** An import of the tree that resolves to an export of q is one that takes it. */
  lemma ResolvedIsTaken(w: World, main: Path, other: Path, tops: nat, r: MainType, p: Path, i: nat, k: nat, q: Path,
                        e: uint16)
    requires InTree(w, main, tops, r, p) && InTree(w, other, tops, r, q)
    requires ResolvesTo(r.build, r.build.known[p].instance, i, k, r.build.known[q].instance, e)
    ensures LocatedAs(w, main, p, i, q) && CellOf(r, p, i, k) == Some(e)
  {
    var b := r.build;
    var c := b.nodes[b.known[p].instance].fis + i;
    assert ChildOk(w, main, tops, b, p, i);
    CellIsResolved(w, main, tops, r, p, i, k);
    if x :| LocatedAs(w, main, p, i, x) {
      StandsForKnown(w, main, b, p, i, c, x, q);
    } else {
      StandsForNothing(w, main, b, p, i, c);
      assert false;
    }
  }

  lemma StandsForKnown(w: World, main: Path, b: Build, p: Path, i: nat, c: nat, x: Path, q: Path)
    requires StandsFor(w, main, b, p, i, c) && LocatedAs(w, main, p, i, x) && Inv(b)
    requires q in b.known && c < |b.nodes| && Proper(b.nodes, c) == Some(b.known[q].instance)
    ensures x == q
  {
    assert KnownOk(b, x) && KnownOk(b, q);
    StandsForOriginal(w, main, b, p, i, c, x);
  }

  /** A marked export is taken. */
  lemma MarkedIsTaken(w: World, paths: seq<Path>, r: MainType, l: nat, q: Path, e: uint16)
    requires GoodWorld(w) && Finished(w, paths, r) && FinderOf(w, paths, l, q)
    requires InTree(w, paths[l], |paths|, r, q) && e < |w.load[q].exports.ordinals| && IsMarked(r, q, e)
    ensures exists j, p, i, k :: Takes(w, paths, r, j, p, i, k, q, e)
  {
    var b := r.build;
    var o := b.known[q].instance;
    UsedBitsExactly(b, r.matches, o, e);
    var f: nat, i: nat, k: nat :| ResolvesTo(b, f, i, k, o, e);
    var p := ExpandedIsKnown(b, f);
    var j := KnownInTree(w, paths, r, p);
    ResolvedIsTaken(w, paths[j], paths[l], |paths|, r, p, i, k, q, e);
    assert Takes(w, paths, r, j, p, i, k, q, e);
  }

  /** A taken export is marked. */
  lemma TakenIsMarked(w: World, paths: seq<Path>, r: MainType, j: nat, p: Path, i: nat, k: nat, l: nat, q: Path,
                      e: uint16)
    requires GoodWorld(w) && Finished(w, paths, r) && FinderOf(w, paths, l, q)
    requires InTree(w, paths[l], |paths|, r, q) && e < |w.load[q].exports.ordinals|
    requires Takes(w, paths, r, j, p, i, k, q, e)
    ensures IsMarked(r, q, e)
  {
    FinishedInTree(w, paths, r, j, p);
    TakenIsResolved(w, paths[j], paths[l], |paths|, r, p, i, k, q, e);
    UsedBitsExactly(r.build, r.matches, r.build.known[q].instance, e);
  }

  /** After the pass export e of file q is marked as used if and only if some import of some
      file that locates q holds e. */
  lemma MarksFollowFiles(w: World, paths: seq<Path>, r: MainType, l: nat, q: Path, e: uint16)
    requires GoodWorld(w) && Finished(w, paths, r) && FinderOf(w, paths, l, q)
    requires q in w.load && e < |w.load[q].exports.ordinals|
    ensures IsMarked(r, q, e) <==> exists j, p, i, k :: Takes(w, paths, r, j, p, i, k, q, e)
  {
    FinishedInTree(w, paths, r, l, q);
    if IsMarked(r, q, e) {
      MarkedIsTaken(w, paths, r, l, q, e);
    }
    if j, p, i, k :| Takes(w, paths, r, j, p, i, k, q, e) {
      TakenIsMarked(w, paths, r, j, p, i, k, l, q, e);
    }
  }

  // ---- The reverse index of every instance ----

  /** back names, for every export of q, the last import of DLL i of p that is matched with
      it, and 0xFFFF if none is. */
  ghost predicate ReverseOf(w: World, r: MainType, p: Path, i: nat, q: Path, back: seq<uint16>) {
    && q in w.load && |back| == |w.load[q].exports.ordinals|
    && forall e :: 0 <= e < |back| ==> IsLastTaker(r, p, i, e, back[e])
  }

  ghost predicate IsLastTaker(r: MainType, p: Path, i: nat, e: int, k: uint16) {
    if k == 0xFFFF then forall l: nat :: CellOf(r, p, i, l).Some? ==> CellOf(r, p, i, l).value != e
    else (CellOf(r, p, i, k).Some? && CellOf(r, p, i, k).value == e
          && forall l: nat :: l > k && CellOf(r, p, i, l).Some? ==> CellOf(r, p, i, l).value != e)
  }

  /** Every child of an expanded file, the first instance or a duplicate, has the reverse
      index of its own row, and a missing one has none. */
  lemma InstancesFollowFiles(w: World, paths: seq<Path>, r: MainType, j: nat, p: Path, i: nat)
    requires GoodWorld(w) && Finished(w, paths, r) && FinderOf(w, paths, j, p) && p in w.load && i < |w.load[p].dlls|
    ensures p in r.build.known && r.build.known[p].instance < |r.build.nodes|
    ensures var c := r.build.nodes[r.build.known[p].instance].fis + i;
            && c < |r.matches.back|
            && (forall q :: LocatedAs(w, paths[j], p, i, q) ==>
                  r.matches.back[c].Some? && ReverseOf(w, r, p, i, q, r.matches.back[c].value))
            && ((forall q :: !LocatedAs(w, paths[j], p, i, q)) ==> r.matches.back[c].None?)
  {
    FinishedInTree(w, paths, r, j, p);
    if q :| LocatedAs(w, paths[j], p, i, q) {
      LocatedIsKnown(w, paths[j], |paths|, r, p, i, q);
      var l := KnownInTree(w, paths, r, q);
      LocatedReverse(w, paths[j], paths[l], |paths|, r, p, i, q);
    } else {
      MissingReverse(w, paths[j], |paths|, r, p, i);
    }
  }

  lemma LocatedReverse(w: World, main: Path, other: Path, tops: nat, r: MainType, p: Path, i: nat, q: Path)
    requires InTree(w, main, tops, r, p) && InTree(w, other, tops, r, q) && LocatedAs(w, main, p, i, q)
    ensures var c := r.build.nodes[r.build.known[p].instance].fis + i;
            c < |r.matches.back| && r.matches.back[c].Some? && ReverseOf(w, r, p, i, q, r.matches.back[c].value)
  {
    var b, m := r.build, r.matches;
    var f := b.known[p].instance;
    var c := b.nodes[f].fis + i;
    assert ChildOk(w, main, tops, b, p, i);
    StandsForOriginal(w, main, b, p, i, c, q);
    BackOfChild(b, m, f, i);
    forall e | 0 <= e < |m.back[c].value| ensures IsLastTaker(r, p, i, e, m.back[c].value[e]) {
      assert LastMatch(m.matched[f][i], |m.matched[f][i]|, e, m.back[c].value[e]);
    }
  }

  lemma MissingReverse(w: World, main: Path, tops: nat, r: MainType, p: Path, i: nat)
    requires InTree(w, main, tops, r, p) && i < |w.load[p].dlls| && forall q :: !LocatedAs(w, main, p, i, q)
    ensures var c := r.build.nodes[r.build.known[p].instance].fis + i;
            c < |r.matches.back| && r.matches.back[c].None?
  {
    var f := r.build.known[p].instance;
    assert ChildOk(w, main, tops, r.build, p, i);
    StandsForNothing(w, main, r.build, p, i, r.build.nodes[f].fis + i);
    BackOfChild(r.build, r.matches, f, i);
  }

  /** The reverse index of the child for DLL i of an expanded node. */
  lemma BackOfChild(b: Build, m: Matches, f: nat, i: nat)
    requires TreeOk(b) && AllPaired(b, m) && 1 <= f < |b.nodes| && i < |b.nodes[f].mod.dlls|
    ensures f < |m.matched| && i < |m.matched[f]|
    ensures var c := b.nodes[f].fis + i;
            && c < |m.back| && c < |b.nodes|
            && match Proper(b.nodes, c)
               case None => m.back[c].None?
               case Some(o) =>
                 m.back[c].Some? && o < |b.nodes|
                 && IsReverse(m.matched[f][i], m.back[c].value)
                 && |m.back[c].value| == |b.nodes[o].mod.exports.ordinals|
  {
    var done := ChildrenOf(b.nodes, TO.Order(b.nodes));
    var c := b.nodes[f].fis + i;
    ChildHasRow(b, m, f, i);
    TO.WalkVisitsEachOnce(b.nodes);
    assert c in done && BackOk(b, done, m, c) && ProperOk(b, c);
  }

  // ---- The list of modules ----

  /** DLL i of file p, found by root j, locates nothing. */
  ghost predicate MissingImport(w: World, paths: seq<Path>, j: nat, p: Path, i: nat)
    requires GoodWorld(w)
  {
    FinderOf(w, paths, j, p) && p in w.load && i < |w.load[p].dlls| && forall q :: !LocatedAs(w, paths[j], p, i, q)
  }

  /** Its parent imports node c under this name. */
  ghost predicate GoesBy(nodes: seq<Node>, c: nat, name: Str) {
    && c < |nodes| && nodes[c].parent.Some? && nodes[c].parent.value < |nodes|
    && var f := nodes[nodes[c].parent.value];
       f.fis <= c < f.fis + |f.mod.dlls| && f.mod.dlls[c - f.fis] == name
  }

  /** Entry x of the list is a missing module of this name. */
  ghost predicate ListsName(r: MainType, x: nat, name: Str) {
    x < |r.list| && r.list[x] < |r.build.nodes| && r.build.nodes[r.list[x]].path.None?
    && GoesBy(r.build.nodes, r.list[x], name)
  }

  lemma GoesByDllName(b: Build, c: nat, name: Str)
    requires Inv(b) && 1 <= c < |b.nodes| && b.nodes[c].parent.Some?
    ensures GoesBy(b.nodes, c, name) <==> DllName(b.nodes, c) == name
  {
    assert ParentOk(b.nodes, c);
  }

  /** What the list needs of the finished tree. */
  ghost predicate Listed(r: MainType, tops: nat) {
    && Inv(r.build) && ListOk(r.build, r.list)
    && forall c :: 1 <= c < |r.build.nodes| && IsMissing(r.build.nodes, c) ==> HasOriginalParent(r.build, c)
  }

  ghost predicate HasOriginalParent(b: Build, c: nat) {
    c < |b.nodes| && b.nodes[c].parent.Some? && IsOriginal(b, b.nodes[c].parent.value)
  }

  lemma FinishedIsListed(w: World, paths: seq<Path>, r: MainType)
    requires GoodWorld(w) && Finished(w, paths, r)
    ensures Listed(r, |paths|) && Nodes(r.build.nodes, r.list)
  {
    AfterRootsBetween(w, paths, |paths|);
    forall c | 1 <= c < |r.build.nodes| && IsMissing(r.build.nodes, c) ensures HasOriginalParent(r.build, c) {
      MissingHasParent(r.build, paths, c);
    }
  }

  /** The child for a DLL that locates nothing is a missing node with the DLL's name. */
  lemma MissingChild(w: World, main: Path, tops: nat, r: MainType, p: Path, i: nat)
    requires InTree(w, main, tops, r, p) && i < |w.load[p].dlls| && forall q :: !LocatedAs(w, main, p, i, q)
    ensures var c := r.build.nodes[r.build.known[p].instance].fis + i;
            && 1 <= c < |r.build.nodes| && IsMissing(r.build.nodes, c)
            && DllName(r.build.nodes, c) == w.load[p].dlls[i]
  {
    assert ChildOk(w, main, tops, r.build, p, i);
    DllNameIsImport(r.build.nodes, r.build.known[p].instance, i);
  }

  /** The name of a missing node is on the list, up to case. */
  lemma NodeIsListed(r: MainType, tops: nat, c: nat) returns (x: nat)
    requires Listed(r, tops) && 1 <= c < |r.build.nodes| && IsMissing(r.build.nodes, c)
    ensures x < |r.list| && 1 <= r.list[x] < |r.build.nodes| && r.build.nodes[r.list[x]].path.None?
    ensures SameName(r.build.nodes, r.list[x], c)
  {
    x :| 0 <= x < |r.list| && IsMissing(r.build.nodes, r.list[x]) && SameName(r.build.nodes, r.list[x], c);
  }

  /** The name of a missing entry. */
  lemma EntryName(r: MainType, tops: nat, x: nat, name: Str)
    requires Listed(r, tops) && x < |r.list| && 1 <= r.list[x] < |r.build.nodes| && r.build.nodes[r.list[x]].path.None?
    ensures IsMissing(r.build.nodes, r.list[x])
    ensures ListsName(r, x, name) <==> name == DllName(r.build.nodes, r.list[x])
  {
    assert HasOriginalParent(r.build, r.list[x]);
    GoesByDllName(r.build, r.list[x], name);
  }

  /** Every name that locates nothing is on the list, up to case. */
  lemma MissingIsListed(w: World, paths: seq<Path>, r: MainType, j: nat, p: Path, i: nat)
    requires GoodWorld(w) && Finished(w, paths, r) && MissingImport(w, paths, j, p, i)
    ensures exists x, name :: ListsName(r, x, name) && SameButCase(name, w.load[p].dlls[i])
  {
    FinishedInTree(w, paths, r, j, p);
    MissingChild(w, paths[j], |paths|, r, p, i);
    FinishedIsListed(w, paths, r);
    var x, name := NameIsListed(r, |paths|, r.build.nodes[r.build.known[p].instance].fis + i, w.load[p].dlls[i]);
  }

  lemma NameIsListed(r: MainType, tops: nat, c: nat, d: Str) returns (x: nat, name: Str)
    requires Listed(r, tops) && 1 <= c < |r.build.nodes| && IsMissing(r.build.nodes, c)
    requires DllName(r.build.nodes, c) == d
    ensures ListsName(r, x, name) && SameButCase(name, d)
  {
    x := NodeIsListed(r, tops, c);
    name := DllName(r.build.nodes, r.list[x]);
    SameNameExactly(r.build.nodes, r.list[x], c);
    EntryName(r, tops, x, name);
  }

  /** Every file is on the list by its first instance, no entry is there twice, and no two
      missing modules have the same name up to case. */
  lemma ListedOnce(w: World, paths: seq<Path>, r: MainType)
    requires GoodWorld(w) && Finished(w, paths, r)
    ensures Distinct(r.list)
    ensures forall p :: p in r.build.known ==> r.build.known[p].instance in r.list
    ensures forall x, y, a, b :: x < y && ListsName(r, x, a) && ListsName(r, y, b) ==> !SameButCase(a, b)
  {
    FinishedIsListed(w, paths, r);
    forall p | p in r.build.known ensures r.build.known[p].instance in r.list {
      assert KnownOk(r.build, p);
    }
    forall x, y, a, b | x < y && ListsName(r, x, a) && ListsName(r, y, b) ensures !SameButCase(a, b) {
      EntryName(r, |paths|, x, a);
      EntryName(r, |paths|, y, b);
      NamesDiffer(r, |paths|, x, y);
      CiEqualExactly(a, b);
    }
  }

  lemma NamesDiffer(r: MainType, tops: nat, x: nat, y: nat)
    requires Listed(r, tops) && x < y < |r.list|
    requires IsMissing(r.build.nodes, r.list[x]) && IsMissing(r.build.nodes, r.list[y])
    ensures !SameName(r.build.nodes, r.list[x], r.list[y])
  {
  }

  lemma LocatedIsNotMissing(w: World, main: Path, b: Build, p: Path, i: nat, c: nat, q: Path)
    requires Inv(b) && StandsFor(w, main, b, p, i, c) && LocatedAs(w, main, p, i, q)
    ensures c < |b.nodes| && !IsMissing(b.nodes, c)
  {
    assert KnownOk(b, q);
  }

  lemma ChildIsNotLocated(w: World, main: Path, tops: nat, r: MainType, p: Path, i: nat)
    requires InTree(w, main, tops, r, p) && i < |w.load[p].dlls|
    requires var c := r.build.nodes[r.build.known[p].instance].fis + i;
             c < |r.build.nodes| && IsMissing(r.build.nodes, c)
    ensures forall q :: !LocatedAs(w, main, p, i, q)
  {
    assert ChildOk(w, main, tops, r.build, p, i);
    if q :| LocatedAs(w, main, p, i, q) {
      LocatedIsNotMissing(w, main, r.build, p, i, r.build.nodes[r.build.known[p].instance].fis + i, q);
    }
  }

  /** Where a missing node sits: under the first instance of a file. */
  lemma MissingNode(b: Build, c: nat) returns (p: Path, i: nat)
    requires Inv(b) && 1 <= c < |b.nodes| && HasOriginalParent(b, c)
    ensures p in b.known && KnownOk(b, p) && i < |b.nodes[b.known[p].instance].mod.dlls|
    ensures c == b.nodes[b.known[p].instance].fis + i
    ensures GoesBy(b.nodes, c, b.nodes[b.known[p].instance].mod.dlls[i])
  {
    assert ParentOk(b.nodes, c);
    var f := b.nodes[c].parent.value;
    p := b.nodes[f].path.value;
    i := c - b.nodes[f].fis;
  }

  /** Entry x of the list goes by the name of an import that locates nothing. */
  ghost predicate NamesMissing(w: World, paths: seq<Path>, r: MainType, x: nat, j: nat, p: Path, i: nat)
    requires GoodWorld(w)
  {
    MissingImport(w, paths, j, p, i) && ListsName(r, x, w.load[p].dlls[i])
  }

  lemma MissingEntry(w: World, main: Path, tops: nat, r: MainType, x: nat, p: Path, i: nat)
    requires InTree(w, main, tops, r, p) && x < |r.list| && r.list[x] < |r.build.nodes|
    requires i < |w.load[p].dlls| && r.list[x] == r.build.nodes[r.build.known[p].instance].fis + i
    requires IsMissing(r.build.nodes, r.list[x]) && GoesBy(r.build.nodes, r.list[x], w.load[p].dlls[i])
    ensures (forall q :: !LocatedAs(w, main, p, i, q)) && ListsName(r, x, w.load[p].dlls[i])
  {
    ChildIsNotLocated(w, main, tops, r, p, i);
  }

  /** Every entry of the list is the first instance of a file, or goes by the name of an
      import that locates nothing. */
  lemma ListedIsFileOrMissing(w: World, paths: seq<Path>, r: MainType, x: nat)
    requires GoodWorld(w) && Finished(w, paths, r) && x < |r.list|
    ensures || (exists p :: p in r.build.known && r.build.known[p].instance == r.list[x])
            || (exists j: nat, p: Path, i: nat :: NamesMissing(w, paths, r, x, j, p, i))
  {
    FinishedIsListed(w, paths, r);
    if IsMissing(r.build.nodes, r.list[x]) {
      EntryIsImport(w, paths, r, x);
    } else {
      assert IsOriginal(r.build, r.list[x]);
    }
  }

  lemma EntryIsImport(w: World, paths: seq<Path>, r: MainType, x: nat)
    requires GoodWorld(w) && Finished(w, paths, r) && Listed(r, |paths|) && x < |r.list|
    requires IsMissing(r.build.nodes, r.list[x])
    ensures exists j: nat, p: Path, i: nat :: NamesMissing(w, paths, r, x, j, p, i)
  {
    assert HasOriginalParent(r.build, r.list[x]);
    var p, i := MissingNode(r.build, r.list[x]);
    var j := KnownInTree(w, paths, r, p);
    MissingEntry(w, paths[j], |paths|, r, x, p, i);
    assert NamesMissing(w, paths, r, x, j, p, i);
  }
}
