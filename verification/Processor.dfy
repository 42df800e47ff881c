/** Building, matching and threading the whole tree for a list of files. */
module Processor {
  import opened Words
  import opened Text
  import opened ExportTable
  import DT = DependencyTree
  import opened DependencyTree
  import opened Discovery
  import opened TreeOrder
  import opened InstanceRing
  import opened PairAll
  import opened ModulesList
  import opened Sorting

  // ---- The runs of all roots ----

  function TopNode(n: nat): Node {
    Node(None, Some([]), None, 1, Module(seq(n, _ => []), seq(n, _ => []), NO_EXPORTS, []))
  }

  /** The top node and its blank children, one for each file. */
  function Initial(paths: seq<Path>): Build {
    Build([TopNode(|paths|)] + seq(|paths|, _ => ZERO_NODE), [], map[])
  }

  function WithRoot(b: Build, k: nat, p: Path): Build
    requires k + 1 < |b.nodes|
  {
    b.(nodes := b.nodes[k + 1 := b.nodes[k + 1].(path := Some(p))], queue := [k + 1])
  }

  /** Between two runs, after k roots. */
  ghost predicate BetweenRuns(b: Build, paths: seq<Path>, k: nat) {
    && Inv(b) && b.queue == [] && |paths| < |b.nodes| && k <= |paths|
    && b.nodes[0] == TopNode(|paths|)
    && (forall j :: k < j <= |paths| ==> b.nodes[j] == ZERO_NODE)
    && (forall j :: 1 <= j <= k ==> b.nodes[j].path.Some? || b.nodes[j].orig.Some?)
    && (forall j :: |paths| < j < |b.nodes| ==> b.nodes[j].parent.Some?)
    && (forall p {:trigger KnownGood(b, p)} :: p in b.known ==> KnownGood(b, p))
  }

  lemma InitialIsBetweenRuns(paths: seq<Path>)
    ensures BetweenRuns(Initial(paths), paths, 0)
  {
    var b := Initial(paths);
    forall i | 0 <= i < |b.nodes| ensures BlockOk(b.nodes, i) {
    }
    forall j | 1 <= j < |b.nodes| ensures ParentOk(b.nodes, j) {
      assert b.nodes[j] == ZERO_NODE;
    }
  }

  ghost function RootRun(w: World, paths: seq<Path>, k: nat, b: Build): Start
    requires k < |paths| && k + 1 < |b.nodes|
  {
    Start(w, paths[k], WithRoot(b, k, paths[k]), k + 1)
  }

  lemma RootStarts(w: World, paths: seq<Path>, k: nat, b: Build)
    requires BetweenRuns(b, paths, k) && k < |paths|
    ensures StartOk(RootRun(w, paths, k, b))
    ensures RootPath(RootRun(w, paths, k, b)) == paths[k]
  {
    var c := WithRoot(b, k, paths[k]);
    assert forall j :: 0 <= j < |b.nodes| ==> Up(c.nodes, j) == Up(b.nodes, j);
    forall i | 0 <= i < |c.nodes| ensures BlockOk(c.nodes, i) {
      assert BlockOk(b.nodes, i);
    }
    forall j | 1 <= j < |c.nodes| ensures ParentOk(c.nodes, j) {
      assert ParentOk(b.nodes, j);
    }
    forall i | 1 <= i < |c.nodes| ensures NodeOk(c, i) {
      assert NodeOk(b, i);
    }
    forall p | p in c.known ensures KnownOk(c, p) {
      assert KnownOk(b, p);
    }
  }

  ghost predicate KnownGood(b: Build, p: Path)
    requires p in b.known
  {
    b.known[p].instance < |b.nodes| && GoodModule(b.nodes[b.known[p].instance].mod)
  }

  /** The state that the run of root k ends in. */
  ghost predicate RunsTo(w: World, paths: seq<Path>, k: nat, b: Build, e: Build) {
    && GoodWorld(w) && BetweenRuns(b, paths, k) && k < |paths|
    && StartOk(RootRun(w, paths, k, b))
    && Run(w, paths[k], WithRoot(b, k, paths[k])) == Some(e)
  }

  lemma RunKeepsGood(w: World, paths: seq<Path>, k: nat, b: Build, e: Build, p: Path)
    requires RunsTo(w, paths, k, b, e) && p in e.known
    ensures KnownGood(e, p)
  {
    var s := RootRun(w, paths, k, b);
    RunMirrorsImports(s);
    assert KnownOk(e, p);
    if New(s, e, p) {
      assert Unrolled(s, e, p);
    } else {
      assert KnownGood(b, p) && KnownOk(b, p) && KnownOk(s.b, p);
    }
  }

  /** A run ends with an empty queue, settles its root and leaves all other nodes. */
  lemma RunKeepsNodes(w: World, paths: seq<Path>, k: nat, b: Build, e: Build)
    requires RunsTo(w, paths, k, b, e)
    ensures Inv(e) && e.queue == [] && |b.nodes| <= |e.nodes|
    ensures forall j :: 0 <= j < |b.nodes| && j != k + 1 ==> e.nodes[j] == b.nodes[j]
    ensures e.nodes[k + 1].path.Some? || e.nodes[k + 1].orig.Some?
  {
    var s := RootRun(w, paths, k, b);
    RunMirrorsImports(s);
    forall j | 0 <= j < |b.nodes| && j != k + 1 ensures e.nodes[j] == b.nodes[j] {
      assert e.nodes[j] == s.b.nodes[j];
    }
  }

  lemma RunKeepsParents(w: World, paths: seq<Path>, k: nat, b: Build, e: Build, j: nat)
    requires RunsTo(w, paths, k, b, e) && |paths| < j < |e.nodes|
    ensures e.nodes[j].parent.Some?
  {
    RunKeepsNodes(w, paths, k, b, e);
    if |b.nodes| <= j {
      NewNodesHaveParents(RootRun(w, paths, k, b), j);
    }
  }

  /** A run leads from one state between runs to the next. */
  lemma RunLeadsOn(w: World, paths: seq<Path>, k: nat, b: Build, e: Build)
    requires RunsTo(w, paths, k, b, e)
    ensures BetweenRuns(e, paths, k + 1)
  {
    RunKeepsNodes(w, paths, k, b, e);
    forall p | p in e.known ensures KnownGood(e, p) {
      RunKeepsGood(w, paths, k, b, e, p);
    }
    forall j | |paths| < j < |e.nodes| ensures e.nodes[j].parent.Some? {
      RunKeepsParents(w, paths, k, b, e, j);
    }
  }

  /** Every node a run adds is a child of an expanded node. */
  lemma NewNodesHaveParents(s: Start, j: nat)
    requires StartOk(s) && Run(s.w, s.main, s.b).Some?
    requires |s.b.nodes| <= j < |Run(s.w, s.main, s.b).value.nodes|
    ensures Run(s.w, s.main, s.b).value.nodes[j].parent.Some?
  {
    AddedHaveParents(s.w, s.main, s.b, |s.b.nodes|);
  }

  lemma {:induction false} AddedHaveParents(w: World, main: Path, b: Build, n: nat)
    requires Inv(b) && n <= |b.nodes| && forall j :: n <= j < |b.nodes| ==> b.nodes[j].parent.Some?
    ensures Run(w, main, b).Some? ==>
              forall j :: n <= j < |Run(w, main, b).value.nodes| ==> Run(w, main, b).value.nodes[j].parent.Some?
    decreases Pending(w, b), |b.queue|
  {
    if b.queue == [] {
    } else {
      StepKeepsInv(w, main, b);
      var p := b.nodes[b.queue[0]].path.value;
      if p in b.known {
        DuplicateShrinksQueue(w, b);
        AddedHaveParents(w, main, AsDuplicate(b), n);
      } else if p in w.load {
        OriginalShrinksPending(w, main, b);
        AddedHaveParents(w, main, AsOriginal(w, main, b), n);
      }
    }
  }

  /** Root k can be run from b; between two runs it always can. */
  ghost predicate Runnable(b: Build, paths: seq<Path>, k: nat)
    requires k < |paths|
  {
    k + 1 < |b.nodes| && Inv(WithRoot(b, k, paths[k]))
  }

  /** The tree after the first k roots; None when one of their runs failed. */
  ghost function AfterRoots(w: World, paths: seq<Path>, k: nat): Option<Build>
    requires GoodWorld(w) && k <= |paths|
    decreases k
  {
    if k == 0 then Some(Initial(paths))
    else
      var b := AfterRoots(w, paths, k - 1);
      if b.Some? && Runnable(b.value, paths, k - 1)
      then Run(w, paths[k - 1], WithRoot(b.value, k - 1, paths[k - 1])) else None
  }

  lemma RunnableBetweenRuns(w: World, paths: seq<Path>, k: nat, b: Build)
    requires BetweenRuns(b, paths, k) && k < |paths|
    ensures Runnable(b, paths, k)
  {
    RootStarts(w, paths, k, b);
  }

  lemma OneMoreRun(w: World, paths: seq<Path>, k: nat, b: Build)
    requires GoodWorld(w) && k < |paths| && BetweenRuns(b, paths, k) && Runnable(b, paths, k)
    ensures var r := Run(w, paths[k], WithRoot(b, k, paths[k])); r.Some? ==> BetweenRuns(r.value, paths, k + 1)
  {
    RootStarts(w, paths, k, b);
    var r := Run(w, paths[k], WithRoot(b, k, paths[k]));
    if r.Some? {
      RunLeadsOn(w, paths, k, b, r.value);
    }
  }

  /** Every state between runs is one. */
  lemma {:induction false} AfterRootsBetween(w: World, paths: seq<Path>, k: nat)
    requires GoodWorld(w) && k <= |paths|
    ensures AfterRoots(w, paths, k).Some? ==> BetweenRuns(AfterRoots(w, paths, k).value, paths, k)
    decreases k
  {
    if k == 0 {
      InitialIsBetweenRuns(paths);
    } else {
      AfterRootsBetween(w, paths, k - 1);
      var b := AfterRoots(w, paths, k - 1);
      if b.Some? && Runnable(b.value, paths, k - 1) {
        OneMoreRun(w, paths, k - 1, b.value);
      }
    }
  }

  lemma AfterOneMore(w: World, paths: seq<Path>, k: nat, b: Build)
    requires GoodWorld(w) && k < |paths| && AfterRoots(w, paths, k) == Some(b)
    ensures BetweenRuns(b, paths, k) && Runnable(b, paths, k)
    ensures AfterRoots(w, paths, k + 1) == Run(w, paths[k], WithRoot(b, k, paths[k]))
  {
    AfterRootsBetween(w, paths, k);
    RunnableBetweenRuns(w, paths, k, b);
  }

  /** File p is on an import chain of root j that passes through files unknown before it. */
  ghost predicate FoundBy(w: World, paths: seq<Path>, j: nat, p: Path)
    requires GoodWorld(w) && j < |paths|
  {
    && AfterRoots(w, paths, j).Some?
    && Reachable(w, paths[j], AfterRoots(w, paths, j).value.known.Keys, paths[j], p)
  }

  ghost predicate BlockedBy(w: World, paths: seq<Path>, j: nat, p: Path)
    requires GoodWorld(w) && j < |paths|
  {
    FoundBy(w, paths, j, p) && p !in AfterRoots(w, paths, j).value.known && p !in w.load
  }

  lemma BlockedMeansFails(w: World, paths: seq<Path>, k: nat, p: Path)
    requires GoodWorld(w) && k < |paths| && AfterRoots(w, paths, k).Some?
    requires k + 1 < |AfterRoots(w, paths, k).value.nodes|
    requires StartOk(RootRun(w, paths, k, AfterRoots(w, paths, k).value))
    requires RootPath(RootRun(w, paths, k, AfterRoots(w, paths, k).value)) == paths[k]
    ensures BlockedBy(w, paths, k, p) <==> FailsOn(RootRun(w, paths, k, AfterRoots(w, paths, k).value), p)
  {
    var before := AfterRoots(w, paths, k).value;
    var s := RootRun(w, paths, k, before);
    forall n ensures Reach(s, p, n) <==> ReachIn(w, paths[k], before.known.Keys, paths[k], p, n) {
    }
  }

  /** What the run of root k contributes. */
  lemma RootDiscovers(w: World, paths: seq<Path>, k: nat)
    requires GoodWorld(w) && k < |paths| && AfterRoots(w, paths, k).Some?
    ensures AfterRoots(w, paths, k + 1).None? <==> exists p :: BlockedBy(w, paths, k, p)
    ensures AfterRoots(w, paths, k + 1).Some? ==>
              forall p :: p in AfterRoots(w, paths, k + 1).value.known <==>
                            p in AfterRoots(w, paths, k).value.known || FoundBy(w, paths, k, p)
  {
    var before := AfterRoots(w, paths, k).value;
    AfterOneMore(w, paths, k, before);
    RootStarts(w, paths, k, before);
    var s := RootRun(w, paths, k, before);
    RunDiscoversExactly(s);
    forall p ensures BlockedBy(w, paths, k, p) <==> FailsOn(s, p) {
      BlockedMeansFails(w, paths, k, p);
    }
  }

  ghost predicate AnyFinds(w: World, paths: seq<Path>, k: nat, p: Path)
    requires GoodWorld(w) && k <= |paths|
  {
    exists j :: 0 <= j < k && FoundBy(w, paths, j, p)
  }

  ghost predicate AnyBlocked(w: World, paths: seq<Path>, k: nat)
    requires GoodWorld(w) && k <= |paths|
  {
    exists j, p :: 0 <= j < k && BlockedBy(w, paths, j, p)
  }

  lemma AnyStep(w: World, paths: seq<Path>, k: nat, p: Path)
    requires GoodWorld(w) && k < |paths|
    ensures AnyFinds(w, paths, k + 1, p) <==> AnyFinds(w, paths, k, p) || FoundBy(w, paths, k, p)
    ensures AnyBlocked(w, paths, k) ==> AnyBlocked(w, paths, k + 1)
    ensures BlockedBy(w, paths, k, p) ==> AnyBlocked(w, paths, k + 1)
  {
    if AnyFinds(w, paths, k, p) {
      var j :| 0 <= j < k && FoundBy(w, paths, j, p);
      assert 0 <= j < k + 1 && FoundBy(w, paths, j, p);
    }
    if FoundBy(w, paths, k, p) {
      assert 0 <= k < k + 1 && FoundBy(w, paths, k, p);
    }
    if AnyBlocked(w, paths, k) {
      var j, q :| 0 <= j < k && BlockedBy(w, paths, j, q);
      assert 0 <= j < k + 1 && BlockedBy(w, paths, j, q);
    }
  }

  ghost predicate KnowsExactly(w: World, paths: seq<Path>, k: nat, p: Path)
    requires GoodWorld(w) && k <= |paths|
  {
    AfterRoots(w, paths, k).Some? ==> (p in AfterRoots(w, paths, k).value.known <==> AnyFinds(w, paths, k, p))
  }

  lemma NothingKnownYet(w: World, paths: seq<Path>, p: Path)
    requires GoodWorld(w)
    ensures KnowsExactly(w, paths, 0, p)
  {
  }

  lemma KnowsOneMore(w: World, paths: seq<Path>, k: nat, p: Path)
    requires GoodWorld(w) && k < |paths| && KnowsExactly(w, paths, k, p)
    ensures KnowsExactly(w, paths, k + 1, p)
  {
    if AfterRoots(w, paths, k).Some? {
      RootDiscovers(w, paths, k);
      AnyStep(w, paths, k, p);
    }
  }

  lemma {:induction false} RootsKnowExactly(w: World, paths: seq<Path>, k: nat, p: Path)
    requires GoodWorld(w) && k <= |paths|
    ensures KnowsExactly(w, paths, k, p)
    decreases k
  {
    if k == 0 {
      NothingKnownYet(w, paths, p);
    } else {
      RootsKnowExactly(w, paths, k - 1, p);
      KnowsOneMore(w, paths, k - 1, p);
    }
  }

  lemma NoneBlocked(w: World, paths: seq<Path>, k: nat)
    requires GoodWorld(w) && k < |paths| && !AnyBlocked(w, paths, k) && forall p :: !BlockedBy(w, paths, k, p)
    ensures !AnyBlocked(w, paths, k + 1)
  {
  }

  /** Root k is the first to fail exactly when a file blocks it. */
  lemma RootFailsExactly(w: World, paths: seq<Path>, k: nat)
    requires GoodWorld(w) && k < |paths| && AfterRoots(w, paths, k).Some? && !AnyBlocked(w, paths, k)
    ensures AfterRoots(w, paths, k + 1).None? <==> AnyBlocked(w, paths, k + 1)
  {
    RootDiscovers(w, paths, k);
    if p :| BlockedBy(w, paths, k, p) {
      AnyStep(w, paths, k, p);
    } else {
      NoneBlocked(w, paths, k);
    }
  }

  ghost predicate FailsExactly(w: World, paths: seq<Path>, k: nat)
    requires GoodWorld(w) && k <= |paths|
  {
    AfterRoots(w, paths, k).None? <==> AnyBlocked(w, paths, k)
  }

  lemma NothingFailsYet(w: World, paths: seq<Path>)
    requires GoodWorld(w)
    ensures FailsExactly(w, paths, 0)
  {
  }

  lemma FailsOneMore(w: World, paths: seq<Path>, k: nat)
    requires GoodWorld(w) && k < |paths| && FailsExactly(w, paths, k)
    ensures FailsExactly(w, paths, k + 1)
  {
    if AfterRoots(w, paths, k).Some? {
      RootFailsExactly(w, paths, k);
    } else {
      FailureStays(w, paths, k);
    }
  }

  lemma {:induction false} RootsFailExactly(w: World, paths: seq<Path>, k: nat)
    requires GoodWorld(w) && k <= |paths|
    ensures FailsExactly(w, paths, k)
    decreases k
  {
    if k == 0 {
      NothingFailsYet(w, paths);
    } else {
      RootsFailExactly(w, paths, k - 1);
      FailsOneMore(w, paths, k - 1);
    }
  }

  lemma FailureStays(w: World, paths: seq<Path>, k: nat)
    requires GoodWorld(w) && k < |paths| && AfterRoots(w, paths, k).None? && AnyBlocked(w, paths, k)
    ensures AfterRoots(w, paths, k + 1).None? && AnyBlocked(w, paths, k + 1)
  {
    AnyStep(w, paths, k, []);
  }

  /** All roots together: processing fails exactly when some root reaches a new file
      that does not load, and otherwise knows exactly what its roots reach. */
  lemma RootsDiscoverExactly(w: World, paths: seq<Path>)
    requires GoodWorld(w)
    ensures AfterRoots(w, paths, |paths|).None? <==> exists j, p :: 0 <= j < |paths| && BlockedBy(w, paths, j, p)
    ensures AfterRoots(w, paths, |paths|).Some? ==>
              forall p :: p in AfterRoots(w, paths, |paths|).value.known <==>
                            exists j :: 0 <= j < |paths| && FoundBy(w, paths, j, p)
  {
    RootsFailExactly(w, paths, |paths|);
    if AfterRoots(w, paths, |paths|).Some? {
      forall p
        ensures p in AfterRoots(w, paths, |paths|).value.known <==>
                  exists j :: 0 <= j < |paths| && FoundBy(w, paths, j, p)
      {
        RootsKnowExactly(w, paths, |paths|, p);
      }
    }
  }

  // ---- The finished tree ----

  lemma FinishedTreeOk(b: Build, paths: seq<Path>)
    requires BetweenRuns(b, paths, |paths|)
    ensures TreeOk(b) && OrigsOk(b.nodes)
  {
    forall i | 0 <= i < |b.nodes| ensures SizesOk(b.nodes[i].mod) {
      if i > 0 {
        assert NodeOk(b, i);
        assert b.nodes[i].path.Some? ==> KnownGood(b, b.nodes[i].path.value);
      }
    }
    forall c | 1 <= c < |b.nodes| ensures ProperOk(b, c) {
      assert NodeOk(b, c);
      var o := Proper(b.nodes, c);
      if o.Some? {
        assert IsOriginal(b, o.value);
        assert KnownOk(b, b.nodes[o.value].path.value) && KnownGood(b, b.nodes[o.value].path.value);
      }
    }
    forall i | 0 <= i < |b.nodes| && b.nodes[i].orig.Some?
      ensures b.nodes[i].orig.value < |b.nodes| && b.nodes[b.nodes[i].orig.value].orig.None?
    {
      assert NodeOk(b, i);
    }
  }

  /** A missing node always has an expanded parent to take its name from. */
  lemma MissingHasParent(b: Build, paths: seq<Path>, c: nat)
    requires BetweenRuns(b, paths, |paths|) && 1 <= c < |b.nodes| && IsMissing(b.nodes, c)
    ensures b.nodes[c].parent.Some? && IsOriginal(b, b.nodes[c].parent.value)
  {
    assert NodeOk(b, c) && ParentOk(b.nodes, c);
    var u := b.nodes[c].parent.value;
    assert BlockOk(b.nodes, 0);
    if u != 0 {
      assert NodeOk(b, u);
    }
  }

  /** Everything process_impl hands out. */
  datatype MainType = MainType(build: Build, matches: Matches, links: Links, list: seq<nat>)

  ghost predicate Finished(w: World, paths: seq<Path>, r: MainType)
    requires GoodWorld(w)
  {
    && AfterRoots(w, paths, |paths|) == Some(r.build)
    && TreeOk(r.build) && OrigsOk(r.build.nodes)
    && AllPaired(r.build, r.matches)
    && RingsOk(r.build.nodes, Order(r.build.nodes), r.links)
    && Inv(r.build) && ListOk(r.build, r.list)
    && (WeakOrder(ListOrder(r.build.nodes), r.list) ==> Sorted(r.build.nodes, r.list))
  }

  // ---- The builder in place ----

  function BlankChild(fi: nat): Node {
    Node(Some(fi), None, None, 0, EMPTY_MODULE)
  }

  class TmpType {
    const w: World
    var nodes: seq<Node>
    var queue: seq<nat>
    var known: map<Path, Fat>
    var mainPath: Path

    constructor (w: World, paths: seq<Path>)
      ensures this.w == w && State() == Initial(paths)
    {
      this.w := w;
      nodes := [TopNode(|paths|)] + seq(|paths|, _ => ZERO_NODE);
      queue := [];
      known := map[];
      mainPath := [];
    }

    ghost function State(): Build
      reads this
    {
      Build(nodes, queue, known)
    }

    /** The file of root k becomes the path of its blank node and the only one waiting. */
    method StartRoot(k: nat, p: Path)
      requires k + 1 < |nodes| && queue == []
      modifies this
      ensures State() == WithRoot(old(State()), k, p) && mainPath == p
    {
      nodes := nodes[k + 1 := nodes[k + 1].(path := Some(p))];
      mainPath := p;
      queue := queue + [k + 1];
    }

    /** step_3: locate import i of fi and queue its node. */
    method Step3(fi: nat, i: nat)
      requires fi < |nodes| && i < |nodes[fi].mod.dlls| && nodes[fi].path.Some?
      requires nodes[fi].fis + i < |nodes|
      modifies this`nodes, this`queue
      ensures var l := Locate(w, mainPath, old(nodes)[fi].path.value, old(nodes)[fi].mod.dlls[i]);
              var c := old(nodes)[fi].fis + i;
              && nodes == (if l.Some? then old(nodes)[c := old(nodes)[c].(path := l)] else old(nodes))
              && queue == (if l.Some? then old(queue) + [c] else old(queue))
    {
      var located := Locate(w, mainPath, nodes[fi].path.value, nodes[fi].mod.dlls[i]);
      if located.Some? {
        var c := nodes[fi].fis + i;
        nodes := nodes[c := nodes[c].(path := located)];
        queue := queue + [c];
      }
    }

    /** step_2 on the node just taken from the queue. */
    method Step2(fi: nat) returns (ok: bool)
      requires fi < |nodes| && nodes[fi].path.Some? && nodes[fi].orig.None?
      modifies this`nodes, this`queue, this`known
      ensures var r := DT.Step2(w, mainPath, Build(old(nodes), [fi] + old(queue), old(known)));
              (ok <==> r.Some?) && (ok ==> State() == r.value)
    {
      ghost var b := Build(nodes, [fi] + queue, known);
      assert b.queue[1..] == queue;
      var p := nodes[fi].path.value;
      if p in known {
        nodes := nodes[fi := nodes[fi].(orig := Some(known[p].instance), path := None)];
        return true;
      }
      if p !in w.load {
        return false;
      }
      Expand(fi, p);
      return true;
    }

    /** The rest of step_2: node fi becomes the original of p. */
    method Expand(fi: nat, p: Path)
      requires fi < |nodes| && nodes[fi].path == Some(p) && p in w.load && p !in known
      modifies this`nodes, this`queue, this`known
      ensures State() == AsOriginal(w, mainPath, Build(old(nodes), [fi] + old(queue), old(known)))
    {
      var m := w.load[p];
      var n := |m.dlls|;
      var base := |nodes|;
      ghost var b := Build(nodes, [fi] + queue, known);
      nodes := nodes[fi := nodes[fi].(fis := base, mod := m)] + seq(n, _ => BlankChild(fi));
      known := known[p := Fat(fi, m.enpt)];
      LocateChildren(fi, p, base);
      assert b.queue[1..] == old(queue);
      assert nodes == AsOriginal(w, mainPath, b).nodes;
    }

    /** One turn of the loop of step_2: the next blank child. */
    method LocateChild(fi: nat, p: Path, base: nat, i: nat)
      requires fi < base <= |nodes| && nodes[fi].path == Some(p) && nodes[fi].fis == base
      requires i < |nodes[fi].mod.dlls|
      requires HalfLocated(w, mainPath, p, fi, base, nodes[fi].mod.dlls, i, nodes)
      modifies this`nodes, this`queue
      ensures HalfLocated(w, mainPath, p, fi, base, old(nodes)[fi].mod.dlls, i + 1, nodes)
      ensures nodes[..base] == old(nodes)[..base]
      ensures queue == old(queue) + if Locate(w, mainPath, p, old(nodes)[fi].mod.dlls[i]).Some? then [base + i] else []
    {
      HalfLocatedNext(w, mainPath, p, fi, base, nodes[fi].mod.dlls, i, nodes);
      Step3(fi, i);
    }

    /** The loop of step_2 over the new, blank children. */
    method LocateChildren(fi: nat, p: Path, base: nat)
      requires fi < base <= |nodes| && nodes[fi].path == Some(p) && nodes[fi].fis == base
      requires |nodes| == base + |nodes[fi].mod.dlls|
      requires forall j {:trigger nodes[j]} :: base <= j < |nodes| ==> nodes[j] == BlankChild(fi)
      modifies this`nodes, this`queue
      ensures |nodes| == |old(nodes)| && nodes[..base] == old(nodes)[..base]
      ensures forall j {:trigger nodes[j]} :: base <= j < |nodes| ==>
                nodes[j] == Child(w, mainPath, p, fi, old(nodes)[fi].mod.dlls[j - base])
      ensures queue == old(queue) + LocatedFrom(w, mainPath, p, old(nodes)[fi].mod.dlls, base)
    {
      ghost var front := nodes[..base];
      var dlls := nodes[fi].mod.dlls;
      var n := |dlls|;
      var i := 0;
      while i != n
        invariant 0 <= i <= n && |nodes| == base + n
        invariant nodes[..base] == front
        invariant HalfLocated(w, mainPath, p, fi, base, dlls, i, nodes)
        invariant queue == old(queue) + LocatedFrom(w, mainPath, p, dlls[..i], base)
        decreases n - i
      {
        LocatedNext(w, mainPath, p, dlls, i, base);
        assert nodes[fi] == front[fi];
        LocateChild(fi, p, base, i);
        i := i + 1;
      }
      assert dlls[..n] == dlls;
    }

    /** step_1: rounds until the queue is empty. */
    method Step1() returns (ok: bool)
      requires Inv(State())
      modifies this`nodes, this`queue, this`known
      ensures ok <==> Run(w, mainPath, old(State())).Some?
      ensures ok ==> State() == Run(w, mainPath, old(State())).value
    {
      while queue != []
        invariant Inv(State())
        invariant Run(w, mainPath, State()) == Run(w, mainPath, old(State()))
        decreases Pending(w, State()), |queue|
      {
        ghost var b := State();
        StepKeepsInv(w, mainPath, b);
        assert b.queue[0] in b.queue && NodeOk(b, b.queue[0]);
        RunUnfolds(w, mainPath, b);
        var fi := queue[0];
        queue := queue[1..];
        assert [fi] + queue == b.queue;
        var step := Step2(fi);
        if !step {
          return false;
        }
      }
      return true;
    }
  }

  lemma RunUnfolds(w: World, main: Path, b: Build)
    requires Inv(b) && b.queue != [] && CanStep(b)
    ensures var r := DT.Step2(w, main, b);
            && (r.None? ==> Run(w, main, b).None?)
            && (r.Some? ==>
                  && Inv(r.value) && Run(w, main, b) == Run(w, main, r.value)
                  && (Pending(w, r.value) < Pending(w, b)
                      || (Pending(w, r.value) <= Pending(w, b) && |r.value.queue| < |b.queue|)))
  {
    StepKeepsInv(w, main, b);
    var p := b.nodes[b.queue[0]].path.value;
    if p in b.known {
      DuplicateShrinksQueue(w, b);
    } else if p in w.load {
      OriginalShrinksPending(w, main, b);
    }
  }

  /** The first i of the new children are located, the others blank. */
  ghost predicate HalfLocated(w: World, main: Path, p: Path, fi: nat, base: nat, dlls: seq<Str>, i: nat,
                              nodes: seq<Node>)
  {
    && |nodes| == base + |dlls|
    && forall j {:trigger nodes[j]} :: base <= j < base + |dlls| ==>
         nodes[j] == if j < base + i then Child(w, main, p, fi, dlls[j - base]) else BlankChild(fi)
  }

  lemma HalfLocatedNext(w: World, main: Path, p: Path, fi: nat, base: nat, dlls: seq<Str>, i: nat, nodes: seq<Node>)
    requires i < |dlls| && HalfLocated(w, main, p, fi, base, dlls, i, nodes)
    ensures var l := Locate(w, main, p, dlls[i]);
            HalfLocated(w, main, p, fi, base, dlls, i + 1,
                        if l.Some? then nodes[base + i := nodes[base + i].(path := l)] else nodes)
  {
  }

  lemma LocatedNext(w: World, main: Path, p: Path, dlls: seq<Str>, i: nat, base: nat)
    requires i < |dlls|
    ensures LocatedFrom(w, main, p, dlls[..i + 1], base)
            == LocatedFrom(w, main, p, dlls[..i], base) + (if Locate(w, main, p, dlls[i]).Some? then [base + i] else [])
  {
    assert dlls[..i + 1] == dlls[..i] + [dlls[i]];
    LocatedAppend(w, main, p, dlls[..i], dlls[i], base);
  }

  lemma {:induction false} LocatedAppend(w: World, main: Path, p: Path, dlls: seq<Str>, d: Str, base: nat)
    ensures LocatedFrom(w, main, p, dlls + [d], base)
            == LocatedFrom(w, main, p, dlls, base) + (if Locate(w, main, p, d).Some? then [base + |dlls|] else [])
    decreases |dlls|
  {
    if dlls == [] {
      assert [] + [d] == [d];
    } else {
      assert (dlls + [d])[1..] == dlls[1..] + [d];
      LocatedAppend(w, main, p, dlls[1..], d, base + 1);
    }
  }

  /** process_impl. */
  method ProcessImpl(w: World, paths: seq<Path>) returns (r: Option<MainType>)
    requires GoodWorld(w)
    ensures r.None? <==> |paths| >= 0xFFFF || AfterRoots(w, paths, |paths|).None?
    ensures r.Some? ==> Finished(w, paths, r.value)
  {
    if |paths| >= 0xFFFF {
      return None;
    }
    var b := BuildAll(w, paths);
    if b.None? {
      return None;
    }
    var t := Finish(w, paths, b.value);
    return Some(t);
  }

  /** One file: its run from the state the earlier files left. */
  method BuildRoot(w: World, paths: seq<Path>, i: nat, to: TmpType) returns (ok: bool)
    requires GoodWorld(w) && i < |paths| && to.w == w
    requires AfterRoots(w, paths, i) == Some(to.State())
    modifies to
    ensures ok ==> AfterRoots(w, paths, i + 1) == Some(to.State())
    ensures !ok ==> AfterRoots(w, paths, i + 1).None? && AfterRoots(w, paths, |paths|).None?
  {
    AfterOneMore(w, paths, i, to.State());
    to.StartRoot(i, paths[i]);
    ok := to.Step1();
    if !ok {
      FailureSticks(w, paths, i + 1, |paths|);
    }
  }

  /** The loop over the files. */
  method BuildAll(w: World, paths: seq<Path>) returns (r: Option<Build>)
    requires GoodWorld(w)
    ensures r == AfterRoots(w, paths, |paths|)
  {
    var to := new TmpType(w, paths);
    assert AfterRoots(w, paths, 0) == Some(Initial(paths));
    var i, n := 0, |paths|;
    while i != n
      invariant 0 <= i <= n && to.w == w
      invariant AfterRoots(w, paths, i) == Some(to.State())
      decreases n - i
    {
      var step := BuildRoot(w, paths, i, to);
      if !step {
        return None;
      }
      i := i + 1;
    }
    return Some(Build(to.nodes, to.queue, to.known));
  }

  /** Matching, threading and listing the finished tree. */
  method Finish(w: World, paths: seq<Path>, b: Build) returns (r: MainType)
    requires GoodWorld(w) && AfterRoots(w, paths, |paths|) == Some(b)
    ensures Finished(w, paths, r)
  {
    AfterRootsBetween(w, paths, |paths|);
    FinishedTreeOk(b, paths);
    var pairing := new Pairing(b);
    pairing.PairAll();
    var ring := new InstanceLinks(b.nodes);
    ring.MakeDoublyLinkedList();
    var list := MakeModulesList(b);
    r := MainType(b, pairing.m, ring.links, list);
  }

  lemma {:induction false} FailureSticks(w: World, paths: seq<Path>, k: nat, n: nat)
    requires GoodWorld(w) && k <= n <= |paths| && AfterRoots(w, paths, k).None?
    ensures AfterRoots(w, paths, n).None?
    decreases n
  {
    if k == n {
    } else {
      FailureSticks(w, paths, k, n - 1);
    }
  }
}
