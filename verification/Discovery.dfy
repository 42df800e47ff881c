/** Running the work queue to its end: it terminates on cyclic graphs, finds
    exactly the reachable files, and finds each of them on a shortest chain. */
module Discovery {
  import opened Words
  import opened Text
  import opened DependencyTree

  // ---- Termination ----

  ghost function QueuePaths(b: Build): set<Path> {
    set i | i in b.queue && i < |b.nodes| && b.nodes[i].path.Some? :: b.nodes[i].path.value
  }

  /** Paths that some later step may still expand. */
  ghost function Pending(w: World, b: Build): set<Path> {
    w.located.Values + QueuePaths(b) - b.known.Keys
  }

  lemma DuplicateShrinksQueue(w: World, b: Build)
    requires Inv(b) && b.queue != [] && CanStep(b) && b.nodes[b.queue[0]].path.value in b.known
    ensures Pending(w, AsDuplicate(b)) <= Pending(w, b)
    ensures |AsDuplicate(b).queue| < |b.queue|
  {
    QueueTail(b);
  }

  lemma OriginalShrinksPending(w: World, main: Path, b: Build)
    requires Inv(b) && b.queue != [] && CanStep(b) && b.nodes[b.queue[0]].path.value in w.load
    requires b.nodes[b.queue[0]].path.value !in b.known
    ensures Pending(w, AsOriginal(w, main, b)) < Pending(w, b)
  {
    QueueTail(b);
    var fi := b.queue[0];
    var p := b.nodes[fi].path.value;
    var c := AsOriginal(w, main, b);
    var m := w.load[p];
    var n := |b.nodes|;
    LocatedFromExactly(w, main, p, m.dlls, n);
    forall i | i in c.queue && i < |c.nodes| && c.nodes[i].path.Some?
      ensures c.nodes[i].path.value in w.located.Values + QueuePaths(b)
    {
      if i in b.queue {
        assert b.nodes[i].path.value in QueuePaths(b);
      } else {
        assert c.nodes[i] == Child(w, main, p, fi, m.dlls[i - n]);
        var key := (main, p, m.dlls[i - n]);
        assert key in w.located && w.located[key] in w.located.Values;
      }
    }
    assert fi in b.queue;
    assert p in Pending(w, b) && p !in Pending(w, c);
  }

  /** step_1: the rounds until the queue is empty, or None at the first file that
      does not load. */
  ghost function Run(w: World, main: Path, b: Build): Option<Build>
    requires Inv(b)
    decreases Pending(w, b), |b.queue|
  {
    if b.queue == [] then Some(b)
    else
      StepKeepsInv(w, main, b);
      var p := b.nodes[b.queue[0]].path.value;
      if p in b.known then
        DuplicateShrinksQueue(w, b);
        Run(w, main, AsDuplicate(b))
      else if p in w.load then
        OriginalShrinksPending(w, main, b);
        Run(w, main, AsOriginal(w, main, b))
      else None
  }

  // ---- Reachability and depth ----

  /** p ends an import chain of n links that starts at r and passes only through
      files outside `before`. */
  ghost predicate ReachIn(w: World, main: Path, before: set<Path>, r: Path, p: Path, n: nat)
    decreases n
  {
    if n == 0 then p == r
    else exists q :: ReachIn(w, main, before, r, q, n - 1) && q !in before && p in Imports(w, main, q)
  }

  ghost predicate Reachable(w: World, main: Path, before: set<Path>, r: Path, p: Path) {
    exists n :: ReachIn(w, main, before, r, p, n)
  }

  /** Number of parent links above a node. */
  function Depth(nodes: seq<Node>, i: nat): nat {
    if i < |nodes| && nodes[i].parent.Some? && nodes[i].parent.value < i
    then 1 + Depth(nodes, nodes[i].parent.value) else 0
  }

  lemma {:induction false} DepthStable(nodes: seq<Node>, later: seq<Node>, i: nat)
    requires i < |nodes| <= |later|
    requires forall j :: 0 <= j < |nodes| ==> later[j].parent == nodes[j].parent
    ensures Depth(later, i) == Depth(nodes, i)
  {
    if nodes[i].parent.Some? && nodes[i].parent.value < i {
      DepthStable(nodes, later, nodes[i].parent.value);
    }
  }

  // ---- What a run keeps ----

  /** The setting of one run: the state it starts in, whose queue holds the root only. */
  datatype Start = Start(w: World, main: Path, b: Build, root: nat)

  ghost predicate StartOk(s: Start) {
    && Inv(s.b) && s.b.queue == [s.root] && s.root < |s.b.nodes|
    && s.b.nodes[s.root].path.Some? && s.b.nodes[s.root].parent.None?
  }

  ghost function RootPath(s: Start): Path
    requires StartOk(s)
  {
    s.b.nodes[s.root].path.value
  }

  ghost predicate Reach(s: Start, p: Path, n: nat)
    requires StartOk(s)
  {
    ReachIn(s.w, s.main, s.b.known.Keys, RootPath(s), p, n)
  }

  ghost predicate New(s: Start, b: Build, p: Path) {
    p in b.known && p !in s.b.known
  }

  ghost function DepthOf(b: Build, p: Path): nat
    requires p in b.known
  {
    Depth(b.nodes, b.known[p].instance)
  }

  /** Everything the run did not touch is as it was. */
  ghost predicate Grown(s: Start, b: Build) {
    && |s.b.nodes| <= |b.nodes|
    && (forall i :: 0 <= i < |s.b.nodes| && i != s.root ==> b.nodes[i] == s.b.nodes[i])
    && (s.root < |s.b.nodes| ==>
          && b.nodes[s.root].parent == s.b.nodes[s.root].parent
          && (b.nodes[s.root].path.Some? || b.nodes[s.root].orig.Some?))
    && (forall p :: p in s.b.known ==> p in b.known && b.known[p] == s.b.known[p])
    && (forall i :: i in b.queue ==> i == s.root || |s.b.nodes| <= i)
  }

  /** p is settled within depth n: known before, found no deeper, or waiting no deeper. */
  ghost predicate Settled(s: Start, b: Build, p: Path, n: nat) {
    || p in s.b.known
    || (p in b.known && DepthOf(b, p) <= n)
    || Waiting(b, p, n)
  }

  ghost predicate Waiting(b: Build, p: Path, n: nat) {
    exists i :: i in b.queue && i < |b.nodes| && b.nodes[i].path == Some(p) && Depth(b.nodes, i) <= n
  }

  /** A file found by this run lies on a chain as long as its depth, is no deeper
      than anything waiting, has settled all its imports one level below, and its
      child nodes mirror its imports. */
  ghost predicate NewOk(s: Start, b: Build, p: Path)
    requires StartOk(s) && p in b.known
  {
    && Unrolled(s, b, p)
    && Reach(s, p, DepthOf(b, p))
    && (forall i :: i in b.queue ==> DepthOf(b, p) <= Depth(b.nodes, i))
    && (forall q :: q in Imports(s.w, s.main, p) ==> Settled(s, b, q, DepthOf(b, p) + 1))
  }

  /** The first instance of p holds the tables of p, and its children mirror its imports. */
  ghost predicate Unrolled(s: Start, e: Build, p: Path) {
    && p in e.known && p in s.w.load && e.known[p].instance < |e.nodes|
    && e.nodes[e.known[p].instance].mod == s.w.load[p]
    && forall k :: 0 <= k < |s.w.load[p].dlls| ==> MirrorsImport(s, e, p, k)
  }

  /** Child k of the first instance of p stands for what dll k of p locates. */
  ghost predicate MirrorsImport(s: Start, b: Build, p: Path, k: nat)
    requires p in b.known && p in s.w.load && k < |s.w.load[p].dlls|
  {
    var o := b.known[p].instance;
    o < |b.nodes| &&
    var c := b.nodes[o].fis + k;
    && c < |b.nodes| && |s.b.nodes| <= c
    && match Locate(s.w, s.main, p, s.w.load[p].dlls[k])
       case None => b.nodes[c].path.None? && b.nodes[c].orig.None?
       case Some(q) =>
         || b.nodes[c].path == Some(q)
         || (b.nodes[c].path.None? && q in b.known && b.nodes[c].orig == Some(b.known[q].instance))
  }

  /** The queue is sorted by depth and spans two levels at most. */
  ghost predicate QueueByDepth(b: Build) {
    forall i, j :: 0 <= i <= j < |b.queue| ==>
      Depth(b.nodes, b.queue[i]) <= Depth(b.nodes, b.queue[j]) <= Depth(b.nodes, b.queue[0]) + 1
  }

  ghost predicate QueueReached(s: Start, b: Build)
    requires StartOk(s)
  {
    forall i :: i in b.queue ==>
      i < |b.nodes| && b.nodes[i].path.Some? && Reach(s, b.nodes[i].path.value, Depth(b.nodes, i))
  }

  ghost predicate RunInv(s: Start, b: Build) {
    && StartOk(s) && Inv(b) && Grown(s, b)
    && QueueByDepth(b) && QueueReached(s, b)
    && Settled(s, b, RootPath(s), 0)
    && (forall p :: New(s, b, p) ==> NewOk(s, b, p))
  }

  lemma RunInvInitially(s: Start)
    requires StartOk(s)
    ensures RunInv(s, s.b)
  {
    assert s.root in s.b.queue;
    assert Reach(s, RootPath(s), 0);
    assert Depth(s.b.nodes, s.root) == 0;
  }

  // ---- A duplicate ----

  lemma DuplicateKeepsDepth(b: Build)
    requires Inv(b) && b.queue != [] && CanStep(b) && b.nodes[b.queue[0]].path.value in b.known
    ensures forall i: nat :: i < |b.nodes| ==> Depth(AsDuplicate(b).nodes, i) == Depth(b.nodes, i)
  {
    forall i: nat | i < |b.nodes| ensures Depth(AsDuplicate(b).nodes, i) == Depth(b.nodes, i) {
      DepthStable(b.nodes, AsDuplicate(b).nodes, i);
    }
  }

  lemma DuplicateKeepsSettled(s: Start, b: Build, q: Path, n: nat)
    requires RunInv(s, b) && b.queue != [] && CanStep(b) && b.nodes[b.queue[0]].path.value in b.known
    requires Settled(s, b, q, n)
    ensures Settled(s, AsDuplicate(b), q, n)
  {
    QueueTail(b);
    DuplicateKeepsDepth(b);
    var c := AsDuplicate(b);
    var fi := b.queue[0];
    if q in s.b.known {
    } else if q in b.known {
      assert KnownOk(b, q) && NewOk(s, b, q);
    } else {
      var i :| i in b.queue && i < |b.nodes| && b.nodes[i].path == Some(q) && Depth(b.nodes, i) <= n;
      assert i in c.queue && c.nodes[i] == b.nodes[i];
    }
  }

  lemma DuplicateKeepsNew(s: Start, b: Build, p: Path)
    requires RunInv(s, b) && b.queue != [] && CanStep(b) && b.nodes[b.queue[0]].path.value in b.known
    requires New(s, b, p)
    ensures NewOk(s, AsDuplicate(b), p)
  {
    QueueTail(b);
    DuplicateKeepsDepth(b);
    var c := AsDuplicate(b);
    assert NewOk(s, b, p) && KnownOk(b, p);
    DuplicateKeepsUnrolled(s, b, p);
    forall q | q in Imports(s.w, s.main, p) ensures Settled(s, c, q, DepthOf(c, p) + 1) {
      DuplicateKeepsSettled(s, b, q, DepthOf(b, p) + 1);
    }
  }

  lemma DuplicateKeepsUnrolled(s: Start, b: Build, p: Path)
    requires Inv(b) && b.queue != [] && CanStep(b) && b.nodes[b.queue[0]].path.value in b.known
    requires p in b.known && Unrolled(s, b, p)
    ensures Unrolled(s, AsDuplicate(b), p)
  {
    QueueTail(b);
    assert KnownOk(b, p);
    forall k | 0 <= k < |s.w.load[p].dlls| ensures MirrorsImport(s, AsDuplicate(b), p, k) {
      assert MirrorsImport(s, b, p, k);
    }
  }

  lemma DuplicateKeepsGrown(s: Start, b: Build)
    requires StartOk(s) && Inv(b) && Grown(s, b)
    requires b.queue != [] && CanStep(b) && b.nodes[b.queue[0]].path.value in b.known
    ensures Grown(s, AsDuplicate(b))
  {
    QueueTail(b);
    assert b.queue[0] in b.queue;
  }

  lemma DuplicateKeepsReached(s: Start, b: Build)
    requires StartOk(s) && Inv(b) && QueueReached(s, b)
    requires b.queue != [] && CanStep(b) && b.nodes[b.queue[0]].path.value in b.known
    ensures QueueReached(s, AsDuplicate(b))
  {
    QueueTail(b);
    DuplicateKeepsDepth(b);
    var c := AsDuplicate(b);
    forall i | i in c.queue
      ensures i < |c.nodes| && c.nodes[i].path.Some? && Reach(s, c.nodes[i].path.value, Depth(c.nodes, i))
    {
      assert i in b.queue && c.nodes[i] == b.nodes[i];
    }
  }

  lemma DuplicateKeepsRunInv(s: Start, b: Build)
    requires RunInv(s, b) && b.queue != [] && CanStep(b) && b.nodes[b.queue[0]].path.value in b.known
    ensures RunInv(s, AsDuplicate(b))
  {
    DuplicateKeepsInv(b);
    DuplicateKeepsGrown(s, b);
    DuplicateKeepsReached(s, b);
    DuplicateKeepsSettled(s, b, RootPath(s), 0);
    var c := AsDuplicate(b);
    forall p | New(s, c, p) ensures NewOk(s, c, p) {
      DuplicateKeepsNew(s, b, p);
    }
    DuplicateKeepsQueueByDepth(b);
  }

  lemma DuplicateKeepsQueueByDepth(b: Build)
    requires Inv(b) && b.queue != [] && CanStep(b) && b.nodes[b.queue[0]].path.value in b.known && QueueByDepth(b)
    ensures QueueByDepth(AsDuplicate(b))
  {
    QueueInRange(b);
    DuplicateKeepsDepth(b);
    var c := AsDuplicate(b);
    forall i, j | 0 <= i <= j < |c.queue|
      ensures Depth(c.nodes, c.queue[i]) <= Depth(c.nodes, c.queue[j]) <= Depth(c.nodes, c.queue[0]) + 1
    {
      assert c.queue[i] == b.queue[i + 1] && c.queue[j] == b.queue[j + 1] && c.queue[0] == b.queue[1];
      assert Depth(b.nodes, b.queue[0]) <= Depth(b.nodes, b.queue[1]);
    }
  }

  lemma QueueInRange(b: Build)
    requires Inv(b)
    ensures forall i :: 0 <= i < |b.queue| ==> 1 <= b.queue[i] < |b.nodes|
  {
    forall i | 0 <= i < |b.queue| ensures 1 <= b.queue[i] < |b.nodes| {
      assert b.queue[i] in b.queue;
    }
  }

  // ---- An original ----

  ghost predicate ExpandsHead(s: Start, b: Build) {
    && RunInv(s, b) && b.queue != [] && CanStep(b)
    && b.nodes[b.queue[0]].path.value in s.w.load && b.nodes[b.queue[0]].path.value !in b.known
  }

  /** The fresh block of children hangs one level below the expanded node. */
  lemma OriginalDepths(s: Start, b: Build)
    requires ExpandsHead(s, b)
    ensures var c := AsOriginal(s.w, s.main, b);
            && (forall i: nat :: i < |b.nodes| ==> Depth(c.nodes, i) == Depth(b.nodes, i))
            && (forall i: nat :: |b.nodes| <= i < |c.nodes| ==> Depth(c.nodes, i) == Depth(b.nodes, b.queue[0]) + 1)
  {
    var c := AsOriginal(s.w, s.main, b);
    forall i: nat | i < |b.nodes| ensures Depth(c.nodes, i) == Depth(b.nodes, i) {
      DepthStable(b.nodes, c.nodes, i);
    }
  }

  /** Child k of the expanded node. */
  lemma OriginalChild(s: Start, b: Build, k: nat)
    requires ExpandsHead(s, b)
    requires k < |s.w.load[b.nodes[b.queue[0]].path.value].dlls|
    ensures var c := AsOriginal(s.w, s.main, b);
            var p := b.nodes[b.queue[0]].path.value;
            && c.nodes[|b.nodes| + k] == Child(s.w, s.main, p, b.queue[0], s.w.load[p].dlls[k])
            && (|b.nodes| + k in c.queue <==> c.nodes[|b.nodes| + k].path.Some?)
  {
    QueueTail(b);
    QueueInRange(b);
    var p := b.nodes[b.queue[0]].path.value;
    LocatedFromExactly(s.w, s.main, p, s.w.load[p].dlls, |b.nodes|);
    assert |b.nodes| + k in AsOriginal(s.w, s.main, b).queue <==>
           |b.nodes| + k in LocatedFrom(s.w, s.main, p, s.w.load[p].dlls, |b.nodes|);
  }

  /** The queue after an expansion: the old tail and some of the new children. */
  lemma OriginalQueue(s: Start, b: Build)
    requires ExpandsHead(s, b)
    ensures var c := AsOriginal(s.w, s.main, b);
            forall i :: i in c.queue ==>
              (i in b.queue && i != b.queue[0] && i < |b.nodes|)
              || (|b.nodes| <= i < |c.nodes| && c.nodes[i].path.Some?)
    ensures forall i :: i in b.queue && i != b.queue[0] ==> i in AsOriginal(s.w, s.main, b).queue
  {
    QueueTail(b);
    var c := AsOriginal(s.w, s.main, b);
    var p := b.nodes[b.queue[0]].path.value;
    var dlls := s.w.load[p].dlls;
    var located := LocatedFrom(s.w, s.main, p, dlls, |b.nodes|);
    LocatedFromExactly(s.w, s.main, p, dlls, |b.nodes|);
    forall i | i in located ensures |b.nodes| <= i < |c.nodes| && c.nodes[i].path.Some? {
      OriginalChild(s, b, i - |b.nodes|);
    }
  }

  lemma OriginalKeepsSettled(s: Start, b: Build, q: Path, n: nat)
    requires ExpandsHead(s, b) && Settled(s, b, q, n)
    ensures Settled(s, AsOriginal(s.w, s.main, b), q, n)
  {
    OriginalDepths(s, b);
    OriginalQueue(s, b);
    var c := AsOriginal(s.w, s.main, b);
    if q in s.b.known {
    } else if q in b.known {
      assert KnownOk(b, q) && NewOk(s, b, q);
    } else {
      var i :| i in b.queue && i < |b.nodes| && b.nodes[i].path == Some(q) && Depth(b.nodes, i) <= n;
      if i != b.queue[0] {
        assert i in c.queue && c.nodes[i] == b.nodes[i];
      }
    }
  }

  /** A file found before stays no deeper than anything waiting. */
  lemma OriginalKeepsShallow(s: Start, b: Build, p: Path)
    requires ExpandsHead(s, b) && New(s, b, p)
    ensures var c := AsOriginal(s.w, s.main, b);
            && p in c.known && DepthOf(c, p) == DepthOf(b, p)
            && forall i :: i in c.queue ==> DepthOf(c, p) <= Depth(c.nodes, i)
  {
    OriginalDepths(s, b);
    OriginalQueue(s, b);
    assert b.queue[0] in b.queue;
    assert NewOk(s, b, p) && KnownOk(b, p);
  }

  lemma OriginalKeepsNew(s: Start, b: Build, p: Path)
    requires ExpandsHead(s, b) && New(s, b, p)
    ensures NewOk(s, AsOriginal(s.w, s.main, b), p)
  {
    OriginalKeepsShallow(s, b, p);
    OriginalKeepsUnrolled(s, b, p);
    assert NewOk(s, b, p);
    forall q | q in Imports(s.w, s.main, p) ensures Settled(s, AsOriginal(s.w, s.main, b), q, DepthOf(b, p) + 1) {
      OriginalKeepsSettled(s, b, q, DepthOf(b, p) + 1);
    }
  }

  lemma OriginalKeepsMirror(s: Start, b: Build, p: Path, k: nat)
    requires ExpandsHead(s, b) && New(s, b, p) && p in s.w.load && k < |s.w.load[p].dlls|
    requires MirrorsImport(s, b, p, k)
    ensures MirrorsImport(s, AsOriginal(s.w, s.main, b), p, k)
  {
    assert KnownOk(b, p);
    var c := AsOriginal(s.w, s.main, b);
    var o, fi := b.known[p].instance, b.queue[0];
    assert fi in b.queue && o != fi && c.known[p] == b.known[p] && c.nodes[o] == b.nodes[o];
    var child := b.nodes[o].fis + k;
    assert c.nodes[child].path == b.nodes[child].path && c.nodes[child].orig == b.nodes[child].orig;
  }

  lemma OriginalKeepsUnrolled(s: Start, b: Build, p: Path)
    requires ExpandsHead(s, b) && New(s, b, p)
    ensures Unrolled(s, AsOriginal(s.w, s.main, b), p)
  {
    assert NewOk(s, b, p) && KnownOk(b, p);
    assert b.queue[0] in b.queue;
    forall k | 0 <= k < |s.w.load[p].dlls| ensures MirrorsImport(s, AsOriginal(s.w, s.main, b), p, k) {
      OriginalKeepsMirror(s, b, p, k);
    }
  }

  /** The expanded file is as deep as its node was, and no deeper than anything waiting. */
  lemma OriginalIsShallow(s: Start, b: Build)
    requires ExpandsHead(s, b)
    ensures var c := AsOriginal(s.w, s.main, b);
            var p := b.nodes[b.queue[0]].path.value;
            && p in c.known && DepthOf(c, p) == Depth(b.nodes, b.queue[0])
            && forall i :: i in c.queue ==> DepthOf(c, p) <= Depth(c.nodes, i)
  {
    OriginalDepths(s, b);
    OriginalQueue(s, b);
    QueueInRange(b);
    var c := AsOriginal(s.w, s.main, b);
    forall i | i in c.queue ensures Depth(b.nodes, b.queue[0]) <= Depth(c.nodes, i) {
      if i in b.queue {
        var j :| 0 <= j < |b.queue| && b.queue[j] == i;
        assert Depth(b.nodes, b.queue[0]) <= Depth(b.nodes, b.queue[j]);
      }
    }
  }

  /** Its imports wait one level below it. */
  lemma OriginalSettlesImport(s: Start, b: Build, q: Path)
    requires ExpandsHead(s, b) && q in Imports(s.w, s.main, b.nodes[b.queue[0]].path.value)
    ensures Settled(s, AsOriginal(s.w, s.main, b), q, Depth(b.nodes, b.queue[0]) + 1)
  {
    OriginalDepths(s, b);
    var c := AsOriginal(s.w, s.main, b);
    var p := b.nodes[b.queue[0]].path.value;
    var dlls := s.w.load[p].dlls;
    var d :| d in dlls && Locate(s.w, s.main, p, d) == Some(q);
    var k :| 0 <= k < |dlls| && dlls[k] == d;
    OriginalChild(s, b, k);
    assert Waiting(c, q, Depth(b.nodes, b.queue[0]) + 1);
  }

  lemma OriginalUnrolls(s: Start, b: Build)
    requires ExpandsHead(s, b)
    ensures Unrolled(s, AsOriginal(s.w, s.main, b), b.nodes[b.queue[0]].path.value)
  {
    QueueInRange(b);
    var p := b.nodes[b.queue[0]].path.value;
    forall k | 0 <= k < |s.w.load[p].dlls| ensures MirrorsImport(s, AsOriginal(s.w, s.main, b), p, k) {
      OriginalChild(s, b, k);
    }
  }

  lemma OriginalIsNew(s: Start, b: Build)
    requires ExpandsHead(s, b)
    ensures NewOk(s, AsOriginal(s.w, s.main, b), b.nodes[b.queue[0]].path.value)
  {
    var c := AsOriginal(s.w, s.main, b);
    var p := b.nodes[b.queue[0]].path.value;
    OriginalIsShallow(s, b);
    OriginalUnrolls(s, b);
    assert b.queue[0] in b.queue;
    forall q | q in Imports(s.w, s.main, p) ensures Settled(s, c, q, DepthOf(c, p) + 1) {
      OriginalSettlesImport(s, b, q);
    }
  }

  /** The new queue: the old tail, then children one level below the expanded node. */
  lemma OriginalQueueDepths(s: Start, b: Build, i: nat)
    requires ExpandsHead(s, b) && i < |AsOriginal(s.w, s.main, b).queue|
    ensures var c := AsOriginal(s.w, s.main, b);
            var d := Depth(b.nodes, b.queue[0]);
            && (i + 1 < |b.queue| ==>
                  && d <= Depth(c.nodes, c.queue[i]) <= d + 1 && c.queue[i] == b.queue[i + 1] < |b.nodes|
                  && Depth(c.nodes, c.queue[i]) == Depth(b.nodes, b.queue[i + 1]))
            && (|b.queue| <= i + 1 ==> Depth(c.nodes, c.queue[i]) == d + 1)
  {
    OriginalDepths(s, b);
    QueueInRange(b);
    var c := AsOriginal(s.w, s.main, b);
    var p := b.nodes[b.queue[0]].path.value;
    var located := LocatedFrom(s.w, s.main, p, s.w.load[p].dlls, |b.nodes|);
    LocatedFromExactly(s.w, s.main, p, s.w.load[p].dlls, |b.nodes|);
    var t := |b.queue| - 1;
    if i < t {
      assert c.queue[i] == b.queue[i + 1];
    } else {
      assert c.queue[i] == located[i - t] && located[i - t] in located;
    }
  }

  lemma OriginalKeepsQueueByDepth(s: Start, b: Build)
    requires ExpandsHead(s, b)
    ensures QueueByDepth(AsOriginal(s.w, s.main, b))
  {
    var c := AsOriginal(s.w, s.main, b);
    forall i, j | 0 <= i <= j < |c.queue|
      ensures Depth(c.nodes, c.queue[i]) <= Depth(c.nodes, c.queue[j]) <= Depth(c.nodes, c.queue[0]) + 1
    {
      OriginalQueueDepths(s, b, i);
      OriginalQueueDepths(s, b, j);
      OriginalQueueDepths(s, b, 0);
      if j + 1 < |b.queue| {
        assert Depth(b.nodes, b.queue[i + 1]) <= Depth(b.nodes, b.queue[j + 1]);
      }
    }
  }

  lemma OriginalKeepsQueueReached(s: Start, b: Build)
    requires ExpandsHead(s, b)
    ensures QueueReached(s, AsOriginal(s.w, s.main, b))
  {
    OriginalQueue(s, b);
    var c := AsOriginal(s.w, s.main, b);
    forall i | i in c.queue
      ensures i < |c.nodes| && c.nodes[i].path.Some? && Reach(s, c.nodes[i].path.value, Depth(c.nodes, i))
    {
      OriginalDepths(s, b);
      if i < |b.nodes| {
        WaitingIsReached(s, b, i);
      } else {
        ChildIsReached(s, b, i);
      }
    }
  }

  lemma WaitingIsReached(s: Start, b: Build, i: nat)
    requires ExpandsHead(s, b) && i in b.queue && i != b.queue[0] && i < |b.nodes|
    ensures AsOriginal(s.w, s.main, b).nodes[i] == b.nodes[i]
    ensures b.nodes[i].path.Some? && Reach(s, b.nodes[i].path.value, Depth(b.nodes, i))
  {
  }

  lemma ChildIsReached(s: Start, b: Build, i: nat)
    requires ExpandsHead(s, b)
    requires var c := AsOriginal(s.w, s.main, b); |b.nodes| <= i < |c.nodes| && c.nodes[i].path.Some?
    ensures var c := AsOriginal(s.w, s.main, b); Reach(s, c.nodes[i].path.value, Depth(b.nodes, b.queue[0]) + 1)
  {
    var p := b.nodes[b.queue[0]].path.value;
    assert b.queue[0] in b.queue;
    OriginalChild(s, b, i - |b.nodes|);
    ImportIsReached(s, p, s.w.load[p].dlls[i - |b.nodes|], Depth(b.nodes, b.queue[0]));
  }

  /** One more link on a chain. */
  lemma ImportIsReached(s: Start, p: Path, d: Str, n: nat)
    requires StartOk(s) && Reach(s, p, n) && p !in s.b.known
    requires p in s.w.load && d in s.w.load[p].dlls && Locate(s.w, s.main, p, d).Some?
    ensures Reach(s, Locate(s.w, s.main, p, d).value, n + 1)
  {
    var q := Locate(s.w, s.main, p, d).value;
    assert q in Imports(s.w, s.main, p);
    assert ReachIn(s.w, s.main, s.b.known.Keys, RootPath(s), p, (n + 1) - 1);
  }

  lemma OriginalKeepsGrown(s: Start, b: Build)
    requires ExpandsHead(s, b)
    ensures Grown(s, AsOriginal(s.w, s.main, b))
  {
    assert b.queue[0] in b.queue;
    OriginalQueue(s, b);
  }

  lemma OriginalKeepsAllNew(s: Start, b: Build, p: Path)
    requires ExpandsHead(s, b) && New(s, AsOriginal(s.w, s.main, b), p)
    ensures NewOk(s, AsOriginal(s.w, s.main, b), p)
  {
    if p == b.nodes[b.queue[0]].path.value {
      OriginalIsNew(s, b);
    } else {
      OriginalKeepsNew(s, b, p);
    }
  }

  lemma OriginalKeepsRunInv(s: Start, b: Build)
    requires ExpandsHead(s, b)
    ensures RunInv(s, AsOriginal(s.w, s.main, b))
  {
    var c := AsOriginal(s.w, s.main, b);
    OriginalKeepsInv(s.w, s.main, b);
    OriginalKeepsGrown(s, b);
    OriginalKeepsQueueByDepth(s, b);
    OriginalKeepsQueueReached(s, b);
    OriginalKeepsSettled(s, b, RootPath(s), 0);
    forall p | New(s, c, p) ensures NewOk(s, c, p) {
      OriginalKeepsAllNew(s, b, p);
    }
  }

  // ---- The results ----

  /** The run fails on a file that is reachable and does not load. */
  ghost predicate FailsOn(s: Start, p: Path)
    requires StartOk(s)
  {
    (exists n :: Reach(s, p, n)) && p !in s.b.known && p !in s.w.load
  }

  lemma {:induction false} RunKeepsRunInv(s: Start, b: Build)
    requires RunInv(s, b)
    ensures match Run(s.w, s.main, b)
            case Some(e) => RunInv(s, e) && e.queue == []
            case None => exists p :: FailsOn(s, p)
    decreases Pending(s.w, b), |b.queue|
  {
    if b.queue == [] {
    } else {
      StepKeepsInv(s.w, s.main, b);
      var p := b.nodes[b.queue[0]].path.value;
      if p in b.known {
        DuplicateShrinksQueue(s.w, b);
        DuplicateKeepsRunInv(s, b);
        RunKeepsRunInv(s, AsDuplicate(b));
      } else if p in s.w.load {
        OriginalShrinksPending(s.w, s.main, b);
        OriginalKeepsRunInv(s, b);
        RunKeepsRunInv(s, AsOriginal(s.w, s.main, b));
      } else {
        assert b.queue[0] in b.queue;
        assert Reach(s, p, Depth(b.nodes, b.queue[0]));
        assert FailsOn(s, p);
      }
    }
  }

  /** When the queue is empty, everything on a chain of n links was known before or
      has been found no deeper than n. */
  lemma {:induction false} FoundWithin(s: Start, e: Build, p: Path, n: nat)
    requires RunInv(s, e) && e.queue == [] && Reach(s, p, n)
    ensures p in s.b.known || (p in e.known && DepthOf(e, p) <= n)
    decreases n
  {
    if n == 0 {
      assert Settled(s, e, p, 0);
    } else {
      var q :| ReachIn(s.w, s.main, s.b.known.Keys, RootPath(s), q, n - 1)
               && q !in s.b.known.Keys && p in Imports(s.w, s.main, q);
      FoundWithin(s, e, q, n - 1);
      assert New(s, e, q) && NewOk(s, e, q);
      assert Settled(s, e, p, DepthOf(e, q) + 1);
    }
  }

  /** One root run: it succeeds exactly when every reachable file loads; then the
      known files are those known before and exactly the reachable ones, and each
      new one sits as deep as its shortest import chain is long. */
  lemma RunDiscoversExactly(s: Start)
    requires StartOk(s)
    ensures Run(s.w, s.main, s.b).Some? <==> forall p :: !FailsOn(s, p)
    ensures Run(s.w, s.main, s.b).Some? ==>
              var e := Run(s.w, s.main, s.b).value;
              && (forall p :: p in e.known <==>
                    p in s.b.known || Reachable(s.w, s.main, s.b.known.Keys, RootPath(s), p))
              && (forall p :: New(s, e, p) ==> Reach(s, p, DepthOf(e, p)))
              && (forall p, n :: New(s, e, p) && Reach(s, p, n) ==> DepthOf(e, p) <= n)
  {
    RunInvInitially(s);
    RunKeepsRunInv(s, s.b);
    var run := Run(s.w, s.main, s.b);
    if run.Some? {
      var e := run.value;
      forall p, n | Reach(s, p, n) ensures p in s.b.known || (p in e.known && DepthOf(e, p) <= n) {
        FoundWithin(s, e, p, n);
      }
      forall p | New(s, e, p)
        ensures Reach(s, p, DepthOf(e, p)) && p in s.w.load
        ensures Reachable(s.w, s.main, s.b.known.Keys, RootPath(s), p)
      {
        assert NewOk(s, e, p);
      }
      forall p ensures p in e.known <==> p in s.b.known || Reachable(s.w, s.main, s.b.known.Keys, RootPath(s), p) {
        if Reachable(s.w, s.main, s.b.known.Keys, RootPath(s), p) {
          var n :| ReachIn(s.w, s.main, s.b.known.Keys, RootPath(s), p, n);
          assert Reach(s, p, n);
        }
      }
    }
  }

  /** The tree of a successful run is the import graph unrolled once: every import of
      every new file is a missing leaf when it locates nothing, the one original of
      the located file, or a leaf that points at that original; nodes that were there
      before keep their contents. */
  lemma RunMirrorsImports(s: Start)
    requires StartOk(s) && Run(s.w, s.main, s.b).Some?
    ensures var e := Run(s.w, s.main, s.b).value;
            && Inv(e) && e.queue == []
            && (forall p :: New(s, e, p) ==> Unrolled(s, e, p))
            && Grown(s, e)
  {
    RunInvInitially(s);
    RunKeepsRunInv(s, s.b);
    var e := Run(s.w, s.main, s.b).value;
    forall p | New(s, e, p) ensures Unrolled(s, e, p) {
      assert NewOk(s, e, p);
    }
  }
}
