/** The dependency tree: a work queue over a possibly cyclic import graph, kept in
    an arena of nodes. A node address is its index, so the children of a node are
    the consecutive indices from `fis` on, as in the program. */
module DependencyTree {
  import opened Words
  import opened Text
  import opened ExportTable
  import opened Matcher

  type Path = Str

  /** The processed tables of one file. */
  datatype Module = Module(dlls: seq<Str>, imports: seq<seq<Import>>, exports: ExportInfo, enpt: seq<uint16>)

  const EMPTY_MODULE := Module([], [], NO_EXPORTS, [])

  /** path without orig: a located module, expanded once it is known; orig: a later
      instance of an expanded module; neither: a missing module. */
  datatype Node = Node(parent: Option<nat>, path: Option<Path>, orig: Option<nat>, fis: nat, mod: Module)

  const ZERO_NODE := Node(None, None, None, 0, EMPTY_MODULE)

  /** The outside: which files load, and which file a (main, importer, dll) triple locates. */
  datatype World = World(load: map<Path, Module>, located: map<(Path, Path, Str), Path>)

  datatype Fat = Fat(instance: nat, enpt: seq<uint16>)

  datatype Build = Build(nodes: seq<Node>, queue: seq<nat>, known: map<Path, Fat>)

  ghost predicate GoodModule(m: Module) {
    && |m.dlls| == |m.imports| <= 0xFFFF
    && (forall i :: 0 <= i < |m.imports| ==> |m.imports[i]| <= 0xFFFF)
    && WellFormed(m.exports, m.enpt)
  }

  ghost predicate GoodWorld(w: World) {
    forall p :: p in w.load ==> GoodModule(w.load[p])
  }

  function Locate(w: World, main: Path, importer: Path, dll: Str): Option<Path> {
    if (main, importer, dll) in w.located then Some(w.located[(main, importer, dll)]) else None
  }

  /** The paths the imports of a module locate. */
  ghost function Imports(w: World, main: Path, p: Path): set<Path> {
    if p in w.load
    then set d | d in w.load[p].dlls && Locate(w, main, p, d).Some? :: Locate(w, main, p, d).value
    else {}
  }

  /** q is imported by p exactly when some DLL name of p's tables, looked up for this main
      file and p as the importer, locates it. */
  lemma ImportsExactly(w: World, main: Path, p: Path, q: Path)
    ensures q in Imports(w, main, p) <==>
              p in w.load && exists d ::
                d in w.load[p].dlls && (main, p, d) in w.located && w.located[(main, p, d)] == q
  {
  }

  // ---- The steps ----

  function Child(w: World, main: Path, importer: Path, fi: nat, dll: Str): Node {
    Node(Some(fi), Locate(w, main, importer, dll), None, 0, EMPTY_MODULE)
  }

  /** The located ones among the children base, base + 1, ..., in order. */
  function LocatedFrom(w: World, main: Path, importer: Path, dlls: seq<Str>, base: nat): seq<nat> {
    if dlls == [] then []
    else (if Locate(w, main, importer, dlls[0]).Some? then [base] else [])
         + LocatedFrom(w, main, importer, dlls[1..], base + 1)
  }

  predicate CanStep(b: Build) {
    b.queue != [] && b.queue[0] < |b.nodes| && b.nodes[b.queue[0]].path.Some?
  }

  /** The head of the queue seen again: a leaf that points at the first instance. */
  function AsDuplicate(b: Build): Build
    requires CanStep(b) && b.nodes[b.queue[0]].path.value in b.known
  {
    var fi := b.queue[0];
    var first := b.known[b.nodes[fi].path.value].instance;
    Build(b.nodes[fi := b.nodes[fi].(orig := Some(first), path := None)], b.queue[1..], b.known)
  }

  /** The head of the queue seen for the first time: expanded, its located children queued. */
  function AsOriginal(w: World, main: Path, b: Build): Build
    requires CanStep(b) && b.nodes[b.queue[0]].path.value in w.load
  {
    var fi := b.queue[0];
    var p := b.nodes[fi].path.value;
    var m := w.load[p];
    var base := |b.nodes|;
    Build(b.nodes[fi := b.nodes[fi].(fis := base, mod := m)]
            + seq(|m.dlls|, i requires 0 <= i < |m.dlls| => Child(w, main, p, fi, m.dlls[i])),
          b.queue[1..] + LocatedFrom(w, main, p, m.dlls, base),
          b.known[p := Fat(fi, m.enpt)])
  }

  /** One round of the work queue; None when the file does not load. */
  function Step2(w: World, main: Path, b: Build): Option<Build>
    requires CanStep(b)
  {
    var p := b.nodes[b.queue[0]].path.value;
    if p in b.known then Some(AsDuplicate(b))
    else if p in w.load then Some(AsOriginal(w, main, b))
    else None
  }

  // ---- What every step keeps ----

  function Count(nodes: seq<Node>, i: nat): nat
    requires i < |nodes|
  {
    |nodes[i].mod.dlls|
  }

  /** The node whose child block holds j; node 0 holds the top level. */
  function Up(nodes: seq<Node>, j: nat): nat
    requires j < |nodes|
  {
    if nodes[j].parent.Some? then nodes[j].parent.value else 0
  }

  ghost predicate BlockOk(nodes: seq<Node>, i: nat)
    requires i < |nodes|
  {
    Count(nodes, i) > 0 ==>
      && i < nodes[i].fis && nodes[i].fis + Count(nodes, i) <= |nodes|
      && forall c :: nodes[i].fis <= c < nodes[i].fis + Count(nodes, i) ==> Up(nodes, c) == i
  }

  ghost predicate ParentOk(nodes: seq<Node>, j: nat)
    requires j < |nodes|
  {
    Up(nodes, j) < j && nodes[Up(nodes, j)].fis <= j < nodes[Up(nodes, j)].fis + Count(nodes, Up(nodes, j))
  }

  /** The blocks of children partition the nodes after the first: a finite tree. */
  ghost predicate Shape(nodes: seq<Node>) {
    && nodes != []
    && (forall i :: 0 <= i < |nodes| ==> BlockOk(nodes, i))
    && (forall j :: 1 <= j < |nodes| ==> ParentOk(nodes, j))
  }

  predicate IsOriginal(b: Build, o: nat) {
    && 1 <= o < |b.nodes| && b.nodes[o].path.Some? && b.nodes[o].orig.None?
    && b.nodes[o].path.value in b.known && b.known[b.nodes[o].path.value].instance == o
  }

  /** A node is waiting, an original, a leaf duplicate of an original, or a missing leaf. */
  ghost predicate NodeOk(b: Build, i: nat)
    requires i < |b.nodes|
  {
    var x := b.nodes[i];
    if i in b.queue then x.path.Some? && x.orig.None? && x.mod == EMPTY_MODULE
    else if x.path.Some? then IsOriginal(b, i)
    else x.mod == EMPTY_MODULE && (x.orig.Some? ==> IsOriginal(b, x.orig.value))
  }

  ghost predicate KnownOk(b: Build, p: Path)
    requires p in b.known
  {
    var o := b.known[p].instance;
    && o < |b.nodes| && b.nodes[o].path == Some(p) && IsOriginal(b, o) && o !in b.queue
    && b.known[p].enpt == b.nodes[o].mod.enpt
  }

  ghost predicate Inv(b: Build) {
    && Shape(b.nodes)
    && Distinct(b.queue)
    && (forall i :: i in b.queue ==> 1 <= i < |b.nodes|)
    && (forall i :: 1 <= i < |b.nodes| ==> NodeOk(b, i))
    && (forall p :: p in b.known ==> KnownOk(b, p))
  }

  /** q names, in order, the located ones of the children base, base + 1, ... */
  ghost predicate Locates(w: World, main: Path, importer: Path, dlls: seq<Str>, base: nat, q: seq<nat>) {
    && Distinct(q)
    && (forall i :: i in q ==> base <= i < base + |dlls|)
    && forall i :: base <= i < base + |dlls| ==> (i in q <==> Locate(w, main, importer, dlls[i - base]).Some?)
  }

  lemma LocatesOneMore(w: World, main: Path, importer: Path, dlls: seq<Str>, base: nat, q: seq<nat>)
    requires dlls != [] && Locates(w, main, importer, dlls[1..], base + 1, q)
    ensures Locates(w, main, importer, dlls, base,
                    (if Locate(w, main, importer, dlls[0]).Some? then [base] else []) + q)
  {
    var first := if Locate(w, main, importer, dlls[0]).Some? then [base] else [];
    assert base !in q;
    DistinctConcat(first, q);
    forall i | base <= i < base + |dlls| ensures i in first + q <==> Locate(w, main, importer, dlls[i - base]).Some? {
      if i > base {
        assert dlls[1..][i - base - 1] == dlls[i - base];
      }
    }
  }

  lemma {:induction false} LocatedFromExactly(w: World, main: Path, importer: Path, dlls: seq<Str>, base: nat)
    ensures Locates(w, main, importer, dlls, base, LocatedFrom(w, main, importer, dlls, base))
  {
    if dlls == [] {
    } else {
      LocatedFromExactly(w, main, importer, dlls[1..], base + 1);
      LocatesOneMore(w, main, importer, dlls, base, LocatedFrom(w, main, importer, dlls[1..], base + 1));
    }
  }

  /** Processing the head takes it out of the queue and leaves the others in. */
  lemma QueueTail(b: Build)
    requires Inv(b) && b.queue != []
    ensures CanStep(b)
    ensures forall i :: i in b.queue[1..] <==> i in b.queue && i != b.queue[0]
    ensures Distinct(b.queue[1..])
  {
    assert b.queue[0] in b.queue;
    assert NodeOk(b, b.queue[0]);
    forall i ensures i in b.queue[1..] <==> i in b.queue && i != b.queue[0] {
      if i in b.queue && i != b.queue[0] {
        var k :| 0 <= k < |b.queue| && b.queue[k] == i;
        assert b.queue[1..][k - 1] == i;
      }
    }
  }

  lemma DuplicateKeepsInv(b: Build)
    requires Inv(b) && b.queue != [] && CanStep(b) && b.nodes[b.queue[0]].path.value in b.known
    ensures Inv(AsDuplicate(b))
  {
    QueueTail(b);
    var fi := b.queue[0];
    var c := AsDuplicate(b);
    var p := b.nodes[fi].path.value;
    assert NodeOk(b, fi) && KnownOk(b, p);
    assert forall j :: 0 <= j < |b.nodes| ==> Up(c.nodes, j) == Up(b.nodes, j);
    forall i | 0 <= i < |c.nodes| ensures BlockOk(c.nodes, i) {
      assert BlockOk(b.nodes, i);
    }
    forall j | 1 <= j < |c.nodes| ensures ParentOk(c.nodes, j) {
      assert ParentOk(b.nodes, j);
    }
    forall o: nat | IsOriginal(b, o) ensures IsOriginal(c, o) {
      assert KnownOk(b, b.nodes[o].path.value);
    }
    forall i | 1 <= i < |c.nodes| ensures NodeOk(c, i) {
      assert NodeOk(b, i);
    }
    forall q | q in c.known ensures KnownOk(c, q) {
      assert KnownOk(b, q);
    }
  }

  lemma OriginalKeepsShape(w: World, main: Path, b: Build)
    requires Inv(b) && b.queue != [] && CanStep(b) && b.nodes[b.queue[0]].path.value in w.load
    ensures Shape(AsOriginal(w, main, b).nodes)
  {
    var fi := b.queue[0];
    var c := AsOriginal(w, main, b);
    var n := |b.nodes|;
    assert NodeOk(b, fi);
    assert forall j :: 0 <= j < n ==> Up(c.nodes, j) == Up(b.nodes, j);
    forall i | 0 <= i < |c.nodes| ensures BlockOk(c.nodes, i) {
      if i < n {
        assert BlockOk(b.nodes, i);
      }
    }
    forall j | 1 <= j < |c.nodes| ensures ParentOk(c.nodes, j) {
      if j < n {
        assert ParentOk(b.nodes, j);
      }
    }
  }

  lemma OriginalKeepsInv(w: World, main: Path, b: Build)
    requires Inv(b) && b.queue != [] && CanStep(b) && b.nodes[b.queue[0]].path.value in w.load
    requires b.nodes[b.queue[0]].path.value !in b.known
    ensures Inv(AsOriginal(w, main, b))
  {
    QueueTail(b);
    OriginalKeepsShape(w, main, b);
    var fi := b.queue[0];
    var c := AsOriginal(w, main, b);
    var p := b.nodes[fi].path.value;
    var m := w.load[p];
    var n := |b.nodes|;
    var located := LocatedFrom(w, main, p, m.dlls, n);
    LocatedFromExactly(w, main, p, m.dlls, n);
    assert NodeOk(b, fi);
    forall o: nat | IsOriginal(b, o) ensures IsOriginal(c, o) {
      assert KnownOk(b, b.nodes[o].path.value);
    }
    forall i | 1 <= i < |c.nodes| ensures NodeOk(c, i) {
      if i < n {
        assert NodeOk(b, i);
      } else {
        assert c.nodes[i] == Child(w, main, p, fi, m.dlls[i - n]);
      }
    }
    DistinctConcat(b.queue[1..], located);
    forall q | q in c.known ensures KnownOk(c, q) {
      if q != p {
        assert KnownOk(b, q);
      }
    }
  }

  lemma DistinctConcat(s: seq<nat>, t: seq<nat>)
    requires Distinct(s) && Distinct(t) && forall i :: i in s ==> i !in t
    ensures Distinct(s + t)
  {
    var u := s + t;
    forall i, j | 0 <= i < j < |u| ensures u[i] != u[j] {
      if i < |s| <= j {
        assert u[i] == s[i] && u[j] == t[j - |s|] && s[i] in s && t[j - |s|] in t;
      }
    }
  }

  lemma StepKeepsInv(w: World, main: Path, b: Build)
    requires Inv(b) && b.queue != []
    ensures CanStep(b)
    ensures Step2(w, main, b).Some? ==> Inv(Step2(w, main, b).value)
  {
    QueueTail(b);
    var p := b.nodes[b.queue[0]].path.value;
    if p in b.known {
      DuplicateKeepsInv(b);
    } else if p in w.load {
      OriginalKeepsInv(w, main, b);
    }
  }
}
