/** Matching imports with exports over the whole tree: every import cell of every
    expanded module, the reverse index of every instance, and the used marks of
    every original. */
module PairAll {
  import opened Words
  import opened ExportTable
  import opened Matcher
  import opened DependencyTree
  import opened TreeOrder

  /** The m_matched_exports, m_matched_imports and m_are_used of all nodes. */
  datatype Matches = Matches(
    matched: seq<seq<seq<uint16>>>, back: seq<Option<seq<uint16>>>, used: seq<seq<bool>>)

  /** The original that node c stands for, if it is not missing. */
  function Proper(nodes: seq<Node>, c: nat): Option<nat>
    requires c < |nodes|
  {
    if nodes[c].orig.Some? then nodes[c].orig
    else if nodes[c].path.Some? then Some(c)
    else None
  }

  ghost predicate ProperOk(b: Build, c: nat)
    requires c < |b.nodes|
  {
    var o := Proper(b.nodes, c);
    o.Some? ==>
      && o.value < |b.nodes| && b.nodes[o.value].path.Some? && b.nodes[o.value].path.value in b.known
      && b.known[b.nodes[o.value].path.value] == Fat(o.value, b.nodes[o.value].mod.enpt)
      && WellFormed(b.nodes[o.value].mod.exports, b.nodes[o.value].mod.enpt)
  }

  ghost predicate SizesOk(m: Module) {
    && |m.imports| == |m.dlls| && |m.exports.ordinals| <= 0xFFFF
    && forall i :: 0 <= i < |m.imports| ==> |m.imports[i]| <= 0xFFFF
  }

  /** What the pass needs of a finished tree. */
  ghost predicate TreeOk(b: Build) {
    && Shape(b.nodes)
    && (forall i :: 0 <= i < |b.nodes| ==> SizesOk(b.nodes[i].mod))
    && (forall c :: 1 <= c < |b.nodes| ==> ProperOk(b, c))
  }

  // ---- Import rows, addressed by the child node they belong to ----

  function IndexInBlock(nodes: seq<Node>, c: nat): nat
    requires Shape(nodes) && 1 <= c < |nodes|
  {
    assert ParentOk(nodes, c);
    c - nodes[Up(nodes, c)].fis
  }

  ghost predicate HasRow(b: Build, m: Matches, c: nat)
    requires Shape(b.nodes) && 1 <= c < |b.nodes|
  {
    assert ParentOk(b.nodes, c);
    && Up(b.nodes, c) < |m.matched| && IndexInBlock(b.nodes, c) < |m.matched[Up(b.nodes, c)]|
    && IndexInBlock(b.nodes, c) < |b.nodes[Up(b.nodes, c)].mod.imports|
    && |Row(b, m, c)| == |ImportRow(b, c)| <= 0xFFFF
  }

  function ImportRow(b: Build, c: nat): seq<Import>
    requires Shape(b.nodes) && 1 <= c < |b.nodes|
    requires ParentOk(b.nodes, c) && IndexInBlock(b.nodes, c) < |b.nodes[Up(b.nodes, c)].mod.imports|
  {
    b.nodes[Up(b.nodes, c)].mod.imports[IndexInBlock(b.nodes, c)]
  }

  function Row(b: Build, m: Matches, c: nat): seq<uint16>
    requires Shape(b.nodes) && 1 <= c < |b.nodes|
    requires ParentOk(b.nodes, c)
    requires Up(b.nodes, c) < |m.matched| && IndexInBlock(b.nodes, c) < |m.matched[Up(b.nodes, c)]|
  {
    m.matched[Up(b.nodes, c)][IndexInBlock(b.nodes, c)]
  }

  /** What import k of child c must be matched with. */
  ghost function Resolved(b: Build, c: nat, imp: Import): uint16
    requires TreeOk(b) && 1 <= c < |b.nodes|
  {
    assert ProperOk(b, c);
    var o := Proper(b.nodes, c);
    if o.None? then NO_INDEX
    else Resolve(imp, b.nodes[o.value].mod.exports, b.nodes[o.value].mod.enpt)
  }

  // ---- The state of the pass ----

  ghost predicate Sizes(b: Build, m: Matches) {
    && |m.matched| == |m.back| == |m.used| == |b.nodes|
    && (forall f :: 0 <= f < |b.nodes| ==> |m.matched[f]| == |b.nodes[f].mod.imports|)
    && (forall f, i :: 0 <= f < |b.nodes| && 0 <= i < |m.matched[f]| ==>
          |m.matched[f][i]| == |b.nodes[f].mod.imports[i]|)
    && (forall o :: 0 <= o < |b.nodes| ==> |m.used[o]| == |b.nodes[o].mod.exports.ordinals|)
  }

  /** The row of a handled child holds its matches; another row is untouched. */
  ghost predicate RowOk(b: Build, done: set<nat>, m: Matches, c: nat)
    requires TreeOk(b) && 1 <= c < |b.nodes|
  {
    && HasRow(b, m, c)
    && if c in done
       then forall k :: 0 <= k < |Row(b, m, c)| ==> Row(b, m, c)[k] == Resolved(b, c, ImportRow(b, c)[k])
       else forall k :: 0 <= k < |Row(b, m, c)| ==> Row(b, m, c)[k] == UNMATCHED
  }

  /** A handled child that is not missing has the reverse index of its row. */
  ghost predicate BackOk(b: Build, done: set<nat>, m: Matches, c: nat)
    requires TreeOk(b) && 1 <= c < |b.nodes|
  {
    assert ProperOk(b, c);
    && HasRow(b, m, c) && c < |m.back|
    && if c in done && Proper(b.nodes, c).Some?
       then m.back[c].Some? && IsReverse(Row(b, m, c), m.back[c].value)
            && |m.back[c].value| == |b.nodes[Proper(b.nodes, c).value].mod.exports.ordinals|
       else m.back[c].None?
  }

  /** Child c stands for o and some import of its row is matched with export e. */
  ghost predicate Uses(b: Build, m: Matches, c: nat, o: nat, e: nat)
    requires Shape(b.nodes)
  {
    1 <= c < |b.nodes| && Proper(b.nodes, c) == Some(o) && HasRow(b, m, c) && e in Row(b, m, c)
  }

  /** Export e of original o is marked exactly when some handled child uses it. */
  ghost predicate UsedOk(b: Build, done: set<nat>, m: Matches, o: nat, e: nat)
    requires TreeOk(b)
  {
    o < |m.used| && e < |m.used[o]| && (m.used[o][e] <==> exists c :: c in done && Uses(b, m, c, o, e))
  }

  ghost predicate Paired(b: Build, done: set<nat>, m: Matches)
    requires TreeOk(b)
  {
    && Sizes(b, m)
    && (forall c {:trigger RowOk(b, done, m, c)} :: 1 <= c < |b.nodes| ==> RowOk(b, done, m, c))
    && (forall c {:trigger BackOk(b, done, m, c)} :: 1 <= c < |b.nodes| ==> BackOk(b, done, m, c))
    && (forall o, e {:trigger UsedOk(b, done, m, o, e)} :: 0 <= o < |b.nodes| && 0 <= e < |m.used[o]| ==>
          UsedOk(b, done, m, o, e))
  }

  /** The children of the given nodes. */
  ghost function ChildrenOf(nodes: seq<Node>, visited: seq<nat>): set<nat>
  {
    set c: nat | c < |nodes| && 1 <= c && Up(nodes, c) in visited
  }

  // ---- What holds after every child ----

  /** The icon of an export: the table of the program, -1 where it has no icon. */
  function IconId(isUsed: bool, isMatched: bool, isRva: bool, hasName: bool,
                  icons: (bool, bool, bool, bool) -> nat): int
  {
    if !isUsed && isMatched then -1 else icons(isUsed, isMatched, isRva, hasName)
  }

  function IsMatched(m: Matches, c: nat, e: nat): bool {
    c < |m.back| && m.back[c].Some? && e < |m.back[c].value| && m.back[c].value[e] != NO_INDEX
  }

  /** After every child of the pass a matched export is marked as used, for every
      instance, so the icon lookup never meets an entry without an icon. */
  lemma MatchedIsUsed(b: Build, done: set<nat>, m: Matches, c: nat, e: nat, isRva: bool, hasName: bool,
                      icons: (bool, bool, bool, bool) -> nat)
    requires TreeOk(b) && Paired(b, done, m) && 1 <= c < |b.nodes| && Proper(b.nodes, c).Some?
    requires ProperOk(b, c) && e < |b.nodes[Proper(b.nodes, c).value].mod.exports.ordinals|
    ensures var o := Proper(b.nodes, c).value;
            && e < |m.used[o]|
            && (IsMatched(m, c, e) ==> m.used[o][e])
            && IconId(m.used[o][e], IsMatched(m, c, e), isRva, hasName, icons) != -1
  {
    var o := Proper(b.nodes, c).value;
    assert ProperOk(b, c);
    assert BackOk(b, done, m, c) && UsedOk(b, done, m, o, e);
    if IsMatched(m, c, e) {
      var rev := m.back[c].value;
      assert LastMatch(Row(b, m, c), |Row(b, m, c)|, e, rev[e]);
      assert Row(b, m, c)[rev[e]] == e;
      assert c in done && Uses(b, m, c, o, e);
    }
  }

  // ---- The result ----

  ghost predicate AllPaired(b: Build, m: Matches)
    requires TreeOk(b)
  {
    Paired(b, ChildrenOf(b.nodes, Order(b.nodes)), m)
  }

  /** An import of the expanded module f, its number k in dll i, and what it resolves to. */
  ghost predicate ResolvesTo(b: Build, f: nat, i: nat, k: nat, o: nat, e: nat)
    requires TreeOk(b)
  {
    && 1 <= f < |b.nodes| && i < |b.nodes[f].mod.dlls| && k < |b.nodes[f].mod.imports[i]|
    && BlockOk(b.nodes, f) && ProperOk(b, b.nodes[f].fis + i)
    && Proper(b.nodes, b.nodes[f].fis + i) == Some(o)
    && Resolve(b.nodes[f].mod.imports[i][k], b.nodes[o].mod.exports, b.nodes[o].mod.enpt) == e
  }

  lemma ChildHasRow(b: Build, m: Matches, f: nat, i: nat)
    requires TreeOk(b) && Sizes(b, m) && f < |b.nodes| && i < |b.nodes[f].mod.dlls|
    ensures var c := b.nodes[f].fis + i;
            && 1 <= c < |b.nodes| && ParentOk(b.nodes, c) && Up(b.nodes, c) == f && IndexInBlock(b.nodes, c) == i
            && i < |m.matched[f]| && HasRow(b, m, c)
            && Row(b, m, c) == m.matched[f][i] && ImportRow(b, c) == b.nodes[f].mod.imports[i]
  {
    assert BlockOk(b.nodes, f) && SizesOk(b.nodes[f].mod);
    assert ParentOk(b.nodes, b.nodes[f].fis + i);
    assert |m.matched[f][i]| == |b.nodes[f].mod.imports[i]|;
  }

  /** A child that uses an export has an import resolved to it. */
  lemma UseHasImport(b: Build, done: set<nat>, m: Matches, c: nat, k: nat, o: nat, e: nat)
    requires TreeOk(b) && c in done && 1 <= c < |b.nodes| && Proper(b.nodes, c) == Some(o) && 1 <= Up(b.nodes, c)
    requires RowOk(b, done, m, c) && k < |Row(b, m, c)| && Row(b, m, c)[k] == e
    ensures ResolvesTo(b, Up(b.nodes, c), IndexInBlock(b.nodes, c), k, o, e)
  {
    assert ParentOk(b.nodes, c) && ProperOk(b, c);
    assert BlockOk(b.nodes, Up(b.nodes, c)) && SizesOk(b.nodes[Up(b.nodes, c)].mod);
  }

  /** A mark comes from an import. */
  lemma MarkHasImport(b: Build, m: Matches, o: nat, e: nat)
    requires TreeOk(b) && AllPaired(b, m) && o < |b.nodes| && o < |m.used| && e < |m.used[o]| && m.used[o][e]
    ensures exists f: nat, i: nat, k: nat :: ResolvesTo(b, f, i, k, o, e)
  {
    var done := ChildrenOf(b.nodes, Order(b.nodes));
    assert UsedOk(b, done, m, o, e);
    var c :| c in done && Uses(b, m, c, o, e);
    WalkVisitsEachOnce(b.nodes);
    assert RowOk(b, done, m, c) && ParentOk(b.nodes, c);
    var k :| 0 <= k < |Row(b, m, c)| && Row(b, m, c)[k] == e;
    UseHasImport(b, done, m, c, k, o, e);
  }

  /** An import sets a mark. */
  lemma ImportSetsMark(b: Build, m: Matches, f: nat, i: nat, k: nat, o: nat, e: nat)
    requires TreeOk(b) && AllPaired(b, m) && ResolvesTo(b, f, i, k, o, e)
    requires o < |m.used| && e < |m.used[o]| && e != NO_INDEX
    ensures m.used[o][e]
  {
    var done := ChildrenOf(b.nodes, Order(b.nodes));
    var c := b.nodes[f].fis + i;
    assert SizesOk(b.nodes[f].mod);
    ChildHasRow(b, m, f, i);
    WalkVisitsEachOnce(b.nodes);
    assert c in done && RowOk(b, done, m, c);
    assert Row(b, m, c)[k] == e;
    assert Uses(b, m, c, o, e);
    assert UsedOk(b, done, m, o, e);
  }

  /** After the pass the mark of an export is set if and only if some import
      anywhere in the tree resolves to it. */
  lemma UsedBitsExactly(b: Build, m: Matches, o: nat, e: nat)
    requires TreeOk(b) && AllPaired(b, m) && o < |b.nodes| && e < |b.nodes[o].mod.exports.ordinals|
    ensures o < |m.used| && e < |m.used[o]|
    ensures m.used[o][e] <==> exists f: nat, i: nat, k: nat :: ResolvesTo(b, f, i, k, o, e)
  {
    assert SizesOk(b.nodes[o].mod);
    if m.used[o][e] {
      MarkHasImport(b, m, o, e);
    }
    if f: nat, i: nat, k: nat :| ResolvesTo(b, f, i, k, o, e) {
      ImportSetsMark(b, m, f, i, k, o, e);
    }
  }

  /** After the pass every import cell of every expanded module holds its match. */
  lemma CellsExactly(b: Build, m: Matches, f: nat, i: nat, k: nat)
    requires TreeOk(b) && AllPaired(b, m) && 1 <= f < |b.nodes| && i < |b.nodes[f].mod.dlls|
    requires k < |b.nodes[f].mod.imports[i]|
    ensures i < |m.matched[f]| && k < |m.matched[f][i]|
    ensures BlockOk(b.nodes, f) && 1 <= b.nodes[f].fis + i < |b.nodes|
    ensures m.matched[f][i][k] == Resolved(b, b.nodes[f].fis + i, b.nodes[f].mod.imports[i][k])
  {
    var c := b.nodes[f].fis + i;
    assert BlockOk(b.nodes, f) && SizesOk(b.nodes[f].mod);
    ChildHasRow(b, m, f, i);
    WalkVisitsEachOnce(b.nodes);
    var done := ChildrenOf(b.nodes, Order(b.nodes));
    assert c in done && RowOk(b, done, m, c);
  }

  // ---- One child ----

  ghost function WithRow(m: Matches, f: nat, i: nat, row: seq<uint16>): Matches
    requires f < |m.matched| && i < |m.matched[f]|
  {
    m.(matched := m.matched[f := m.matched[f][i := row]])
  }

  lemma SameRow(m: Matches, f: nat, i: nat)
    requires f < |m.matched| && i < |m.matched[f]|
    ensures WithRow(m, f, i, m.matched[f][i]) == m
  {
    assert m.matched[f][i := m.matched[f][i]] == m.matched[f];
    assert m.matched[f := m.matched[f]] == m.matched;
  }

  lemma RowTwice(m: Matches, f: nat, i: nat, row: seq<uint16>, again: seq<uint16>)
    requires f < |m.matched| && i < |m.matched[f]|
    ensures WithRow(WithRow(m, f, i, row), f, i, again) == WithRow(m, f, i, again)
  {
    assert m.matched[f][i := row][i := again] == m.matched[f][i := again];
    assert m.matched[f := m.matched[f][i := row]][f := m.matched[f][i := again]]
           == m.matched[f := m.matched[f][i := again]];
  }

  /** What handling child c writes: its row, its reverse index, and marks of its original. */
  ghost predicate Handles(b: Build, m: Matches, n: Matches, c: nat)
    requires TreeOk(b) && 1 <= c < |b.nodes| && HasRow(b, m, c) && ParentOk(b.nodes, c) && ProperOk(b, c)
    requires c < |m.back| && |m.used| == |b.nodes|
  {
    var f, i := Up(b.nodes, c), IndexInBlock(b.nodes, c);
    && |n.matched| == |m.matched| && |n.matched[f]| == |m.matched[f]|
    && n.matched == WithRow(m, f, i, n.matched[f][i]).matched
    && |n.matched[f][i]| == |m.matched[f][i]|
    && (forall k :: 0 <= k < |n.matched[f][i]| ==> n.matched[f][i][k] == Resolved(b, c, ImportRow(b, c)[k]))
    && match Proper(b.nodes, c)
       case None => n.back == m.back && n.used == m.used
       case Some(o) =>
         && |n.back| == |m.back| && n.back[c].Some? && n.back == m.back[c := n.back[c]]
         && IsReverse(n.matched[f][i], n.back[c].value)
         && |n.back[c].value| == |b.nodes[o].mod.exports.ordinals|
         && |n.used| == |m.used| && n.used == m.used[o := n.used[o]] && |n.used[o]| == |m.used[o]|
         && forall e :: 0 <= e < |m.used[o]| ==> (n.used[o][e] <==> m.used[o][e] || e in n.matched[f][i])
  }

  lemma RowsApart(b: Build, c: nat, d: nat)
    requires Shape(b.nodes) && 1 <= c < |b.nodes| && 1 <= d < |b.nodes| && c != d
    ensures Up(b.nodes, c) == Up(b.nodes, d) ==> IndexInBlock(b.nodes, c) != IndexInBlock(b.nodes, d)
  {
  }

  lemma HandlesFrame(b: Build, m: Matches, n: Matches, c: nat, d: nat)
    requires TreeOk(b) && Sizes(b, m) && 1 <= c < |b.nodes| && HasRow(b, m, c) && ParentOk(b.nodes, c) && ProperOk(b, c)
    requires Handles(b, m, n, c) && 1 <= d < |b.nodes| && HasRow(b, m, d) && ParentOk(b.nodes, d)
    ensures HasRow(b, n, d) && (d != c ==> Row(b, n, d) == Row(b, m, d) && n.back[d] == m.back[d])
  {
    if d != c {
      RowsApart(b, c, d);
    }
  }

  lemma HandlesKeepsSizes(b: Build, m: Matches, n: Matches, c: nat)
    requires TreeOk(b) && Sizes(b, m) && 1 <= c < |b.nodes| && HasRow(b, m, c) && ParentOk(b.nodes, c) && ProperOk(b, c)
    requires Handles(b, m, n, c)
    ensures Sizes(b, n)
  {
  }

  /** Handling one more child keeps the pass on track. */
  lemma HandlesKeepsPaired(b: Build, done: set<nat>, m: Matches, n: Matches, c: nat)
    requires TreeOk(b) && Paired(b, done, m) && 1 <= c < |b.nodes| && c !in done
    requires HasRow(b, m, c) && ParentOk(b.nodes, c) && ProperOk(b, c)
    requires Handles(b, m, n, c)
    ensures Paired(b, done + {c}, n)
  {
    HandlesKeepsSizes(b, m, n, c);
    forall d | 1 <= d < |b.nodes| ensures RowOk(b, done + {c}, n, d) && BackOk(b, done + {c}, n, d) {
      assert RowOk(b, done, m, d) && BackOk(b, done, m, d) && ParentOk(b.nodes, d);
      HandlesFrame(b, m, n, c, d);
    }
    forall o, e | 0 <= o < |b.nodes| && 0 <= e < |n.used[o]| ensures UsedOk(b, done + {c}, n, o, e) {
      UsedStep(b, done, m, n, c, o, e);
    }
  }

  /** A child handled before uses what it used. */
  lemma UsesFrame(b: Build, done: set<nat>, m: Matches, n: Matches, c: nat, d: nat, o: nat, e: nat)
    requires TreeOk(b) && Paired(b, done, m) && 1 <= c < |b.nodes| && d != c
    requires HasRow(b, m, c) && ParentOk(b.nodes, c) && ProperOk(b, c) && Handles(b, m, n, c)
    ensures Uses(b, n, d, o, e) <==> Uses(b, m, d, o, e)
  {
    if 1 <= d < |b.nodes| {
      assert RowOk(b, done, m, d) && ParentOk(b.nodes, d);
      HandlesFrame(b, m, n, c, d);
    }
  }

  /** The marks of an original after one more child. */
  lemma MarksAfter(b: Build, m: Matches, n: Matches, c: nat, o: nat, e: nat)
    requires TreeOk(b) && Sizes(b, m) && 1 <= c < |b.nodes| && HasRow(b, m, c)
    requires ParentOk(b.nodes, c) && ProperOk(b, c) && Handles(b, m, n, c)
    requires o < |b.nodes| && o < |n.used| && e < |n.used[o]|
    ensures o < |m.used| && e < |m.used[o]| && (n.used[o][e] <==> m.used[o][e] || Uses(b, n, c, o, e))
  {
    HandlesFrame(b, m, n, c, c);
  }

  lemma UsedStep(b: Build, done: set<nat>, m: Matches, n: Matches, c: nat, o: nat, e: nat)
    requires TreeOk(b) && Paired(b, done, m) && 1 <= c < |b.nodes| && c !in done
    requires HasRow(b, m, c) && ParentOk(b.nodes, c) && ProperOk(b, c)
    requires Handles(b, m, n, c)
    requires o < |b.nodes| && o < |n.used| && e < |n.used[o]|
    ensures UsedOk(b, done + {c}, n, o, e)
  {
    MarksAfter(b, m, n, c, o, e);
    assert UsedOk(b, done, m, o, e);
    forall d | d in done ensures Uses(b, n, d, o, e) <==> Uses(b, m, d, o, e) {
      UsesFrame(b, done, m, n, c, d, o, e);
    }
    assert c in done + {c};
  }

  /** Nothing is handled before the pass. */
  ghost predicate Untouched(b: Build, m: Matches) {
    && Sizes(b, m)
    && (forall f, i, k :: 0 <= f < |b.nodes| && 0 <= i < |m.matched[f]| && 0 <= k < |m.matched[f][i]| ==>
          m.matched[f][i][k] == UNMATCHED)
    && (forall c :: 0 <= c < |b.nodes| ==> m.back[c].None?)
    && (forall o, e :: 0 <= o < |b.nodes| && 0 <= e < |m.used[o]| ==> !m.used[o][e])
  }

  lemma PairedInitially(b: Build, m: Matches)
    requires TreeOk(b) && Untouched(b, m)
    ensures Paired(b, {}, m)
  {
    forall c | 1 <= c < |b.nodes| ensures RowOk(b, {}, m, c) && BackOk(b, {}, m, c) {
      assert ParentOk(b.nodes, c) && SizesOk(b.nodes[Up(b.nodes, c)].mod);
      ChildHasRow(b, m, Up(b.nodes, c), IndexInBlock(b.nodes, c));
    }
  }

  // ---- The pass in place ----

  class Pairing {
    const b: Build
    var m: Matches

    constructor (b: Build)
      requires TreeOk(b)
      ensures this.b == b && Untouched(b, m)
    {
      this.b := b;
      m := Matches(
        seq(|b.nodes|, f requires 0 <= f < |b.nodes| => EmptyRows(b.nodes[f].mod.imports)),
        seq(|b.nodes|, _ => None),
        seq(|b.nodes|, o requires 0 <= o < |b.nodes| => seq(|b.nodes[o].mod.exports.ordinals|, _ => false)));
    }

    /** pair_imports_with_exports: every cell of one row, each written once. */
    method PairImports(f: nat, i: nat, exports: ExportInfo, enpt: seq<uint16>)
      requires f < |b.nodes| && f < |m.matched| && i < |m.matched[f]| && i < |b.nodes[f].mod.imports|
      requires |m.matched[f][i]| == |b.nodes[f].mod.imports[i]| && WellFormed(exports, enpt)
      requires forall k :: 0 <= k < |m.matched[f][i]| ==> m.matched[f][i][k] == UNMATCHED
      modifies this
      ensures |m.matched| == |old(m).matched| && |m.matched[f]| == |old(m).matched[f]|
      ensures m == WithRow(old(m), f, i, m.matched[f][i])
      ensures |m.matched[f][i]| == |b.nodes[f].mod.imports[i]|
      ensures forall k :: 0 <= k < |m.matched[f][i]| ==>
                m.matched[f][i][k] == Resolve(b.nodes[f].mod.imports[i][k], exports, enpt)
    {
      var imports := b.nodes[f].mod.imports[i];
      SameRow(m, f, i);
      var k := 0;
      while k != |imports|
        invariant 0 <= k <= |imports|
        invariant |m.matched| == |old(m).matched| && |m.matched[f]| == |old(m).matched[f]|
        invariant m == WithRow(old(m), f, i, m.matched[f][i])
        invariant |m.matched[f][i]| == |imports|
        invariant forall l :: 0 <= l < k ==> m.matched[f][i][l] == Resolve(imports[l], exports, enpt)
        invariant forall l :: k <= l < |imports| ==> m.matched[f][i][l] == UNMATCHED
      {
        assert m.matched[f][i][k] == UNMATCHED;
        var e := MatchImport(imports[k], exports, enpt);
        RowTwice(old(m), f, i, m.matched[f][i], m.matched[f][i][k := e]);
        m := m.(matched := m.matched[f := m.matched[f][i := m.matched[f][i][k := e]]]);
        k := k + 1;
      }
    }

    /** The body of the callback's loop for child number i of f. */
    method PairChild(f: nat, i: nat, ghost done: set<nat>)
      requires TreeOk(b) && Paired(b, done, m) && f < |b.nodes| && i < Count(b.nodes, f)
      requires b.nodes[f].fis + i !in done
      modifies this
      ensures Paired(b, done + {b.nodes[f].fis + i}, m)
    {
      var c := b.nodes[f].fis + i;
      assert SizesOk(b.nodes[f].mod);
      ChildHasRow(b, m, f, i);
      assert RowOk(b, done, m, c) && BackOk(b, done, m, c) && ProperOk(b, c);
      ghost var was := m;
      if b.nodes[c].path.None? && b.nodes[c].orig.None? {
        m := m.(matched := m.matched[f := m.matched[f][i := seq(|m.matched[f][i]|, _ => NO_INDEX)]]);
      } else {
        var o := if b.nodes[c].orig.Some? then b.nodes[c].orig.value else c;
        var enpt := b.known[b.nodes[o].path.value].enpt;
        PairImports(f, i, b.nodes[o].mod.exports, enpt);
        PairExports(c, f, i, o);
      }
      HandlesKeepsPaired(b, done, was, m, c);
    }

    /** pair_exports_with_imports for instance c of original o. */
    method PairExports(c: nat, f: nat, i: nat, o: nat)
      requires f < |m.matched| && i < |m.matched[f]| && c < |m.back| && o < |m.used| && o < |b.nodes|
      requires |m.matched[f][i]| <= 0xFFFF && |m.used[o]| == |b.nodes[o].mod.exports.ordinals| <= 0xFFFF
      requires forall k :: 0 <= k < |m.matched[f][i]| ==>
                 m.matched[f][i][k] == NO_INDEX || m.matched[f][i][k] < |m.used[o]|
      modifies this
      ensures m.matched == old(m).matched
      ensures |m.back| == |old(m).back| && m.back[c].Some? && m.back == old(m).back[c := m.back[c]]
      ensures |m.used| == |old(m).used|
      ensures IsReverse(m.matched[f][i], m.back[c].value) && |m.back[c].value| == |m.used[o]|
      ensures |m.used[o]| == |old(m).used[o]| && m.used == old(m).used[o := m.used[o]]
      ensures forall e :: 0 <= e < |m.used[o]| ==> (m.used[o][e] <==> old(m).used[o][e] || e in m.matched[f][i])
    {
      var rev, used := PairExportsWithImports(m.matched[f][i], |b.nodes[o].mod.exports.ordinals|, m.used[o]);
      m := Matches(m.matched, m.back[c := Some(rev)], m.used[o := used]);
    }

    /** The callback of pair_all: all children of one node. */
    method PairNode(f: nat, ghost visited: seq<nat>)
      requires TreeOk(b) && f < |b.nodes| && f !in visited
      requires Paired(b, ChildrenOf(b.nodes, visited), m)
      modifies this
      ensures Paired(b, ChildrenOf(b.nodes, visited + [f]), m)
    {
      var n := Count(b.nodes, f);
      ghost var done: set<nat> := ChildrenOf(b.nodes, visited);
      var i := 0;
      while i != n
        invariant 0 <= i <= n
        invariant Paired(b, done, m)
        invariant done == ChildrenOf(b.nodes, visited) + FirstChildren(b.nodes, f, i)
        decreases n - i
      {
        assert BlockOk(b.nodes, f);
        PairChild(f, i, done);
        done := done + {b.nodes[f].fis + i};
        i := i + 1;
      }
      AllChildren(b.nodes, f, visited);
    }

    /** depth_first_visit with that callback, below node i. */
    method Visit(i: nat, ghost visited: seq<nat>)
      requires TreeOk(b) && i < |b.nodes| && CanVisit(b.nodes, visited, i, 0)
      requires Paired(b, ChildrenOf(b.nodes, visited), m)
      modifies this
      ensures Paired(b, ChildrenOf(b.nodes, Calls(b.nodes, visited, i, 0)), m)
      decreases |b.nodes| - i, 1
    {
      ghost var done: seq<nat> := visited;
      var n := Count(b.nodes, i);
      var k := 0;
      while k != n
        invariant 0 <= k <= n
        invariant Calls(b.nodes, done, i, k) == Calls(b.nodes, visited, i, 0)
        invariant CanVisit(b.nodes, done, i, k)
        invariant Paired(b, ChildrenOf(b.nodes, done), m)
        decreases n - k
      {
        done := VisitChild(i, k, done);
        k := k + 1;
      }
      assert Calls(b.nodes, done, i, k) == done;
    }

    method VisitChild(i: nat, k: nat, ghost done: seq<nat>) returns (ghost below: seq<nat>)
      requires TreeOk(b) && i < |b.nodes| && k < Count(b.nodes, i) && CanVisit(b.nodes, done, i, k)
      requires Paired(b, ChildrenOf(b.nodes, done), m)
      modifies this
      ensures Calls(b.nodes, below, i, k + 1) == Calls(b.nodes, done, i, k)
      ensures CanVisit(b.nodes, below, i, k + 1)
      ensures Paired(b, ChildrenOf(b.nodes, below), m)
      decreases |b.nodes| - i, 0
    {
      ghost var c, called, after := WalkSplit(b.nodes, i, k, done);
      var child := b.nodes[i].fis + k;
      PairNode(child, done);
      Visit(child, called);
      below := after;
    }

    method PairAll()
      requires TreeOk(b) && Untouched(b, m)
      modifies this
      ensures AllPaired(b, m)
    {
      WalkVisitsEachOnce(b.nodes);
      PairedInitially(b, m);
      assert ChildrenOf(b.nodes, []) == {};
      assert Calls(b.nodes, [], 0, 0) == Order(b.nodes);
      Visit(0, []);
    }
  }

  ghost function FirstChildren(nodes: seq<Node>, f: nat, i: nat): (s: set<nat>)
    requires f < |nodes|
    ensures forall c: nat :: c in s <==> nodes[f].fis <= c < nodes[f].fis + i
  {
    if i == 0 then {} else FirstChildren(nodes, f, i - 1) + {nodes[f].fis + i - 1}
  }

  lemma AllChildren(nodes: seq<Node>, f: nat, visited: seq<nat>)
    requires Shape(nodes) && f < |nodes|
    ensures ChildrenOf(nodes, visited + [f]) == ChildrenOf(nodes, visited) + FirstChildren(nodes, f, Count(nodes, f))
  {
    assert BlockOk(nodes, f);
    forall c: nat | c < |nodes| && 1 <= c
      ensures Up(nodes, c) == f <==> nodes[f].fis <= c < nodes[f].fis + Count(nodes, f)
    {
      assert ParentOk(nodes, c);
    }
  }

  function EmptyRows(imports: seq<seq<Import>>): seq<seq<uint16>> {
    seq(|imports|, i requires 0 <= i < |imports| => seq(|imports[i]|, _ => UNMATCHED))
  }
}
