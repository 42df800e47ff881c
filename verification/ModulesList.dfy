/** The list of all modules: one node for each missing name up to case and the
    original of every located file, sorted with the missing ones in front. */
module ModulesList {
  import opened Words
  import opened Text
  import opened DependencyTree
  import opened TreeOrder
  import opened InstanceRing
  import opened PairAll
  import opened Sorting

  predicate IsMissing(nodes: seq<Node>, c: nat)
    requires c < |nodes|
  {
    nodes[c].path.None? && nodes[c].orig.None?
  }

  /** get_dll_name_no_path: the name under which the parent imports node c. */
  function DllName(nodes: seq<Node>, c: nat): Str
    requires Shape(nodes) && 1 <= c < |nodes|
  {
    assert ParentOk(nodes, c);
    nodes[Up(nodes, c)].mod.dlls[IndexInBlock(nodes, c)]
  }

  /** The child for DLL i of a node goes by the i-th name in that node's tables. */
  lemma DllNameIsImport(nodes: seq<Node>, f: nat, i: nat)
    requires Shape(nodes) && f < |nodes| && i < |nodes[f].mod.dlls|
    ensures 1 <= nodes[f].fis + i < |nodes|
    ensures DllName(nodes, nodes[f].fis + i) == nodes[f].mod.dlls[i]
  {
    assert BlockOk(nodes, f);
  }

  /** What a listed node is sorted by. */
  function SortText(nodes: seq<Node>, c: nat): Str
    requires Shape(nodes) && 1 <= c < |nodes|
  {
    if nodes[c].path.Some? then nodes[c].path.value else DllName(nodes, c)
  }

  /** compare_fi_by_path_or_name. */
  predicate ListedBefore(nodes: seq<Node>, a: nat, b: nat)
    requires Shape(nodes) && 1 <= a < |nodes| && 1 <= b < |nodes|
  {
    if nodes[a].path.Some? && nodes[b].path.Some? then FoldedLess(nodes[a].path.value, nodes[b].path.value)
    else if nodes[a].path.None? && nodes[b].path.None? then FoldedLess(DllName(nodes, a), DllName(nodes, b))
    else nodes[a].path.None? && nodes[b].path.Some?
  }

  function ListOrder(nodes: seq<Node>): (nat, nat) -> bool
    requires Shape(nodes)
  {
    (a: nat, b: nat) => 1 <= a < |nodes| && 1 <= b < |nodes| && ListedBefore(nodes, a, b)
  }

  // ---- When the comparison is an order ----

  /** No two listed nodes of one kind differ by a space-like continuation only. */
  ghost predicate NoSpaceClash(nodes: seq<Node>, s: seq<nat>)
    requires Shape(nodes) && forall c :: c in s ==> 1 <= c < |nodes|
  {
    forall a, b :: a in s && b in s && nodes[a].path.Some? == nodes[b].path.Some? ==>
      !SpaceExtension(SortText(nodes, a), SortText(nodes, b))
  }

  /** Ties are nodes of one kind whose texts are equal up to case. */
  ghost predicate TiesAreEqualTexts(nodes: seq<Node>, s: seq<nat>)
    requires Shape(nodes) && forall c :: c in s ==> 1 <= c < |nodes|
  {
    forall a, b :: a in s && b in s ==>
      ((!ListedBefore(nodes, a, b) && !ListedBefore(nodes, b, a)) <==>
       (nodes[a].path.Some? == nodes[b].path.Some? && CiEqual(SortText(nodes, a), SortText(nodes, b))))
  }

  /** Nodes a and c of one kind whose texts both continue that of b with a space-like
      unit, and a is the lesser. */
  ghost predicate BreaksOrder(nodes: seq<Node>, a: nat, b: nat, c: nat)
    requires Shape(nodes) && 1 <= a < |nodes| && 1 <= b < |nodes| && 1 <= c < |nodes|
  {
    && nodes[a].path.Some? == nodes[b].path.Some? == nodes[c].path.Some?
    && Breaks(SortText(nodes, a), SortText(nodes, b), SortText(nodes, c))
  }

  lemma ListedNotBoth(nodes: seq<Node>, a: nat, b: nat)
    requires Shape(nodes) && 1 <= a < |nodes| && 1 <= b < |nodes| && ListedBefore(nodes, a, b)
    ensures !ListedBefore(nodes, b, a)
  {
    if nodes[a].path.Some? == nodes[b].path.Some? {
      FoldedLessAsymmetric(SortText(nodes, a), SortText(nodes, b));
    }
  }

  lemma ListedNotLess(nodes: seq<Node>, a: nat, b: nat, c: nat)
    requires Shape(nodes) && 1 <= a < |nodes| && 1 <= b < |nodes| && 1 <= c < |nodes|
    requires !ListedBefore(nodes, b, a) && !ListedBefore(nodes, c, b) && ListedBefore(nodes, c, a)
    ensures BreaksOrder(nodes, c, b, a)
  {
    NotLessChain(SortText(nodes, a), SortText(nodes, b), SortText(nodes, c));
  }

  /** The comparison is a strict weak order on the listed nodes, as std::sort requires,
      if and only if no text among them has two space-like continuations of its kind
      that do not tie. */
  lemma ListOrderExactly(nodes: seq<Node>, s: seq<nat>)
    requires Shape(nodes) && forall c :: c in s ==> 1 <= c < |nodes|
    ensures WeakOrder(ListOrder(nodes), s) <==>
              forall a, b, c :: a in s && b in s && c in s ==> !BreaksOrder(nodes, a, b, c)
  {
    var lt := ListOrder(nodes);
    if a, b, c :| a in s && b in s && c in s && BreaksOrder(nodes, a, b, c) {
      TiesExactly(SortText(nodes, b), SortText(nodes, a));
      TiesExactly(SortText(nodes, b), SortText(nodes, c));
      assert !lt(a, b) && !lt(b, c) && lt(a, c);
    } else {
      forall a, b | a in s && b in s && lt(a, b) ensures !lt(b, a) {
        ListedNotBoth(nodes, a, b);
      }
      forall a, b, c | a in s && b in s && c in s && !lt(b, a) && !lt(c, b) ensures !lt(c, a) {
        if lt(c, a) {
          ListedNotLess(nodes, a, b, c);
        }
      }
    }
  }

  /** Its ties are nodes of one kind with texts equal up to case exactly when no two of
      them clash on a space. */
  lemma ListTiesExactly(nodes: seq<Node>, s: seq<nat>)
    requires Shape(nodes) && forall c :: c in s ==> 1 <= c < |nodes|
    ensures NoSpaceClash(nodes, s) <==> TiesAreEqualTexts(nodes, s)
  {
    forall a, b | a in s && b in s && nodes[a].path.Some? == nodes[b].path.Some?
      ensures (!ListedBefore(nodes, a, b) && !ListedBefore(nodes, b, a)) <==>
              (CiEqual(SortText(nodes, a), SortText(nodes, b)) || SpaceExtension(SortText(nodes, a), SortText(nodes, b))
               || SpaceExtension(SortText(nodes, b), SortText(nodes, a)))
    {
      TiesExactly(SortText(nodes, a), SortText(nodes, b));
    }
    if a, b :| a in s && b in s && nodes[a].path.Some? == nodes[b].path.Some?
                && SpaceExtension(SortText(nodes, a), SortText(nodes, b)) {
      assert |FoldAll(SortText(nodes, a))| < |FoldAll(SortText(nodes, b))|;
      assert !CiEqual(SortText(nodes, a), SortText(nodes, b));
      assert !ListedBefore(nodes, a, b) && !ListedBefore(nodes, b, a);
    }
  }

  // ---- Collecting ----

  predicate SameName(nodes: seq<Node>, a: nat, b: nat)
    requires Shape(nodes) && 1 <= a < |nodes| && 1 <= b < |nodes|
  {
    CiEqual(DllName(nodes, a), DllName(nodes, b))
  }

  lemma SameNameExactly(nodes: seq<Node>, a: nat, b: nat)
    requires Shape(nodes) && 1 <= a < |nodes| && 1 <= b < |nodes|
    ensures SameName(nodes, a, b) <==> SameButCase(DllName(nodes, a), DllName(nodes, b))
  {
    CiEqualExactly(DllName(nodes, a), DllName(nodes, b));
  }

  ghost predicate Nodes(nodes: seq<Node>, s: seq<nat>) {
    forall i :: 0 <= i < |s| ==> 1 <= s[i] < |nodes|
  }

  /** The first n visited nodes are represented: one missing node per name. */
  ghost predicate Represents(nodes: seq<Node>, s: seq<nat>, order: seq<nat>, n: nat)
    requires Shape(nodes) && n <= |order| && Nodes(nodes, order) && Nodes(nodes, s)
  {
    && (forall i :: 0 <= i < |s| ==> IsMissing(nodes, s[i]))
    && (forall i, j :: 0 <= i < j < |s| ==> !SameName(nodes, s[i], s[j]))
    && (forall k :: 0 <= k < n && IsMissing(nodes, order[k]) ==> Represented(nodes, s, order[k]))
  }

  ghost predicate Represented(nodes: seq<Node>, s: seq<nat>, c: nat)
    requires Shape(nodes) && 1 <= c < |nodes| && Nodes(nodes, s)
  {
    exists i :: 0 <= i < |s| && SameName(nodes, s[i], c)
  }

  /** A missing node with a new name becomes the representative of its name. */
  lemma NewName(nodes: seq<Node>, s: seq<nat>, order: seq<nat>, k: nat)
    requires Shape(nodes) && k < |order| && Nodes(nodes, order) && Nodes(nodes, s)
    requires Represents(nodes, s, order, k) && IsMissing(nodes, order[k]) && !Represented(nodes, s, order[k])
    ensures Nodes(nodes, s + [order[k]]) && Represents(nodes, s + [order[k]], order, k + 1)
  {
    var c := order[k];
    var t := s + [c];
    forall d | 1 <= d < |nodes| && Represented(nodes, s, d) ensures Represented(nodes, t, d) {
      var i :| 0 <= i < |s| && SameName(nodes, s[i], d);
      assert SameName(nodes, t[i], d);
    }
    assert SameName(nodes, t[|s|], c);
  }

  method CollectMissing(nodes: seq<Node>) returns (s: seq<nat>)
    requires Shape(nodes)
    ensures Nodes(nodes, s) && Nodes(nodes, Order(nodes))
    ensures Represents(nodes, s, Order(nodes), |Order(nodes)|)
  {
    var order := Order(nodes);
    OrderMembers(nodes);
    forall k | 0 <= k < |order| ensures 1 <= order[k] < |nodes| {
      assert order[k] in order;
    }
    s := [];
    var k := 0;
    while k != |order|
      invariant 0 <= k <= |order| && Nodes(nodes, order) && Nodes(nodes, s)
      invariant Represents(nodes, s, order, k)
    {
      var c := order[k];
      if IsMissing(nodes, c) {
        var known := exists i :: 0 <= i < |s| && SameName(nodes, s[i], c);
        if !known {
          NewName(nodes, s, order, k);
          s := s + [c];
        }
      }
      k := k + 1;
    }
  }

  /** The originals, in the arbitrary order of the hash set. */
  method CollectOriginals(b: Build) returns (s: seq<nat>)
    requires Inv(b)
    ensures Distinct(s) && Nodes(b.nodes, s)
    ensures forall o: nat :: o in s <==> IsOriginal(b, o)
  {
    s := [];
    var rest := b.known.Keys;
    while rest != {}
      invariant rest <= b.known.Keys
      invariant Distinct(s) && Nodes(b.nodes, s)
      invariant forall o: nat :: o in s <==> IsOriginal(b, o) && b.nodes[o].path.value !in rest
      decreases |rest|
    {
      var p :| p in rest;
      assert KnownOk(b, p);
      s := s + [b.known[p].instance];
      rest := rest - {p};
    }
  }

  /** The finished list. */
  ghost predicate ListOk(b: Build, list: seq<nat>)
    requires Inv(b)
  {
    && Distinct(list) && Nodes(b.nodes, list)
    && (forall o: nat :: IsOriginal(b, o) ==> o in list)
    && (forall i :: 0 <= i < |list| ==> IsMissing(b.nodes, list[i]) || IsOriginal(b, list[i]))
    && (forall i, j :: 0 <= i < j < |list| && IsMissing(b.nodes, list[i]) && IsMissing(b.nodes, list[j]) ==>
          !SameName(b.nodes, list[i], list[j]))
    && (forall c :: 1 <= c < |b.nodes| && IsMissing(b.nodes, c) ==>
          exists i :: 0 <= i < |list| && IsMissing(b.nodes, list[i]) && SameName(b.nodes, list[i], c))
  }

  ghost predicate Sorted(nodes: seq<Node>, list: seq<nat>)
    requires Shape(nodes) && Nodes(nodes, list)
  {
    forall i, j :: 0 <= i < j < |list| ==> !ListedBefore(nodes, list[j], list[i])
  }

  lemma Members(nodes: seq<Node>, s: seq<nat>)
    ensures Nodes(nodes, s) <==> forall c :: c in s ==> 1 <= c < |nodes|
  {
    if Nodes(nodes, s) {
      forall c | c in s ensures 1 <= c < |nodes| {
        var i :| 0 <= i < |s| && s[i] == c;
      }
    } else {
      var i :| 0 <= i < |s| && !(1 <= s[i] < |nodes|);
      assert s[i] in s;
    }
  }

  lemma MissingIsDistinct(nodes: seq<Node>, missing: seq<nat>, order: seq<nat>)
    requires Shape(nodes) && Nodes(nodes, order) && Nodes(nodes, missing)
    requires Represents(nodes, missing, order, |order|)
    ensures Distinct(missing) && forall c :: c in missing ==> 1 <= c < |nodes| && IsMissing(nodes, c)
  {
    forall i, j | 0 <= i < j < |missing| ensures missing[i] != missing[j] {
      assert !SameName(nodes, missing[i], missing[j]);
    }
    Members(nodes, missing);
  }

  lemma NamesApart(nodes: seq<Node>, missing: seq<nat>, order: seq<nat>, c: nat, d: nat)
    requires Shape(nodes) && Nodes(nodes, order) && Nodes(nodes, missing)
    requires Represents(nodes, missing, order, |order|)
    requires c in missing && d in missing && c != d && 1 <= c < |nodes| && 1 <= d < |nodes|
    ensures !SameName(nodes, c, d)
  {
    var k :| 0 <= k < |missing| && missing[k] == c;
    var l :| 0 <= l < |missing| && missing[l] == d;
    if k < l {
      assert !SameName(nodes, missing[k], missing[l]);
    } else {
      assert !SameName(nodes, missing[l], missing[k]);
    }
  }

  /** Representatives and originals are different nodes. */
  lemma JoinedIsDistinct(b: Build, missing: seq<nat>, originals: seq<nat>, list: seq<nat>)
    requires Inv(b) && Distinct(missing) && Distinct(originals)
    requires forall c :: c in missing ==> 1 <= c < |b.nodes| && IsMissing(b.nodes, c)
    requires forall o: nat :: o in originals <==> IsOriginal(b, o)
    requires multiset(list) == multiset(missing + originals)
    ensures Distinct(list) && forall c :: c in list <==> c in missing || c in originals
  {
    SameElements(missing + originals, list);
    forall o | o in originals ensures o !in missing {
      assert IsOriginal(b, o);
    }
    DistinctConcat(missing, originals);
    RearrangedIsDistinct(missing + originals, list);
  }

  /** Every missing node has its name in the list. */
  lemma NameIsListed(b: Build, missing: seq<nat>, list: seq<nat>, c: nat)
    requires Shape(b.nodes) && Nodes(b.nodes, missing) && Nodes(b.nodes, Order(b.nodes))
    requires Represents(b.nodes, missing, Order(b.nodes), |Order(b.nodes)|)
    requires forall d :: d in missing ==> d in list && 1 <= d < |b.nodes| && IsMissing(b.nodes, d)
    requires Nodes(b.nodes, list) && 1 <= c < |b.nodes| && IsMissing(b.nodes, c)
    ensures exists i :: 0 <= i < |list| && IsMissing(b.nodes, list[i]) && SameName(b.nodes, list[i], c)
  {
    OrderMembers(b.nodes);
    assert c in Order(b.nodes);
    var k :| 0 <= k < |Order(b.nodes)| && Order(b.nodes)[k] == c;
    assert Represented(b.nodes, missing, Order(b.nodes)[k]);
    var i :| 0 <= i < |missing| && SameName(b.nodes, missing[i], c);
    assert missing[i] in missing;
    var j :| 0 <= j < |list| && list[j] == missing[i];
  }

  /** Joining representatives and originals, in any arrangement, gives the list. */
  lemma JoinedIsList(b: Build, missing: seq<nat>, originals: seq<nat>, list: seq<nat>)
    requires Inv(b) && b.queue == []
    requires Nodes(b.nodes, missing) && Nodes(b.nodes, originals) && Nodes(b.nodes, Order(b.nodes))
    requires Represents(b.nodes, missing, Order(b.nodes), |Order(b.nodes)|)
    requires Distinct(originals) && forall o: nat :: o in originals <==> IsOriginal(b, o)
    requires multiset(list) == multiset(missing + originals)
    ensures ListOk(b, list)
  {
    MissingIsDistinct(b.nodes, missing, Order(b.nodes));
    JoinedIsDistinct(b, missing, originals, list);
    Members(b.nodes, originals);
    Members(b.nodes, list);
    forall i | 0 <= i < |list| ensures IsMissing(b.nodes, list[i]) || IsOriginal(b, list[i]) {
      assert list[i] in list;
    }
    forall i, j | 0 <= i < j < |list| && IsMissing(b.nodes, list[i]) && IsMissing(b.nodes, list[j])
      ensures !SameName(b.nodes, list[i], list[j])
    {
      assert list[i] in list && list[j] in list;
      NamesApart(b.nodes, missing, Order(b.nodes), list[i], list[j]);
    }
    forall c | 1 <= c < |b.nodes| && IsMissing(b.nodes, c)
      ensures exists i :: 0 <= i < |list| && IsMissing(b.nodes, list[i]) && SameName(b.nodes, list[i], c)
    {
      NameIsListed(b, missing, list, c);
    }
  }

  /** make_modules_list. The list is complete and without repetition whatever the
      names; it is sorted whenever the comparison is a strict weak order on it. */
  method MakeModulesList(b: Build) returns (list: seq<nat>)
    requires Inv(b) && b.queue == []
    ensures ListOk(b, list)
    ensures WeakOrder(ListOrder(b.nodes), list) ==> Sorted(b.nodes, list)
  {
    var missing := CollectMissing(b.nodes);
    var originals := CollectOriginals(b);
    var joined := missing + originals;
    list := StableSort(ListOrder(b.nodes), joined);
    JoinedIsList(b, missing, originals, list);
    if WeakOrder(ListOrder(b.nodes), list) {
      SortedWhenOrdered(b.nodes, joined, list);
    }
  }

  lemma SortedWhenOrdered(nodes: seq<Node>, joined: seq<nat>, list: seq<nat>)
    requires Shape(nodes) && Nodes(nodes, list)
    requires list == StableSort(ListOrder(nodes), joined) && WeakOrder(ListOrder(nodes), list)
    ensures Sorted(nodes, list)
  {
    var lt := ListOrder(nodes);
    SameElements(joined, list);
    SortIsStable(lt, joined);
    forall i, j | 0 <= i < j < |list| ensures !ListedBefore(nodes, list[j], list[i]) {
      assert Precedes(lt, joined, list[i], list[j]) && list[i] in list && list[j] in list;
    }
  }

  /** In a sorted list the texts of one kind ascend: no later path is less than an earlier
      one up to case, and no later name of a missing module is less than an earlier one. */
  lemma TextsAscend(nodes: seq<Node>, list: seq<nat>, i: nat, j: nat)
    requires Shape(nodes) && Nodes(nodes, list) && Sorted(nodes, list) && i < j < |list|
    ensures nodes[list[i]].path.Some? && nodes[list[j]].path.Some? ==>
              forall k: nat :: !FoldedLessAt(nodes[list[j]].path.value, nodes[list[i]].path.value, k)
    ensures nodes[list[i]].path.None? && nodes[list[j]].path.None? ==>
              forall k: nat :: !FoldedLessAt(DllName(nodes, list[j]), DllName(nodes, list[i]), k)
  {
    assert !ListedBefore(nodes, list[j], list[i]);
    FoldedLessExactly(SortText(nodes, list[j]), SortText(nodes, list[i]));
  }

  /** In a sorted list every missing module stands in front of every located one. */
  lemma MissingFirst(nodes: seq<Node>, list: seq<nat>, i: nat, j: nat)
    requires Shape(nodes) && Nodes(nodes, list) && Sorted(nodes, list)
    requires i < |list| && j < |list| && nodes[list[i]].path.None? && nodes[list[j]].path.Some?
    ensures i < j
  {
    assert ListedBefore(nodes, list[i], list[j]);
  }
}
