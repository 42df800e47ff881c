/** All instances of one module are threaded into a circular doubly linked list by
    a depth-first pass, and the tree view walks that list. */
module InstanceRing {
  import opened Words
  import opened DependencyTree
  import opened TreeOrder

  /** The m_next_instance and m_prev_instance fields of all nodes. */
  datatype Links = Links(next: seq<Option<nat>>, prev: seq<Option<nat>>)

  function NoLinks(n: nat): Links {
    Links(seq(n, _ => None), seq(n, _ => None))
  }

  /** Duplicates point at nodes that are no duplicates themselves. */
  ghost predicate OrigsOk(nodes: seq<Node>) {
    forall i :: 0 <= i < |nodes| && nodes[i].orig.Some? ==>
      nodes[i].orig.value < |nodes| && nodes[nodes[i].orig.value].orig.None?
  }

  /** The visited instances of o besides o, in visiting order. */
  function Duplicates(nodes: seq<Node>, visited: seq<nat>, o: nat): seq<nat> {
    if visited == [] then []
    else
      var d := visited[|visited| - 1];
      Duplicates(nodes, visited[..|visited| - 1], o)
        + (if d < |nodes| && nodes[d].orig == Some(o) then [d] else [])
  }

  lemma {:induction false} DuplicatesBelong(nodes: seq<Node>, visited: seq<nat>, o: nat)
    requires Distinct(visited)
    ensures Distinct(Duplicates(nodes, visited, o))
    ensures forall d :: d in Duplicates(nodes, visited, o) <==> d in visited && d < |nodes| && nodes[d].orig == Some(o)
  {
    if visited == [] {
    } else {
      var d := visited[|visited| - 1];
      var v := visited[..|visited| - 1];
      DuplicatesBelong(nodes, v, o);
      assert visited == v + [d];
      if d < |nodes| && nodes[d].orig == Some(o) {
        DistinctConcat(Duplicates(nodes, v, o), [d]);
      }
    }
  }

  function After(k: nat, n: nat): nat
    requires k < n
  {
    if k + 1 == n then 0 else k + 1
  }

  ghost predicate LinkOk(l: Links, a: nat, b: nat) {
    a < |l.next| && b < |l.prev| && l.next[a] == Some(b) && l.prev[b] == Some(a)
  }

  /** The nodes are linked in a circle in this order; a node alone is not linked. */
  ghost predicate IsRing(l: Links, r: seq<nat>) {
    if |r| == 1 then r[0] < |l.next| && r[0] < |l.prev| && l.next[r[0]].None? && l.prev[r[0]].None?
    else forall k :: 0 <= k < |r| ==> LinkOk(l, r[k], r[After(k, |r|)])
  }

  /** After the visited nodes: every original heads the ring of its visited
      instances, and duplicates still to come are not linked. */
  ghost predicate RingsOk(nodes: seq<Node>, visited: seq<nat>, l: Links) {
    && |l.next| == |l.prev| == |nodes|
    && (forall o {:trigger RingOk(nodes, visited, l, o)} :: 0 <= o < |nodes| && nodes[o].orig.None? ==>
          RingOk(nodes, visited, l, o))
    && (forall d {:trigger Unlinked(l, d)} :: 0 <= d < |nodes| && nodes[d].orig.Some? && d !in visited ==>
          Unlinked(l, d))
  }

  ghost predicate RingOk(nodes: seq<Node>, visited: seq<nat>, l: Links, o: nat) {
    IsRing(l, [o] + Duplicates(nodes, visited, o))
  }

  ghost predicate Unlinked(l: Links, d: nat) {
    d < |l.next| && d < |l.prev| && l.next[d].None? && l.prev[d].None?
  }

  // ---- The callback ----

  /** One callback: a duplicate is put in front of its original, that is at the end. */
  function LinkIn(nodes: seq<Node>, l: Links, fi: nat): Links
    requires |l.next| == |l.prev| == |nodes| && fi < |nodes| && OrigsOk(nodes)
    requires forall i :: 0 <= i < |nodes| && l.prev[i].Some? ==> l.prev[i].value < |nodes|
  {
    if nodes[fi].orig.None? then l
    else
      var o := nodes[fi].orig.value;
      var last := if l.prev[o].Some? then l.prev[o].value else o;
      Links(l.next[fi := Some(o)][last := Some(fi)], l.prev[fi := Some(last)][o := Some(fi)])
  }

  /** In a ring, what the original points back at is the last instance. */
  lemma RingEnd(l: Links, r: seq<nat>)
    requires r != [] && IsRing(l, r)
    ensures r[0] < |l.prev| && (if l.prev[r[0]].Some? then l.prev[r[0]].value else r[0]) == r[|r| - 1]
    ensures r[|r| - 1] < |l.next|
  {
    if |r| > 1 {
      assert LinkOk(l, r[|r| - 1], r[After(|r| - 1, |r|)]);
    }
  }

  lemma PrevInRange(nodes: seq<Node>, visited: seq<nat>, l: Links)
    requires RingsOk(nodes, visited, l) && OrigsOk(nodes) && Distinct(visited)
    ensures forall i :: 0 <= i < |nodes| && l.prev[i].Some? ==> l.prev[i].value < |nodes|
  {
    forall i | 0 <= i < |nodes| && l.prev[i].Some? ensures l.prev[i].value < |nodes| {
      var o := if nodes[i].orig.Some? then nodes[i].orig.value else i;
      var r := [o] + Duplicates(nodes, visited, o);
      DuplicatesBelong(nodes, visited, o);
      assert RingOk(nodes, visited, l, o);
      assert Unlinked(l, i) || i == o || i in Duplicates(nodes, visited, o);
      assert i in r;
      var k :| 0 <= k < |r| && r[k] == i;
      if |r| > 1 {
        var j := if k == 0 then |r| - 1 else k - 1;
        assert After(j, |r|) == k && LinkOk(l, r[j], r[k]);
      }
    }
  }

  /** Appending to a ring: only the new node, the last one and the first one change. */
  lemma RingGrows(l: Links, m: Links, r: seq<nat>, fi: nat)
    requires r != [] && IsRing(l, r) && Distinct(r) && fi !in r
    requires |l.next| == |l.prev| == |m.next| == |m.prev| && fi < |l.next| && InRange(r, |l.next|)
    requires m.next == l.next[fi := Some(r[0])][r[|r| - 1] := Some(fi)]
    requires m.prev == l.prev[fi := Some(r[|r| - 1])][r[0] := Some(fi)]
    ensures IsRing(m, r + [fi])
  {
    var s := r + [fi];
    forall k | 0 <= k < |s| ensures LinkOk(m, s[k], s[After(k, |s|)]) {
      assert k < |r| ==> r[k] in r;
      if k + 1 < |r| {
        assert LinkOk(l, r[k], r[After(k, |r|)]);
        assert r[k + 1] in r;
        assert r[k] != r[|r| - 1] && r[k + 1] != r[0];
      } else {
        assert r[0] in r && r[|r| - 1] in r;
      }
    }
  }

  /** A ring none of whose nodes changed is still a ring. */
  lemma RingStays(l: Links, m: Links, r: seq<nat>)
    requires r != [] && IsRing(l, r) && |l.next| == |m.next| && |l.prev| == |m.prev|
    requires forall x :: x in r && x < |l.next| && x < |l.prev| ==> m.next[x] == l.next[x] && m.prev[x] == l.prev[x]
    ensures IsRing(m, r)
  {
    if |r| > 1 {
      forall k | 0 <= k < |r| ensures LinkOk(m, r[k], r[After(k, |r|)]) {
        assert LinkOk(l, r[k], r[After(k, |r|)]);
        var j := if k == 0 then |r| - 1 else k - 1;
        assert After(j, |r|) == k && LinkOk(l, r[j], r[k]);
        var n := After(k, |r|);
        assert LinkOk(l, r[n], r[After(n, |r|)]);
        assert r[k] in r && r[n] in r;
      }
    } else {
      assert r[0] in r;
    }
  }

  /** What every lemma about one callback assumes. */
  ghost predicate CanLink(nodes: seq<Node>, visited: seq<nat>, l: Links, fi: nat) {
    && OrigsOk(nodes) && RingsOk(nodes, visited, l)
    && Distinct(visited) && fi !in visited && fi < |nodes| && InRange(visited, |nodes|)
    && forall i :: 0 <= i < |nodes| && l.prev[i].Some? ==> l.prev[i].value < |nodes|
  }

  lemma RingMembers(nodes: seq<Node>, visited: seq<nat>, o: nat)
    requires Distinct(visited) && InRange(visited, |nodes|) && o < |nodes| && nodes[o].orig.None?
    ensures var r := [o] + Duplicates(nodes, visited, o);
            && Distinct(r) && InRange(r, |nodes|)
            && forall x :: x in r ==> x == o || (x in visited && x < |nodes| && nodes[x].orig == Some(o))
  {
    DuplicatesBelong(nodes, visited, o);
    DistinctConcat([o], Duplicates(nodes, visited, o));
    var r := [o] + Duplicates(nodes, visited, o);
    forall k | 0 <= k < |r| ensures r[k] < |nodes| {
      assert r[k] in r;
    }
  }

  lemma DuplicatesAppend(nodes: seq<Node>, visited: seq<nat>, fi: nat, o: nat)
    ensures Duplicates(nodes, visited + [fi], o)
            == Duplicates(nodes, visited, o) + (if fi < |nodes| && nodes[fi].orig == Some(o) then [fi] else [])
  {
    var v := visited + [fi];
    assert v[..|v| - 1] == visited;
  }

  /** The ring that the new duplicate joins. */
  lemma LinkInGrowsItsRing(nodes: seq<Node>, visited: seq<nat>, l: Links, fi: nat)
    requires CanLink(nodes, visited, l, fi) && nodes[fi].orig.Some?
    ensures var o := nodes[fi].orig.value;
            IsRing(LinkIn(nodes, l, fi), [o] + Duplicates(nodes, visited + [fi], o))
  {
    var o := nodes[fi].orig.value;
    var r := [o] + Duplicates(nodes, visited, o);
    RingMembers(nodes, visited, o);
    assert RingOk(nodes, visited, l, o);
    RingEnd(l, r);
    RingGrows(l, LinkIn(nodes, l, fi), r, fi);
    DuplicatesAppend(nodes, visited, fi, o);
    assert [o] + Duplicates(nodes, visited + [fi], o) == r + [fi];
  }

  /** Where the callback writes: the new duplicate, its original and its predecessor. */
  lemma LinkInFrame(nodes: seq<Node>, visited: seq<nat>, l: Links, fi: nat, x: nat)
    requires CanLink(nodes, visited, l, fi) && x < |nodes| && x != fi
    requires nodes[fi].orig.Some? ==> x != nodes[fi].orig.value && !(x in visited && nodes[x].orig == nodes[fi].orig)
    ensures LinkIn(nodes, l, fi).next[x] == l.next[x] && LinkIn(nodes, l, fi).prev[x] == l.prev[x]
  {
    if nodes[fi].orig.Some? {
      var o := nodes[fi].orig.value;
      var r := [o] + Duplicates(nodes, visited, o);
      RingMembers(nodes, visited, o);
      assert RingOk(nodes, visited, l, o);
      RingEnd(l, r);
      assert r[|r| - 1] in r;
    }
  }

  lemma LinkInKeepsOtherRings(nodes: seq<Node>, visited: seq<nat>, l: Links, fi: nat, o: nat)
    requires CanLink(nodes, visited, l, fi) && o < |nodes| && nodes[o].orig.None? && nodes[fi].orig != Some(o)
    ensures IsRing(LinkIn(nodes, l, fi), [o] + Duplicates(nodes, visited + [fi], o))
  {
    assert RingOk(nodes, visited, l, o);
    if nodes[fi].orig.Some? {
      var r := [o] + Duplicates(nodes, visited, o);
      RingMembers(nodes, visited, o);
      forall x | x in r && x < |nodes|
        ensures LinkIn(nodes, l, fi).next[x] == l.next[x] && LinkIn(nodes, l, fi).prev[x] == l.prev[x]
      {
        LinkInFrame(nodes, visited, l, fi, x);
      }
      RingStays(l, LinkIn(nodes, l, fi), r);
    }
    DuplicatesAppend(nodes, visited, fi, o);
  }

  lemma LinkInKeepsRings(nodes: seq<Node>, visited: seq<nat>, l: Links, fi: nat)
    requires CanLink(nodes, visited, l, fi)
    ensures RingsOk(nodes, visited + [fi], LinkIn(nodes, l, fi))
  {
    var m := LinkIn(nodes, l, fi);
    forall o | 0 <= o < |nodes| && nodes[o].orig.None?
      ensures RingOk(nodes, visited + [fi], m, o)
    {
      if nodes[fi].orig == Some(o) {
        LinkInGrowsItsRing(nodes, visited, l, fi);
      } else {
        LinkInKeepsOtherRings(nodes, visited, l, fi, o);
      }
    }
    forall d | 0 <= d < |nodes| && nodes[d].orig.Some? && d !in visited + [fi] ensures Unlinked(m, d) {
      assert fi in visited + [fi];
      assert Unlinked(l, d);
      LinkInFrame(nodes, visited, l, fi, d);
    }
  }

  /** Nothing is linked before the pass. */
  lemma NoRingsInitially(nodes: seq<Node>)
    ensures RingsOk(nodes, [], NoLinks(|nodes|))
  {
  }

  /** The rings say everything about the links: no other links pass the same test. */
  lemma RingsDetermineLinks(nodes: seq<Node>, visited: seq<nat>, l: Links, m: Links)
    requires OrigsOk(nodes) && Distinct(visited) && InRange(visited, |nodes|)
    requires RingsOk(nodes, visited, l) && RingsOk(nodes, visited, m)
    ensures l == m
  {
    forall x | 0 <= x < |nodes| ensures l.next[x] == m.next[x] && l.prev[x] == m.prev[x] {
      var o := if nodes[x].orig.Some? then nodes[x].orig.value else x;
      var r := [o] + Duplicates(nodes, visited, o);
      DuplicatesBelong(nodes, visited, o);
      if x in r {
        assert RingOk(nodes, visited, l, o) && RingOk(nodes, visited, m, o);
        var k :| 0 <= k < |r| && r[k] == x;
        if |r| > 1 {
          assert LinkOk(l, r[k], r[After(k, |r|)]) && LinkOk(m, r[k], r[After(k, |r|)]);
          var j := if k == 0 then |r| - 1 else k - 1;
          assert LinkOk(l, r[j], r[After(j, |r|)]) && LinkOk(m, r[j], r[After(j, |r|)]);
        }
      } else {
        assert x !in Duplicates(nodes, visited, o);
        assert Unlinked(l, x) && Unlinked(m, x);
      }
    }
  }

  lemma LinkStep(nodes: seq<Node>, done: seq<nat>, l: Links, c: nat, called: seq<nat>)
    requires OrigsOk(nodes) && Distinct(done) && InRange(done, |nodes|) && RingsOk(nodes, done, l)
    requires c !in done && c < |nodes| && called == done + [c]
    ensures forall i :: 0 <= i < |nodes| && l.prev[i].Some? ==> l.prev[i].value < |nodes|
    ensures RingsOk(nodes, called, LinkIn(nodes, l, c))
  {
    PrevInRange(nodes, done, l);
    LinkInKeepsRings(nodes, done, l, c);
  }

  // ---- The pass in place ----

  class InstanceLinks {
    const nodes: seq<Node>
    var links: Links

    constructor (nodes: seq<Node>)
      ensures this.nodes == nodes && links == NoLinks(|nodes|)
    {
      this.nodes := nodes;
      links := NoLinks(|nodes|);
    }

    /** The callback of make_doubly_linked_list. */
    method MakeList(fi: nat)
      requires |links.next| == |links.prev| == |nodes| && fi < |nodes| && OrigsOk(nodes)
      requires forall i :: 0 <= i < |nodes| && links.prev[i].Some? ==> links.prev[i].value < |nodes|
      modifies this
      ensures links == LinkIn(nodes, old(links), fi)
    {
      if nodes[fi].orig.None? {
        return;
      }
      var orig := nodes[fi].orig.value;
      SetNext(fi, orig);
      SetPrev(fi, if links.prev[orig].Some? then links.prev[orig].value else orig);
      SetNext(if links.prev[orig].Some? then links.prev[orig].value else orig, fi);
      SetPrev(orig, fi);
    }

    method SetNext(x: nat, y: nat)
      requires x < |links.next|
      modifies this
      ensures links == Links(old(links).next[x := Some(y)], old(links).prev)
    {
      links := links.(next := links.next[x := Some(y)]);
    }

    method SetPrev(x: nat, y: nat)
      requires x < |links.prev|
      modifies this
      ensures links == Links(old(links).next, old(links).prev[x := Some(y)])
    {
      links := links.(prev := links.prev[x := Some(y)]);
    }

    /** depth_first_visit with that callback, below node i. */
    method Visit(i: nat, ghost visited: seq<nat>)
      requires Shape(nodes) && OrigsOk(nodes) && i < |nodes|
      requires CanVisit(nodes, visited, i, 0)
      requires RingsOk(nodes, visited, links)
      modifies this
      ensures RingsOk(nodes, Calls(nodes, visited, i, 0), links)
      decreases |nodes| - i, 1
    {
      ghost var done: seq<nat> := visited;
      var n := Count(nodes, i);
      var k := 0;
      while k != n
        invariant 0 <= k <= n
        invariant Calls(nodes, done, i, k) == Calls(nodes, visited, i, 0)
        invariant CanVisit(nodes, done, i, k)
        invariant RingsOk(nodes, done, links)
        decreases n - k
      {
        done := VisitChild(i, k, done);
        k := k + 1;
      }
      assert Calls(nodes, done, i, k) == done;
    }

    /** One turn of its loop: the callback on child k, then the walk below it. */
    method VisitChild(i: nat, k: nat, ghost done: seq<nat>) returns (ghost below: seq<nat>)
      requires Shape(nodes) && OrigsOk(nodes) && i < |nodes| && k < Count(nodes, i)
      requires CanVisit(nodes, done, i, k)
      requires RingsOk(nodes, done, links)
      modifies this
      ensures Calls(nodes, below, i, k + 1) == Calls(nodes, done, i, k)
      ensures CanVisit(nodes, below, i, k + 1)
      ensures RingsOk(nodes, below, links)
      decreases |nodes| - i, 0
    {
      ghost var c, called, after := WalkSplit(nodes, i, k, done);
      LinkStep(nodes, done, links, c, called);
      var child := nodes[i].fis + k;
      MakeList(child);
      Visit(child, called);
      below := after;
    }

    method MakeDoublyLinkedList()
      requires Shape(nodes) && OrigsOk(nodes)
      requires links == NoLinks(|nodes|)
      modifies this
      ensures RingsOk(nodes, Order(nodes), links)
    {
      WalkVisitsEachOnce(nodes);
      NoRingsInitially(nodes);
      assert Calls(nodes, [], 0, 0) == Order(nodes);
      Visit(0, []);
    }
  }

  // ---- Walking the instances ----

  lemma OrderMembers(nodes: seq<Node>)
    requires Shape(nodes)
    ensures Distinct(Order(nodes)) && InRange(Order(nodes), |nodes|)
    ensures forall j: nat :: j in Order(nodes) <==> 1 <= j < |nodes|
  {
    WalkVisitsEachOnce(nodes);
    forall k | 0 <= k < |Order(nodes)| ensures Order(nodes)[k] < |nodes| {
      assert Order(nodes)[k] in Order(nodes);
    }
  }

  /** get_next_data: nothing when the next instance is the original. */
  function NextData(nodes: seq<Node>, l: Links, x: nat): Option<nat>
    requires x < |nodes| == |l.next|
  {
    if l.next[x] == nodes[x].orig then None else l.next[x]
  }

  /** get_prev_data: nothing for an original. */
  function PrevData(nodes: seq<Node>, l: Links, x: nat): Option<nat>
    requires x < |nodes| == |l.prev|
  {
    if nodes[x].orig.None? then None else l.prev[x]
  }

  /** The node k presses of "next instance" away from x, while there is one. */
  ghost function Walk(nodes: seq<Node>, l: Links, x: nat, k: nat): Option<nat>
    requires |nodes| == |l.next|
  {
    if k == 0 then Some(x)
    else
      var y := Walk(nodes, l, x, k - 1);
      if y.Some? && y.value < |nodes| then NextData(nodes, l, y.value) else None
  }

  /** One press of "next" in a ring: the following instance, or nothing at the end. */
  lemma NextInRing(nodes: seq<Node>, l: Links, o: nat, k: nat)
    requires Shape(nodes) && OrigsOk(nodes) && RingsOk(nodes, Order(nodes), l)
    requires o < |nodes| && nodes[o].orig.None? && k < |[o] + Duplicates(nodes, Order(nodes), o)|
    ensures var r := [o] + Duplicates(nodes, Order(nodes), o);
            && r[k] < |nodes|
            && NextData(nodes, l, r[k]) == if k + 1 < |r| then Some(r[k + 1]) else None
  {
    var r := [o] + Duplicates(nodes, Order(nodes), o);
    OrderMembers(nodes);
    RingMembers(nodes, Order(nodes), o);
    assert RingOk(nodes, Order(nodes), l, o) && r[k] in r && r[0] == o;
    if |r| > 1 {
      assert LinkOk(l, r[k], r[After(k, |r|)]);
      assert k > 0 ==> r[k] != r[0];
      assert k + 1 < |r| ==> r[k + 1] != r[0];
    }
  }

  /** From an original, "next" enumerates exactly its duplicates in depth-first order
      and then stops. */
  lemma {:induction false} WalkEnumeratesInstances(nodes: seq<Node>, l: Links, o: nat, k: nat)
    requires Shape(nodes) && OrigsOk(nodes) && RingsOk(nodes, Order(nodes), l)
    requires o < |nodes| && nodes[o].orig.None?
    ensures var r := [o] + Duplicates(nodes, Order(nodes), o);
            Walk(nodes, l, o, k) == if k < |r| then Some(r[k]) else None
    decreases k
  {
    if k == 0 {
    } else {
      WalkEnumeratesInstances(nodes, l, o, k - 1);
      if k - 1 < |[o] + Duplicates(nodes, Order(nodes), o)| {
        NextInRing(nodes, l, o, k - 1);
      }
    }
  }

  /** One press of "previous" in a ring: the instance before, or nothing at the original. */
  lemma PrevInRing(nodes: seq<Node>, l: Links, o: nat, k: nat)
    requires Shape(nodes) && OrigsOk(nodes) && RingsOk(nodes, Order(nodes), l)
    requires o < |nodes| && nodes[o].orig.None? && k < |[o] + Duplicates(nodes, Order(nodes), o)|
    ensures var r := [o] + Duplicates(nodes, Order(nodes), o);
            && r[k] < |nodes|
            && PrevData(nodes, l, r[k]) == if k > 0 then Some(r[k - 1]) else None
  {
    var r := [o] + Duplicates(nodes, Order(nodes), o);
    OrderMembers(nodes);
    RingMembers(nodes, Order(nodes), o);
    DuplicatesBelong(nodes, Order(nodes), o);
    assert RingOk(nodes, Order(nodes), l, o) && r[k] in r;
    if k > 0 {
      assert LinkOk(l, r[k - 1], r[After(k - 1, |r|)]);
      assert r[k] in Duplicates(nodes, Order(nodes), o);
    }
  }

  /** "Previous" undoes "next", from every node of the tree. */
  lemma PrevUndoesNext(nodes: seq<Node>, l: Links, x: nat)
    requires Shape(nodes) && OrigsOk(nodes) && RingsOk(nodes, Order(nodes), l)
    requires 1 <= x < |nodes|
    ensures var y := NextData(nodes, l, x);
            y.Some? ==> y.value < |nodes| && PrevData(nodes, l, y.value) == Some(x)
  {
    OrderMembers(nodes);
    var o := if nodes[x].orig.Some? then nodes[x].orig.value else x;
    var r := [o] + Duplicates(nodes, Order(nodes), o);
    DuplicatesBelong(nodes, Order(nodes), o);
    RingMembers(nodes, Order(nodes), o);
    assert x == o || x in Duplicates(nodes, Order(nodes), o);
    assert x in r;
    var k :| 0 <= k < |r| && r[k] == x;
    NextInRing(nodes, l, o, k);
    if k + 1 < |r| {
      assert RingOk(nodes, Order(nodes), l, o) && LinkOk(l, r[k], r[After(k, |r|)]);
      assert r[k + 1] in r && r[k + 1] != r[0];
    }
  }
}
