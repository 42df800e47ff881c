/** The two tree walks. depth_first_visit calls back on a node before its subtree,
    children_first_visit after it; both reach every node below the start once. */
module TreeOrder {
  import opened Words
  import opened DependencyTree

  /** The nodes depth_first_visit calls back on below i, from child k on, in order. */
  function OrderFrom(nodes: seq<Node>, i: nat, k: nat): seq<nat>
    requires Shape(nodes) && i < |nodes| && k <= Count(nodes, i)
    decreases |nodes| - i, Count(nodes, i) - k
  {
    if k == Count(nodes, i) then []
    else
      assert BlockOk(nodes, i);
      var c := nodes[i].fis + k;
      [c] + OrderFrom(nodes, c, 0) + OrderFrom(nodes, i, k + 1)
  }

  function Order(nodes: seq<Node>): seq<nat>
    requires Shape(nodes)
  {
    OrderFrom(nodes, 0, 0)
  }

  /** The same for children_first_visit. */
  function ChildrenFirstFrom(nodes: seq<Node>, i: nat, k: nat): seq<nat>
    requires Shape(nodes) && i < |nodes| && k <= Count(nodes, i)
    decreases |nodes| - i, Count(nodes, i) - k
  {
    if k == Count(nodes, i) then []
    else
      assert BlockOk(nodes, i);
      var c := nodes[i].fis + k;
      ChildrenFirstFrom(nodes, c, 0) + [c] + ChildrenFirstFrom(nodes, i, k + 1)
  }

  /** j lies in the subtree of a. */
  ghost predicate Under(nodes: seq<Node>, a: nat, j: nat)
    requires Shape(nodes) && j < |nodes|
    decreases j
  {
    j == a || (j > 0 && ParentOk(nodes, j) && Under(nodes, a, Up(nodes, j)))
  }

  lemma {:induction false} UnderIsBelow(nodes: seq<Node>, a: nat, j: nat)
    requires Shape(nodes) && j < |nodes| && Under(nodes, a, j)
    ensures a <= j
    decreases j
  {
    if j == a {
    } else {
      UnderIsBelow(nodes, a, Up(nodes, j));
    }
  }

  /** Two nodes above the same node lie above one another. */
  lemma {:induction false} UnderChain(nodes: seq<Node>, a: nat, b: nat, j: nat)
    requires Shape(nodes) && a < b <= j < |nodes| && Under(nodes, a, j) && Under(nodes, b, j)
    ensures Under(nodes, a, b)
    decreases j
  {
    if j == b {
    } else {
      UnderIsBelow(nodes, b, Up(nodes, j));
      UnderChain(nodes, a, b, Up(nodes, j));
    }
  }

  ghost predicate IsChild(nodes: seq<Node>, i: nat, k: nat, c: nat)
    requires i < |nodes|
  {
    nodes[i].fis + k <= c < nodes[i].fis + Count(nodes, i) && c < |nodes|
  }

  /** j lies under a child of i whose number is k or more. */
  ghost predicate InBlock(nodes: seq<Node>, i: nat, k: nat, j: nat)
    requires Shape(nodes) && i < |nodes| && j < |nodes|
  {
    exists c :: IsChild(nodes, i, k, c) && Under(nodes, c, j)
  }

  /** Nothing lies under two children of one node. */
  lemma SiblingsAreDisjoint(nodes: seq<Node>, i: nat, a: nat, b: nat, j: nat)
    requires Shape(nodes) && i < |nodes| && IsChild(nodes, i, 0, a) && IsChild(nodes, i, 0, b) && j < |nodes|
    requires a < b && Under(nodes, a, j)
    ensures !Under(nodes, b, j)
  {
    if Under(nodes, b, j) {
      assert BlockOk(nodes, i);
      UnderIsBelow(nodes, b, j);
      UnderChain(nodes, a, b, j);
      assert Up(nodes, b) == i && Under(nodes, a, i);
      UnderIsBelow(nodes, a, i);
    }
  }

  /** Below i, except i itself, is below some child of i. */
  lemma {:induction false} UnderChild(nodes: seq<Node>, i: nat, j: nat)
    requires Shape(nodes) && i < |nodes| && j < |nodes| && Under(nodes, i, j) && j != i
    ensures InBlock(nodes, i, 0, j)
    decreases j
  {
    assert ParentOk(nodes, j);
    var u := Up(nodes, j);
    if u == i {
      assert IsChild(nodes, i, 0, j) && Under(nodes, j, j);
    } else {
      UnderChild(nodes, i, u);
      var c :| IsChild(nodes, i, 0, c) && Under(nodes, c, u);
      assert Under(nodes, c, j);
    }
  }

  lemma {:induction false} UnderTransitive(nodes: seq<Node>, a: nat, b: nat, j: nat)
    requires Shape(nodes) && b < |nodes| && j < |nodes| && Under(nodes, a, b) && Under(nodes, b, j)
    ensures Under(nodes, a, j)
    decreases j
  {
    if j == b {
    } else {
      UnderTransitive(nodes, a, b, Up(nodes, j));
    }
  }

  lemma InBlockStep(nodes: seq<Node>, i: nat, k: nat, j: nat)
    requires Shape(nodes) && i < |nodes| && k < Count(nodes, i) && j < |nodes|
    ensures BlockOk(nodes, i)
    ensures InBlock(nodes, i, k, j) <==>
              (var c := nodes[i].fis + k; j == c || InBlock(nodes, c, 0, j) || InBlock(nodes, i, k + 1, j))
  {
    assert BlockOk(nodes, i);
    var c := nodes[i].fis + k;
    if InBlock(nodes, i, k, j) {
      var d :| IsChild(nodes, i, k, d) && Under(nodes, d, j);
      if d == c {
        if j != c { UnderChild(nodes, c, j); }
      } else {
        assert IsChild(nodes, i, k + 1, d);
      }
    }
    if j == c {
      assert IsChild(nodes, i, k, c) && Under(nodes, c, j);
    }
    if InBlock(nodes, c, 0, j) {
      var d :| IsChild(nodes, c, 0, d) && Under(nodes, d, j);
      assert BlockOk(nodes, c) && Up(nodes, d) == c && ParentOk(nodes, d) && Under(nodes, c, d);
      UnderTransitive(nodes, c, d, j);
      assert IsChild(nodes, i, k, c);
    }
    if InBlock(nodes, i, k + 1, j) {
      var d :| IsChild(nodes, i, k + 1, d) && Under(nodes, d, j);
      assert IsChild(nodes, i, k, d);
    }
  }

  ghost predicate ReachesExactly(nodes: seq<Node>, i: nat, k: nat, j: nat)
    requires Shape(nodes) && i < |nodes| && k <= Count(nodes, i) && j < |nodes|
  {
    j in OrderFrom(nodes, i, k) <==> InBlock(nodes, i, k, j)
  }

  /** The walk below i from child k on reaches exactly the nodes under those children. */
  lemma {:induction false} OrderReachesExactly(nodes: seq<Node>, i: nat, k: nat, j: nat)
    requires Shape(nodes) && i < |nodes| && k <= Count(nodes, i) && j < |nodes|
    ensures ReachesExactly(nodes, i, k, j)
    decreases |nodes| - i, Count(nodes, i) - k
  {
    if k == Count(nodes, i) {
    } else {
      assert BlockOk(nodes, i);
      OrderReachesExactly(nodes, nodes[i].fis + k, 0, j);
      OrderReachesExactly(nodes, i, k + 1, j);
      ReachStep(nodes, i, k, j);
    }
  }

  lemma ReachStep(nodes: seq<Node>, i: nat, k: nat, j: nat)
    requires Shape(nodes) && i < |nodes| && k < Count(nodes, i) && j < |nodes| && BlockOk(nodes, i)
    requires ReachesExactly(nodes, nodes[i].fis + k, 0, j) && ReachesExactly(nodes, i, k + 1, j)
    ensures ReachesExactly(nodes, i, k, j)
  {
    InBlockStep(nodes, i, k, j);
    OrderStep(nodes, i, k, j);
  }

  lemma OrderStep(nodes: seq<Node>, i: nat, k: nat, j: nat)
    requires Shape(nodes) && i < |nodes| && k < Count(nodes, i)
    ensures BlockOk(nodes, i)
    ensures j in OrderFrom(nodes, i, k) <==>
              (var c := nodes[i].fis + k; j == c || j in OrderFrom(nodes, c, 0) || j in OrderFrom(nodes, i, k + 1))
  {
    assert BlockOk(nodes, i);
  }

  lemma {:induction false} OrderInRange(nodes: seq<Node>, i: nat, k: nat)
    requires Shape(nodes) && i < |nodes| && k <= Count(nodes, i)
    ensures forall j :: j in OrderFrom(nodes, i, k) ==> i < j < |nodes|
    decreases |nodes| - i, Count(nodes, i) - k
  {
    if k == Count(nodes, i) {
    } else {
      assert BlockOk(nodes, i);
      OrderInRange(nodes, nodes[i].fis + k, 0);
      OrderInRange(nodes, i, k + 1);
    }
  }

  lemma {:induction false} OrderIsDistinct(nodes: seq<Node>, i: nat, k: nat)
    requires Shape(nodes) && i < |nodes| && k <= Count(nodes, i)
    ensures Distinct(OrderFrom(nodes, i, k))
    decreases |nodes| - i, Count(nodes, i) - k
  {
    if k == Count(nodes, i) {
    } else {
      assert BlockOk(nodes, i);
      var c := nodes[i].fis + k;
      var sub, rest := OrderFrom(nodes, c, 0), OrderFrom(nodes, i, k + 1);
      OrderIsDistinct(nodes, c, 0);
      OrderIsDistinct(nodes, i, k + 1);
      OrderInRange(nodes, c, 0);
      OrderInRange(nodes, i, k + 1);
      DistinctConcat([c], sub);
      forall j | j in [c] + sub ensures j !in rest {
        SubtreeNotInRest(nodes, i, k, j);
      }
      DistinctConcat([c] + sub, rest);
    }
  }

  lemma SubtreeNotInRest(nodes: seq<Node>, i: nat, k: nat, j: nat)
    requires Shape(nodes) && i < |nodes| && k < Count(nodes, i)
    requires BlockOk(nodes, i)
    requires j == nodes[i].fis + k || j in OrderFrom(nodes, nodes[i].fis + k, 0)
    ensures j !in OrderFrom(nodes, i, k + 1)
  {
    var c := nodes[i].fis + k;
    OrderInRange(nodes, c, 0);
    assert Under(nodes, c, j) by {
      if j != c {
        OrderReachesExactly(nodes, c, 0, j);
        var e :| IsChild(nodes, c, 0, e) && Under(nodes, e, j);
        assert BlockOk(nodes, c) && Up(nodes, e) == c && ParentOk(nodes, e) && Under(nodes, c, e);
        UnderTransitive(nodes, c, e, j);
      }
    }
    OrderReachesExactly(nodes, i, k + 1, j);
    if InBlock(nodes, i, k + 1, j) {
      var d :| IsChild(nodes, i, k + 1, d) && Under(nodes, d, j);
      assert IsChild(nodes, i, 0, d) && IsChild(nodes, i, 0, c);
      SiblingsAreDisjoint(nodes, i, c, d, j);
    }
  }

  lemma {:induction false} AllUnderRoot(nodes: seq<Node>, j: nat)
    requires Shape(nodes) && j < |nodes|
    ensures Under(nodes, 0, j)
    decreases j
  {
    if j == 0 {
    } else {
      assert ParentOk(nodes, j);
      AllUnderRoot(nodes, Up(nodes, j));
    }
  }

  /** A walk from the top calls back on every node but the top exactly once. */
  lemma WalkVisitsEachOnce(nodes: seq<Node>)
    requires Shape(nodes)
    ensures Distinct(Order(nodes))
    ensures forall j: nat :: j in Order(nodes) <==> 1 <= j < |nodes|
  {
    OrderIsDistinct(nodes, 0, 0);
    OrderInRange(nodes, 0, 0);
    forall j: nat | 1 <= j < |nodes| ensures j in Order(nodes) {
      AllUnderRoot(nodes, j);
      UnderChild(nodes, 0, j);
      OrderReachesExactly(nodes, 0, 0, j);
    }
  }

  ghost predicate SameCalls(s: seq<nat>, t: seq<nat>) {
    multiset(s) == multiset(t)
  }

  /** Both walks call back on the same nodes, each the same number of times. */
  lemma {:induction false} WalksAgree(nodes: seq<Node>, i: nat, k: nat)
    requires Shape(nodes) && i < |nodes| && k <= Count(nodes, i)
    ensures SameCalls(ChildrenFirstFrom(nodes, i, k), OrderFrom(nodes, i, k))
    decreases |nodes| - i, Count(nodes, i) - k
  {
    if k == Count(nodes, i) {
    } else {
      assert BlockOk(nodes, i);
      var c := nodes[i].fis + k;
      var after, before := ChildrenFirstFrom(nodes, c, 0), OrderFrom(nodes, c, 0);
      var restAfter, restBefore := ChildrenFirstFrom(nodes, i, k + 1), OrderFrom(nodes, i, k + 1);
      WalksAgree(nodes, c, 0);
      WalksAgree(nodes, i, k + 1);
      CallbackPlace(after, before, c, restAfter, restBefore);
      OneTurn(nodes, i, k);
    }
  }

  lemma OneTurn(nodes: seq<Node>, i: nat, k: nat)
    requires Shape(nodes) && i < |nodes| && k < Count(nodes, i)
    ensures BlockOk(nodes, i)
    ensures var c := nodes[i].fis + k;
            && OrderFrom(nodes, i, k) == [c] + OrderFrom(nodes, c, 0) + OrderFrom(nodes, i, k + 1)
            && ChildrenFirstFrom(nodes, i, k)
               == ChildrenFirstFrom(nodes, c, 0) + [c] + ChildrenFirstFrom(nodes, i, k + 1)
  {
    assert BlockOk(nodes, i);
  }

  /** Calling back before or after a subtree gives the same multiset of calls. */
  lemma CallbackPlace(after: seq<nat>, before: seq<nat>, c: nat, restAfter: seq<nat>, restBefore: seq<nat>)
    requires SameCalls(after, before) && SameCalls(restAfter, restBefore)
    ensures SameCalls(after + [c] + restAfter, [c] + before + restBefore)
  {
    assert multiset(after + [c]) == multiset(after) + multiset{c};
    assert multiset([c] + before) == multiset{c} + multiset(before);
  }

  // ---- The order of the calls ----

  /** No element of s lies above an element of t. */
  ghost predicate NoneAbove(nodes: seq<Node>, s: seq<nat>, t: seq<nat>)
    requires Shape(nodes)
  {
    forall x, y :: x in s && y in t && y < |nodes| ==> !Under(nodes, x, y)
  }

  /** Calls after the subtree: whatever lies above a call comes later. */
  ghost predicate SubtreesFirst(nodes: seq<Node>, s: seq<nat>)
    requires Shape(nodes)
  {
    forall p, q :: 0 <= p < |s| && 0 <= q < |s| && s[p] < |nodes| && s[p] != s[q] && Under(nodes, s[q], s[p]) ==> p < q
  }

  /** Calls before the subtree: whatever lies above a call comes earlier. */
  ghost predicate ParentsFirst(nodes: seq<Node>, s: seq<nat>)
    requires Shape(nodes)
  {
    forall p, q :: 0 <= p < |s| && 0 <= q < |s| && s[p] < |nodes| && s[p] != s[q] && Under(nodes, s[q], s[p]) ==> q < p
  }

  lemma JoinSubtreesFirst(nodes: seq<Node>, s: seq<nat>, t: seq<nat>)
    requires Shape(nodes) && SubtreesFirst(nodes, s) && SubtreesFirst(nodes, t) && NoneAbove(nodes, s, t)
    ensures SubtreesFirst(nodes, s + t)
  {
  }

  lemma JoinParentsFirst(nodes: seq<Node>, s: seq<nat>, t: seq<nat>)
    requires Shape(nodes) && ParentsFirst(nodes, s) && ParentsFirst(nodes, t) && NoneAbove(nodes, t, s)
    ensures ParentsFirst(nodes, s + t)
  {
  }

  lemma JoinThreeSubtreesFirst(nodes: seq<Node>, s: seq<nat>, t: seq<nat>, u: seq<nat>)
    requires Shape(nodes) && SubtreesFirst(nodes, s) && SubtreesFirst(nodes, t) && SubtreesFirst(nodes, u)
    requires NoneAbove(nodes, s, t) && NoneAbove(nodes, s + t, u)
    ensures SubtreesFirst(nodes, s + t + u)
  {
    JoinSubtreesFirst(nodes, s, t);
    JoinSubtreesFirst(nodes, s + t, u);
  }

  lemma JoinThreeParentsFirst(nodes: seq<Node>, s: seq<nat>, t: seq<nat>, u: seq<nat>)
    requires Shape(nodes) && ParentsFirst(nodes, s) && ParentsFirst(nodes, t) && ParentsFirst(nodes, u)
    requires NoneAbove(nodes, t, s) && NoneAbove(nodes, u, s + t)
    ensures ParentsFirst(nodes, s + t + u)
  {
    JoinParentsFirst(nodes, s, t);
    JoinParentsFirst(nodes, s + t, u);
  }

  /** What the walk calls below child k of i lies under that child. */
  lemma CalledUnder(nodes: seq<Node>, i: nat, k: nat, x: nat)
    requires Shape(nodes) && i < |nodes| && k < Count(nodes, i) && BlockOk(nodes, i)
    requires x in OrderFrom(nodes, nodes[i].fis + k, 0)
    ensures var c := nodes[i].fis + k; c < x < |nodes| && Under(nodes, c, x)
  {
    var c := nodes[i].fis + k;
    OrderInRange(nodes, c, 0);
    OrderReachesExactly(nodes, c, 0, x);
    var e :| IsChild(nodes, c, 0, e) && Under(nodes, e, x);
    assert BlockOk(nodes, c) && Up(nodes, e) == c && ParentOk(nodes, e) && Under(nodes, c, e);
    UnderTransitive(nodes, c, e, x);
  }

  /** Calls of child k and its subtree on the one side, of the later children on the
      other: nothing of one side lies above anything of the other. */
  lemma SidesApart(nodes: seq<Node>, i: nat, k: nat, x: nat, y: nat)
    requires Shape(nodes) && i < |nodes| && k < Count(nodes, i) && BlockOk(nodes, i)
    requires x == nodes[i].fis + k || x in OrderFrom(nodes, nodes[i].fis + k, 0)
    requires y in OrderFrom(nodes, i, k + 1)
    ensures x < |nodes| && y < |nodes| && !Under(nodes, x, y) && !Under(nodes, y, x)
  {
    var c := nodes[i].fis + k;
    if x != c {
      CalledUnder(nodes, i, k, x);
    }
    OrderInRange(nodes, i, k + 1);
    OrderReachesExactly(nodes, i, k + 1, y);
    var d :| IsChild(nodes, i, k + 1, d) && Under(nodes, d, y);
    assert IsChild(nodes, i, 0, c) && IsChild(nodes, i, 0, d);
    if Under(nodes, x, y) {
      UnderTransitive(nodes, c, x, y);
      SiblingsAreDisjoint(nodes, i, c, d, y);
    }
    if Under(nodes, y, x) {
      UnderTransitive(nodes, d, y, x);
      SiblingsAreDisjoint(nodes, i, c, d, x);
    }
  }

  /** Nothing below child k lies above it. */
  lemma NoneAboveChild(nodes: seq<Node>, i: nat, k: nat, s: seq<nat>)
    requires Shape(nodes) && i < |nodes| && k < Count(nodes, i) && BlockOk(nodes, i)
    requires forall x :: x in s ==> x in OrderFrom(nodes, nodes[i].fis + k, 0)
    ensures NoneAbove(nodes, s, [nodes[i].fis + k])
  {
    var c := nodes[i].fis + k;
    forall x | x in s ensures !Under(nodes, x, c) {
      CalledUnder(nodes, i, k, x);
      if Under(nodes, x, c) {
        UnderIsBelow(nodes, x, c);
      }
    }
  }

  lemma NoneAboveSides(nodes: seq<Node>, i: nat, k: nat, s: seq<nat>, t: seq<nat>)
    requires Shape(nodes) && i < |nodes| && k < Count(nodes, i) && BlockOk(nodes, i)
    requires forall x :: x in s ==> x == nodes[i].fis + k || x in OrderFrom(nodes, nodes[i].fis + k, 0)
    requires forall y :: y in t ==> y in OrderFrom(nodes, i, k + 1)
    ensures NoneAbove(nodes, s, t) && NoneAbove(nodes, t, s)
  {
    forall x, y | x in s && y in t ensures x < |nodes| && y < |nodes| && !Under(nodes, x, y) && !Under(nodes, y, x) {
      SidesApart(nodes, i, k, x, y);
    }
  }

  /** children_first_visit calls back on a node after its whole subtree. */
  lemma {:induction false} ChildrenComeFirst(nodes: seq<Node>, i: nat, k: nat)
    requires Shape(nodes) && i < |nodes| && k <= Count(nodes, i)
    ensures SubtreesFirst(nodes, ChildrenFirstFrom(nodes, i, k))
    decreases |nodes| - i, Count(nodes, i) - k
  {
    if k == Count(nodes, i) {
    } else {
      assert BlockOk(nodes, i);
      ChildrenComeFirst(nodes, nodes[i].fis + k, 0);
      ChildrenComeFirst(nodes, i, k + 1);
      ChildrenFirstTurn(nodes, i, k);
    }
  }

  lemma ChildrenFirstSides(nodes: seq<Node>, i: nat, k: nat)
    requires Shape(nodes) && i < |nodes| && k < Count(nodes, i) && BlockOk(nodes, i)
    ensures var c := nodes[i].fis + k;
            var sub, rest := ChildrenFirstFrom(nodes, c, 0), ChildrenFirstFrom(nodes, i, k + 1);
            NoneAbove(nodes, sub, [c]) && NoneAbove(nodes, sub + [c], rest)
  {
    var c := nodes[i].fis + k;
    var sub, rest := ChildrenFirstFrom(nodes, c, 0), ChildrenFirstFrom(nodes, i, k + 1);
    WalksAgree(nodes, c, 0);
    WalksAgree(nodes, i, k + 1);
    SameElements(sub, OrderFrom(nodes, c, 0));
    SameElements(rest, OrderFrom(nodes, i, k + 1));
    NoneAboveChild(nodes, i, k, sub);
    NoneAboveSides(nodes, i, k, sub + [c], rest);
  }

  lemma ChildrenFirstTurn(nodes: seq<Node>, i: nat, k: nat)
    requires Shape(nodes) && i < |nodes| && k < Count(nodes, i) && BlockOk(nodes, i)
    requires SubtreesFirst(nodes, ChildrenFirstFrom(nodes, nodes[i].fis + k, 0))
    requires SubtreesFirst(nodes, ChildrenFirstFrom(nodes, i, k + 1))
    ensures SubtreesFirst(nodes, ChildrenFirstFrom(nodes, i, k))
  {
    var c := nodes[i].fis + k;
    var sub, rest := ChildrenFirstFrom(nodes, c, 0), ChildrenFirstFrom(nodes, i, k + 1);
    ChildrenFirstSides(nodes, i, k);
    OneTurn(nodes, i, k);
    assert ChildrenFirstFrom(nodes, i, k) == sub + [c] + rest;
    JoinThreeSubtreesFirst(nodes, sub, [c], rest);
  }

  /** depth_first_visit calls back on a node before its whole subtree. */
  lemma {:induction false} ParentsComeFirst(nodes: seq<Node>, i: nat, k: nat)
    requires Shape(nodes) && i < |nodes| && k <= Count(nodes, i)
    ensures ParentsFirst(nodes, OrderFrom(nodes, i, k))
    decreases |nodes| - i, Count(nodes, i) - k
  {
    if k == Count(nodes, i) {
    } else {
      assert BlockOk(nodes, i);
      ParentsComeFirst(nodes, nodes[i].fis + k, 0);
      ParentsComeFirst(nodes, i, k + 1);
      ParentsFirstTurn(nodes, i, k);
    }
  }

  lemma ParentsFirstTurn(nodes: seq<Node>, i: nat, k: nat)
    requires Shape(nodes) && i < |nodes| && k < Count(nodes, i) && BlockOk(nodes, i)
    requires ParentsFirst(nodes, OrderFrom(nodes, nodes[i].fis + k, 0))
    requires ParentsFirst(nodes, OrderFrom(nodes, i, k + 1))
    ensures ParentsFirst(nodes, OrderFrom(nodes, i, k))
  {
    var c := nodes[i].fis + k;
    var sub, rest := OrderFrom(nodes, c, 0), OrderFrom(nodes, i, k + 1);
    NoneAboveChild(nodes, i, k, sub);
    NoneAboveSides(nodes, i, k, [c] + sub, rest);
    OneTurn(nodes, i, k);
    assert OrderFrom(nodes, i, k) == [c] + sub + rest;
    JoinThreeParentsFirst(nodes, [c], sub, rest);
  }

  lemma PrefixIsDistinct(s: seq<nat>, t: seq<nat>)
    requires Distinct(s + t)
    ensures Distinct(s)
    ensures forall x :: x in s ==> x !in t
  {
    forall i, j | 0 <= i < j < |s| ensures s[i] != s[j] {
      assert (s + t)[i] == s[i] && (s + t)[j] == s[j];
    }
    forall i, j | 0 <= i < |s| && 0 <= j < |t| ensures s[i] != t[j] {
      assert (s + t)[i] == s[i] && (s + t)[|s| + j] == t[j];
    }
  }

  ghost predicate InRange(s: seq<nat>, n: nat) {
    forall k :: 0 <= k < |s| ==> s[k] < n
  }

  /** The calls made so far, followed by those of the walk below i from child k on. */
  ghost function Calls(nodes: seq<Node>, done: seq<nat>, i: nat, k: nat): seq<nat>
    requires Shape(nodes) && i < |nodes| && k <= Count(nodes, i)
  {
    done + OrderFrom(nodes, i, k)
  }

  ghost predicate CanVisit(nodes: seq<Node>, done: seq<nat>, i: nat, k: nat)
    requires Shape(nodes) && i < |nodes| && k <= Count(nodes, i)
  {
    Distinct(Calls(nodes, done, i, k)) && Distinct(done) && InRange(done, |nodes|)
  }

  /** One turn of the walk's loop: child k of i is called, then its subtree. */
  lemma WalkSplit(nodes: seq<Node>, i: nat, k: nat, done: seq<nat>) returns (c: nat, called: seq<nat>, below: seq<nat>)
    requires Shape(nodes) && i < |nodes| && k < Count(nodes, i)
    requires CanVisit(nodes, done, i, k)
    ensures c == nodes[i].fis + k && i < c < |nodes| && c !in done
    ensures called == done + [c] && |called| > 0 && called[..|called| - 1] == done && called[|called| - 1] == c
    ensures below == Calls(nodes, called, c, 0)
    ensures Calls(nodes, below, i, k + 1) == Calls(nodes, done, i, k)
    ensures CanVisit(nodes, called, c, 0) && CanVisit(nodes, below, i, k + 1)
  {
    assert BlockOk(nodes, i);
    c := nodes[i].fis + k;
    var sub, rest := OrderFrom(nodes, c, 0), OrderFrom(nodes, i, k + 1);
    called := done + [c];
    below := called + sub;
    assert OrderFrom(nodes, i, k) == [c] + sub + rest;
    assert done + ([c] + sub + rest) == below + rest;
    PrefixIsDistinct(below, rest);
    PrefixIsDistinct(called, sub);
    NotAmongCalled(done, c);
    OrderInRange(nodes, c, 0);
    RangeJoin(called, sub, |nodes|);
  }

  lemma NotAmongCalled(done: seq<nat>, c: nat)
    requires Distinct(done + [c])
    ensures c !in done && Distinct(done)
  {
    PrefixIsDistinct(done, [c]);
    assert c in [c];
  }

  lemma RangeJoin(s: seq<nat>, t: seq<nat>, n: nat)
    requires InRange(s, n) && forall x :: x in t ==> x < n
    ensures InRange(s + t, n)
  {
    forall k | 0 <= k < |s + t| ensures (s + t)[k] < n {
      assert |s| <= k ==> (s + t)[k] == t[k - |s|] && t[k - |s|] in t;
    }
  }
}
