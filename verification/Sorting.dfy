/** A stable sort with a comparison argument, standing in for the sorts of the
    standard library: what it computes is pinned down by the lemmas. */
module Sorting {
  import opened Words

  /** Append x behind every element it is not less than. */
  function Insert(lt: (nat, nat) -> bool, t: seq<nat>, x: nat): (r: seq<nat>)
    ensures multiset(r) == multiset(t) + multiset{x} && |r| == |t| + 1
  {
    if t == [] then [x]
    else
      var l := |t| - 1;
      assert t == t[..l] + [t[l]];
      if lt(x, t[l]) then Insert(lt, t[..l], x) + [t[l]] else t + [x]
  }

  function StableSort(lt: (nat, nat) -> bool, s: seq<nat>): (r: seq<nat>)
    ensures multiset(r) == multiset(s) && |r| == |s|
  {
    if s == [] then []
    else
      var l := |s| - 1;
      assert s == s[..l] + [s[l]];
      Insert(lt, StableSort(lt, s[..l]), s[l])
  }

  /** A strict weak order on the elements of s. */
  ghost predicate WeakOrder(lt: (nat, nat) -> bool, s: seq<nat>) {
    && (forall x, y :: x in s && y in s && lt(x, y) ==> !lt(y, x))
    && (forall x, y, z :: x in s && y in s && z in s && !lt(y, x) && !lt(z, y) ==> !lt(z, x))
  }

  ghost predicate Before(s: seq<nat>, x: nat, y: nat) {
    exists i, j :: 0 <= i < j < |s| && s[i] == x && s[j] == y
  }

  /** x belongs in front of y: it is less, or neither is less and x came first. */
  ghost predicate Precedes(lt: (nat, nat) -> bool, s: seq<nat>, x: nat, y: nat) {
    lt(x, y) || (!lt(y, x) && Before(s, x, y))
  }

  ghost predicate StableSorted(lt: (nat, nat) -> bool, s: seq<nat>, r: seq<nat>) {
    forall i, j :: 0 <= i < j < |r| ==> Precedes(lt, s, r[i], r[j])
  }

  lemma BeforeAppend(s: seq<nat>, x: nat, y: nat, z: nat)
    ensures Before(s, x, y) ==> Before(s + [z], x, y)
    ensures x in s ==> Before(s + [z], x, z)
  {
    var t := s + [z];
    if Before(s, x, y) {
      var i, j :| 0 <= i < j < |s| && s[i] == x && s[j] == y;
      assert t[i] == x && t[j] == y;
    }
    if x in s {
      var i :| 0 <= i < |s| && s[i] == x;
      assert t[i] == x && t[|s|] == z;
    }
  }

  lemma InsertMembers(lt: (nat, nat) -> bool, t: seq<nat>, x: nat)
    ensures forall y :: y in Insert(lt, t, x) ==> y in t || y == x
  {
    forall y | y in Insert(lt, t, x) ensures y in t || y == x {
      assert y in multiset(Insert(lt, t, x));
    }
  }

  lemma SortedThenLast(lt: (nat, nat) -> bool, b: seq<nat>, front: seq<nat>, last: nat)
    requires StableSorted(lt, b, front)
    requires forall i :: 0 <= i < |front| ==> Precedes(lt, b, front[i], last)
    ensures StableSorted(lt, b, front + [last])
  {
  }

  /** The last element stays behind what is inserted in front of it. */
  lemma LastStaysLast(lt: (nat, nat) -> bool, b: seq<nat>, t: seq<nat>, x: nat, y: nat)
    requires t != [] && StableSorted(lt, b, t) && lt(x, t[|t| - 1])
    requires y in Insert(lt, t[..|t| - 1], x)
    ensures Precedes(lt, b, y, t[|t| - 1])
  {
    var l := |t| - 1;
    InsertMembers(lt, t[..l], x);
    if y != x {
      var j :| 0 <= j < l && t[..l][j] == y;
      assert Precedes(lt, b, t[j], t[l]);
    }
  }

  /** An element that is not less than the last one goes to the end. */
  lemma NewLast(lt: (nat, nat) -> bool, s: seq<nat>, t: seq<nat>, x: nat, i: nat)
    requires WeakOrder(lt, s + [x]) && (forall y :: y in t ==> y in s)
    requires StableSorted(lt, s + [x], t) && t != [] && !lt(x, t[|t| - 1]) && i < |t|
    ensures Precedes(lt, s + [x], t[i], x)
  {
    var l := |t| - 1;
    assert t[i] in t && t[l] in t && x in s + [x];
    BeforeAppend(s, t[i], x, x);
    if i < l {
      assert Precedes(lt, s + [x], t[i], t[l]);
    }
  }

  /** Inserting into a sorted sequence, element by element from the back. */
  lemma {:induction false} InsertKeepsSorted(lt: (nat, nat) -> bool, s: seq<nat>, t: seq<nat>, x: nat)
    requires WeakOrder(lt, s + [x]) && (forall y :: y in t ==> y in s)
    requires StableSorted(lt, s + [x], t)
    ensures StableSorted(lt, s + [x], Insert(lt, t, x))
  {
    var b := s + [x];
    if t == [] {
    } else if lt(x, t[|t| - 1]) {
      var l := |t| - 1;
      var front := Insert(lt, t[..l], x);
      InsertKeepsSorted(lt, s, t[..l], x);
      forall i | 0 <= i < |front| ensures Precedes(lt, b, front[i], t[l]) {
        LastStaysLast(lt, b, t, x, front[i]);
      }
      SortedThenLast(lt, b, front, t[l]);
    } else {
      forall i | 0 <= i < |t| ensures Precedes(lt, b, t[i], x) {
        NewLast(lt, s, t, x, i);
      }
      SortedThenLast(lt, b, t, x);
    }
  }

  /** The result of the sort is ordered, and ties keep their previous order. */
  lemma {:induction false} SortIsStable(lt: (nat, nat) -> bool, s: seq<nat>)
    requires WeakOrder(lt, s)
    ensures StableSorted(lt, s, StableSort(lt, s))
  {
    if s == [] {
    } else {
      var l := |s| - 1;
      var p, x := s[..l], s[l];
      assert s == p + [x];
      assert forall y :: y in p ==> y in s;
      SortIsStable(lt, p);
      var t := StableSort(lt, p);
      SameElements(p, t);
      forall i, j | 0 <= i < j < |t| ensures Precedes(lt, p + [x], t[i], t[j]) {
        assert Precedes(lt, p, t[i], t[j]);
        BeforeAppend(p, t[i], t[j], x);
      }
      InsertKeepsSorted(lt, p, t, x);
    }
  }

  /** A rearrangement of distinct elements is distinct. */
  lemma RearrangedIsDistinct(s: seq<nat>, r: seq<nat>)
    requires Distinct(s) && multiset(s) == multiset(r)
    ensures Distinct(r)
  {
    forall x ensures multiset(s)[x] <= 1 {
      OnceInDistinct(s, x);
    }
    forall i, j | 0 <= i < j < |r| ensures r[i] != r[j] {
      assert r == r[..j] + [r[j]] + r[j + 1..];
      assert r[..j] == r[..i] + [r[i]] + r[i + 1..j];
      assert multiset(r)[r[i]] <= 1;
    }
  }

  lemma {:induction false} OnceInDistinct(s: seq<nat>, x: nat)
    requires Distinct(s)
    ensures multiset(s)[x] <= 1
  {
    if s == [] {
    } else {
      var l := |s| - 1;
      OnceInDistinct(s[..l], x);
      assert s == s[..l] + [s[l]];
      forall i | 0 <= i < l ensures s[..l][i] != s[l] {
        assert s[i] != s[l];
      }
      assert s[l] !in s[..l] && s[l] !in multiset(s[..l]);
    }
  }
}
