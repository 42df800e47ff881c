/** Machine words of the program. Arithmetic that the program does in 16 or 32
    bits is written with an explicit wrap. */
module Words {

  type uint8 = x: int | 0 <= x < 0x100
  type uint16 = x: int | 0 <= x < 0x10000
  type uint32 = x: int | 0 <= x < 0x1_0000_0000

  const NO_INDEX: uint16 := 0xFFFF
  const UNMATCHED: uint16 := 0xFFFE

  function Wrap16(x: int): uint16 {
    x % 0x10000
  }

  function Wrap32(x: int): uint32 {
    x % 0x1_0000_0000
  }

  datatype Option<+T> = None | Some(value: T)

  datatype Result<+T, +E> = Success(value: T) | Failure(error: E)

  /** No value occurs twice. */
  ghost predicate Distinct<T(!new)>(s: seq<T>) {
    forall i, j :: 0 <= i < j < |s| ==> s[i] != s[j]
  }

  ghost function Elements<T(!new)>(s: seq<T>): set<T> {
    set x | x in s
  }

  lemma {:induction false} DistinctSize<T(!new)>(s: seq<T>)
    requires Distinct(s)
    ensures |Elements(s)| == |s|
  {
    if s == [] {
    } else {
      var l := |s| - 1;
      DistinctSize(s[..l]);
      assert s == s[..l] + [s[l]];
      assert forall i :: 0 <= i < l ==> s[..l][i] != s[l];
      assert s[l] !in Elements(s[..l]);
      assert Elements(s) == Elements(s[..l]) + {s[l]};
    }
  }

  lemma SameElements<T>(s: seq<T>, r: seq<T>)
    requires multiset(s) == multiset(r)
    ensures forall x :: x in s <==> x in r
  {
    forall x ensures x in s <==> x in r {
      assert x in s <==> x in multiset(s);
      assert x in r <==> x in multiset(r);
    }
  }

  /** The pigeonhole step: a set of m indices below m holds all of them. */
  lemma {:induction false} FullIndexSet(s: set<nat>, m: nat)
    requires forall k :: k in s ==> k < m
    requires |s| == m
    ensures forall k: nat :: k < m ==> k in s
  {
    if m == 0 {
    } else {
      if m - 1 in s {
        var t := s - {m - 1};
        FullIndexSet(t, m - 1);
      } else {
        IndexSetSize(s, m - 1);
      }
    }
  }

  lemma {:induction false} IndexSetSize(s: set<nat>, m: nat)
    requires forall k :: k in s ==> k < m
    ensures |s| <= m
  {
    if m > 0 {
      if m - 1 in s {
        IndexSetSize(s - {m - 1}, m - 1);
      } else {
        IndexSetSize(s, m - 1);
      }
    } else {
      assert s == {};
    }
  }
}
