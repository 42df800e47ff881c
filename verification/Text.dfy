/** Counted strings of code units: exact order and equality, and the
    case-insensitive hash, equality and order that set bit 5 of every unit. */
module Text {
  import opened Words

  type Code = uint16
  type Str = seq<Code>

  /** strcmp and wcscmp on strings without an inner terminator. */
  predicate Less(a: Str, b: Str)
    decreases |a|
  {
    if b == [] then false
    else if a == [] then true
    else a[0] < b[0] || (a[0] == b[0] && Less(a[1..], b[1..]))
  }

  lemma {:induction false} LessIrreflexive(a: Str)
    ensures !Less(a, a)
    decreases |a|
  {
    if a == [] {
    } else {
      LessIrreflexive(a[1..]);
    }
  }

  lemma {:induction false} LessTransitive(a: Str, b: Str, c: Str)
    requires Less(a, b) && Less(b, c)
    ensures Less(a, c)
    decreases |a|
  {
    if a == [] {
    } else if a[0] == b[0] == c[0] {
      LessTransitive(a[1..], b[1..], c[1..]);
    }
  }

  lemma {:induction false} LessTotal(a: Str, b: Str)
    ensures a == b || Less(a, b) || Less(b, a)
    decreases |a|
  {
    if a == [] || b == [] {
    } else if a[0] == b[0] {
      LessTotal(a[1..], b[1..]);
      if a[1..] == b[1..] {
        assert a == [a[0]] + a[1..] == [b[0]] + b[1..] == b;
      }
    }
  }

  /** a comes before b at place i: equal up to there, and then a ends or has the smaller unit. */
  ghost predicate LessAt(a: Str, b: Str, i: nat) {
    i <= |a| && i < |b| && a[..i] == b[..i] && (i == |a| || a[i] < b[i])
  }

  /** The order is the one of the first place where two strings differ, and a prefix
      comes first. */
  lemma {:induction false} LessExactly(a: Str, b: Str)
    ensures Less(a, b) <==> exists i: nat :: LessAt(a, b, i)
    decreases |a|
  {
    if b == [] {
    } else if a == [] {
      assert LessAt(a, b, 0);
    } else if a[0] != b[0] {
      assert a[0] < b[0] ==> LessAt(a, b, 0);
      assert forall i: nat :: LessAt(a, b, i) && i > 0 ==> a[..i][0] == b[..i][0];
    } else {
      LessExactly(a[1..], b[1..]);
      if i: nat :| LessAt(a[1..], b[1..], i) {
        assert a[..i + 1] == [a[0]] + a[1..][..i] && b[..i + 1] == [b[0]] + b[1..][..i];
        assert LessAt(a, b, i + 1);
      }
      if i: nat :| LessAt(a, b, i) {
        assert a[1..][..i - 1] == a[..i][1..] && b[1..][..i - 1] == b[..i][1..];
        assert LessAt(a[1..], b[1..], i - 1);
      }
    }
  }

  /** Not-less is transitive as well, so a scan of neighbours decides sortedness. */
  lemma NotLessTransitive(a: Str, b: Str, c: Str)
    requires !Less(b, a) && !Less(c, b)
    ensures !Less(c, a)
  {
    LessTotal(a, b);
    LessTotal(b, c);
    if a != b && b != c {
      LessTransitive(a, b, c);
      if Less(c, a) {
        LessTransitive(a, c, a);
        LessIrreflexive(a);
      }
    }
  }

  // ---- Case-insensitive comparison ----

  const FOLDED_SPACE: Code := 0x20

  /** The unit with bit 5 set. */
  function Fold(c: Code): (r: Code)
    ensures r >= FOLDED_SPACE
  {
    if (c / 0x20) % 2 == 1 then c else c + 0x20
  }

  /** Units that differ in bit 5 at most. */
  predicate SameButBit5(c: Code, d: Code) {
    c / 0x40 == d / 0x40 && c % 0x20 == d % 0x20
  }

  /** Folding sets bit 5 and keeps the bits above and below. */
  lemma FoldValue(c: Code)
    ensures Fold(c) == 0x40 * (c / 0x40) + 0x20 + c % 0x20
  {
    assert c / 0x20 == 2 * (c / 0x40) + (c / 0x20) % 2;
    assert c == 0x20 * (c / 0x20) + c % 0x20;
  }

  /** So it makes units equal exactly when they agree in all bits but that one; a NUL and
      a space are what folds to a space. */
  lemma FoldExactly(c: Code, d: Code)
    ensures Fold(c) == Fold(d) <==> SameButBit5(c, d)
    ensures Fold(c) == FOLDED_SPACE <==> c == 0 || c == 0x20
  {
    FoldValue(c);
    FoldValue(d);
  }

  /** The capital letters fold to the small ones, and to nothing else. */
  lemma LettersFold(c: Code)
    requires 0x41 <= c <= 0x5A
    ensures Fold(c) == Fold(c + 0x20) == c + 0x20
    ensures forall d: Code :: Fold(d) == Fold(c) ==> d == c || d == c + 0x20
  {
  }

  function FoldAll(s: Str): (r: Str)
    ensures |r| == |s|
    ensures forall i :: 0 <= i < |s| ==> r[i] == Fold(s[i])
  {
    if s == [] then [] else [Fold(s[0])] + FoldAll(s[1..])
  }

  /** Unit i of a counted string, whose unit at the length is the terminator. */
  function UnitAt(s: Str, i: nat): Code
    requires i <= |s|
  {
    if i < |s| then s[i] else 0
  }

  /** Equal length, and unit by unit equal in all bits but bit 5. */
  predicate SameButCase(a: Str, b: Str) {
    |a| == |b| && forall i :: 0 <= i < |a| ==> SameButBit5(a[i], b[i])
  }

  lemma CiEqualExactly(a: Str, b: Str)
    ensures CiEqual(a, b) <==> SameButCase(a, b)
  {
    if SameButCase(a, b) {
      forall i | 0 <= i < |a| ensures FoldAll(a)[i] == FoldAll(b)[i] {
        FoldExactly(a[i], b[i]);
      }
    }
    if CiEqual(a, b) {
      forall i | 0 <= i < |a| ensures SameButBit5(a[i], b[i]) {
        assert FoldAll(a)[i] == FoldAll(b)[i];
        FoldExactly(a[i], b[i]);
      }
    }
  }

  method CaseInsensitiveEqual(a: Str, b: Str) returns (r: bool)
    ensures r <==> SameButCase(a, b)
    ensures r <==> FoldAll(a) == FoldAll(b)
  {
    if |a| != |b| {
      assert |FoldAll(a)| != |FoldAll(b)|;
      return false;
    }
    var i := 0;
    while i != |a|
      invariant 0 <= i <= |a|
      invariant forall k :: 0 <= k < i ==> Fold(a[k]) == Fold(b[k])
    {
      if Fold(a[i]) != Fold(b[i]) {
        assert FoldAll(a)[i] != FoldAll(b)[i];
        CiEqualExactly(a, b);
        return false;
      }
      i := i + 1;
    }
    assert FoldAll(a) == FoldAll(b);
    CiEqualExactly(a, b);
    return true;
  }

  /** One folded unit mixed into the hash state; the mixing itself is abstract. The
      folded string alone determines the hash, so strings equal up to case hash alike. */
  method CaseInsensitiveHash(s: Str, init: int, mix: (int, Code) -> int) returns (h: int)
    ensures h == Mixed(FoldAll(s), init, mix)
    ensures forall t: Str {:trigger SameButCase(s, t)} :: SameButCase(s, t) ==> h == Mixed(FoldAll(t), init, mix)
  {
    forall t: Str | SameButCase(s, t) ensures FoldAll(s) == FoldAll(t) {
      CiEqualExactly(s, t);
    }
    h := init;
    var i := 0;
    while i != |s|
      invariant 0 <= i <= |s|
      invariant h == Mixed(FoldAll(s)[..i], init, mix)
    {
      assert FoldAll(s)[..i + 1][..i] == FoldAll(s)[..i];
      h := mix(h, Fold(s[i]));
      i := i + 1;
    }
    assert FoldAll(s)[..i] == FoldAll(s);
  }

  function Mixed(s: Str, init: int, mix: (int, Code) -> int): int {
    if s == [] then init else mix(Mixed(s[..|s| - 1], init, mix), s[|s| - 1])
  }

  /** The comparison, read from the front: the first min length + 1 folded units
      decide, and the unit after the last one is the terminator. */
  predicate FoldedLess(a: Str, b: Str)
    decreases |a|
  {
    var ca, cb := Fold(UnitAt(a, 0)), Fold(UnitAt(b, 0));
    ca < cb || (ca == cb && a != [] && b != [] && FoldedLess(a[1..], b[1..]))
  }

  /** The loop over min length + 1 units, the terminator folded like any other unit. */
  method CaseInsensitiveLess(a: Str, b: Str) returns (r: bool)
    ensures r == FoldedLess(a, b)
  {
    var n := (if |a| < |b| then |a| else |b|) + 1;
    var i := 0;
    while i != n
      invariant 0 <= i <= n
      invariant FoldedLess(a, b) == (i < n && FoldedLess(a[i..], b[i..]))
    {
      var ca, cb := Fold(UnitAt(a, i)), Fold(UnitAt(b, i));
      if ca < cb {
        return true;
      } else if cb < ca {
        return false;
      }
      if i + 1 < n {
        assert a[i..][1..] == a[i + 1..] && b[i..][1..] == b[i + 1..];
      }
      i := i + 1;
    }
    return false;
  }

  predicate CiEqual(a: Str, b: Str) {
    FoldAll(a) == FoldAll(b)
  }

  /** b is a plus something that starts with a unit folding to a space: the
      terminator of a and that unit fold to the same value. */
  predicate SpaceExtension(a: Str, b: Str) {
    |a| < |b| && FoldAll(a) == FoldAll(b[..|a|]) && Fold(b[|a|]) == FOLDED_SPACE
  }

  /** Equality up to case, and being a space-like extension, are decided head first. */
  lemma CiEqualStep(a: Str, b: Str)
    requires a != [] && b != []
    ensures CiEqual(a, b) <==> Fold(a[0]) == Fold(b[0]) && CiEqual(a[1..], b[1..])
  {
    assert FoldAll(a)[1..] == FoldAll(a[1..]);
    assert FoldAll(b)[1..] == FoldAll(b[1..]);
  }

  lemma SpaceExtensionStep(a: Str, b: Str)
    requires a != [] && b != []
    ensures SpaceExtension(a, b) <==> Fold(a[0]) == Fold(b[0]) && SpaceExtension(a[1..], b[1..])
  {
    if |a| < |b| {
      var p := b[..|a|];
      assert p[1..] == b[1..][..|a| - 1];
      CiEqualStep(a, p);
    }
  }

  /** A two-way tie of the comparison is equality up to case exactly when neither
      string is the other plus a space-like unit. */
  lemma {:induction false} TiesExactly(a: Str, b: Str)
    ensures (!FoldedLess(a, b) && !FoldedLess(b, a)) <==>
            (CiEqual(a, b) || SpaceExtension(a, b) || SpaceExtension(b, a))
    decreases |a|
  {
    if a == [] || b == [] {
    } else {
      TiesExactly(a[1..], b[1..]);
      CiEqualStep(a, b);
      SpaceExtensionStep(a, b);
      SpaceExtensionStep(b, a);
    }
  }

  /** The comparison loop runs out: no folded unit of the first min length + 1 differs. */
  predicate LoopRunsOut(a: Str, b: Str) {
    forall i :: 0 <= i <= |a| && i <= |b| ==> Fold(UnitAt(a, i)) == Fold(UnitAt(b, i))
  }

  /** The assertion behind the loop, that the lengths are equal, fails exactly on
      strings one of which is the other continued by a unit that folds to a space. */
  lemma LengthAssertionFailsExactly(a: Str, b: Str)
    ensures LoopRunsOut(a, b) && |a| != |b| <==> SpaceExtension(a, b) || SpaceExtension(b, a)
  {
    if LoopRunsOut(a, b) && |a| < |b| {
      ShorterRunsOut(a, b);
    } else if LoopRunsOut(a, b) && |b| < |a| {
      ShorterRunsOut(b, a);
    } else if SpaceExtension(a, b) {
      ExtensionRunsOut(a, b);
    } else if SpaceExtension(b, a) {
      ExtensionRunsOut(b, a);
    }
  }

  lemma ShorterRunsOut(a: Str, b: Str)
    requires LoopRunsOut(a, b) && |a| < |b|
    ensures SpaceExtension(a, b)
  {
    forall i | 0 <= i < |a| ensures FoldAll(a)[i] == FoldAll(b[..|a|])[i] {
      assert Fold(UnitAt(a, i)) == Fold(UnitAt(b, i));
    }
    assert Fold(UnitAt(a, |a|)) == Fold(UnitAt(b, |a|));
  }

  lemma ExtensionRunsOut(a: Str, b: Str)
    requires SpaceExtension(a, b)
    ensures LoopRunsOut(a, b)
  {
    forall i | 0 <= i <= |a| ensures Fold(UnitAt(a, i)) == Fold(UnitAt(b, i)) {
      if i < |a| {
        assert FoldAll(a)[i] == FoldAll(b[..|a|])[i];
      }
    }
  }

  /** a comes before b at place i up to case: all units before it agree but for bit 5, and
      there, a terminator being a space, the unit of a with bit 5 set is the smaller one. */
  ghost predicate FoldedLessAt(a: Str, b: Str, i: nat) {
    && i <= |a| && i <= |b| && SameButCase(a[..i], b[..i])
    && (UnitAt(a, i) / 0x40 < UnitAt(b, i) / 0x40
        || (UnitAt(a, i) / 0x40 == UnitAt(b, i) / 0x40 && UnitAt(a, i) % 0x20 < UnitAt(b, i) % 0x20))
  }

  lemma FoldLess(c: Code, d: Code)
    ensures Fold(c) < Fold(d) <==> c / 0x40 < d / 0x40 || (c / 0x40 == d / 0x40 && c % 0x20 < d % 0x20)
  {
    FoldValue(c);
    FoldValue(d);
  }

  /** The comparison decides at the first place that differs by more than case. */
  lemma {:induction false} FoldedLessExactly(a: Str, b: Str)
    ensures FoldedLess(a, b) <==> exists i: nat :: FoldedLessAt(a, b, i)
    decreases |a|
  {
    FoldLess(UnitAt(a, 0), UnitAt(b, 0));
    FoldExactly(UnitAt(a, 0), UnitAt(b, 0));
    if Fold(UnitAt(a, 0)) < Fold(UnitAt(b, 0)) {
      assert a[..0] == b[..0] == [];
      assert FoldedLessAt(a, b, 0);
    }
    if a != [] && b != [] && SameButBit5(a[0], b[0]) {
      FoldedLessExactly(a[1..], b[1..]);
      if i: nat :| FoldedLessAt(a[1..], b[1..], i) {
        assert a[..i + 1] == [a[0]] + a[1..][..i] && b[..i + 1] == [b[0]] + b[1..][..i];
        assert FoldedLessAt(a, b, i + 1);
      }
    }
    if i: nat :| FoldedLessAt(a, b, i) {
      FoldedLessFound(a, b, i);
    }
  }

  lemma {:induction false} FoldedLessFound(a: Str, b: Str, i: nat)
    requires FoldedLessAt(a, b, i)
    ensures FoldedLess(a, b)
    decreases i
  {
    if i == 0 {
      FoldLess(UnitAt(a, 0), UnitAt(b, 0));
    } else {
      assert a[..i][0] == a[0] && b[..i][0] == b[0];
      FoldExactly(a[0], b[0]);
      assert a[1..][..i - 1] == a[..i][1..] && b[1..][..i - 1] == b[..i][1..];
      FoldedLessFound(a[1..], b[1..], i - 1);
    }
  }

  /** Away from such pairs the comparison is the exact order of the folded strings. */
  lemma {:induction false} FoldedLessIsLexicographic(a: Str, b: Str)
    requires !SpaceExtension(a, b) && !SpaceExtension(b, a)
    ensures FoldedLess(a, b) == Less(FoldAll(a), FoldAll(b))
    decreases |a|
  {
    if a == [] && b != [] {
      assert b[..0] == [];
    } else if a != [] && b == [] {
      assert a[..0] == [];
    } else if a != [] && b != [] {
      SpaceExtensionStep(a, b);
      SpaceExtensionStep(b, a);
      if Fold(a[0]) == Fold(b[0]) {
        FoldedLessIsLexicographic(a[1..], b[1..]);
      }
      assert FoldAll(a)[1..] == FoldAll(a[1..]);
      assert FoldAll(b)[1..] == FoldAll(b[1..]);
    }
  }

  ghost predicate NoSpaceExtension(s: set<Str>) {
    forall a, b :: a in s && b in s ==> !SpaceExtension(a, b)
  }

  // ---- When it is a strict weak order, as std::sort requires ----

  lemma {:induction false} FoldedLessAsymmetric(a: Str, b: Str)
    requires FoldedLess(a, b)
    ensures !FoldedLess(b, a)
    decreases |a|
  {
    if a == [] || b == [] {
    } else if Fold(a[0]) == Fold(b[0]) {
      FoldedLessAsymmetric(a[1..], b[1..]);
    }
  }

  lemma {:induction false} FoldedLessTransitive(a: Str, b: Str, c: Str)
    requires FoldedLess(a, b) && FoldedLess(b, c)
    ensures FoldedLess(a, c)
    decreases |a|
  {
    if a == [] || b == [] || c == [] {
    } else if Fold(a[0]) == Fold(b[0]) == Fold(c[0]) {
      FoldedLessTransitive(a[1..], b[1..], c[1..]);
    }
  }

  predicate Tied(a: Str, b: Str) {
    !FoldedLess(a, b) && !FoldedLess(b, a)
  }

  /** Two strings that tie with b but not with each other both continue b. */
  lemma {:induction false} BrokenTie(a: Str, b: Str, c: Str)
    requires Tied(a, b) && Tied(b, c) && FoldedLess(a, c)
    ensures SpaceExtension(b, a) && SpaceExtension(b, c)
    decreases |b|
  {
    if b == [] {
    } else {
      BrokenTie(a[1..], b[1..], c[1..]);
      SpaceExtensionStep(b, a);
      SpaceExtensionStep(b, c);
    }
  }

  /** A strict weak order: no two elements are less than each other, and "not less" is
      transitive. */
  ghost predicate StrictWeakOrder(s: set<Str>) {
    && (forall a, b :: a in s && b in s && FoldedLess(a, b) ==> !FoldedLess(b, a))
    && (forall a, b, c :: a in s && b in s && c in s && !FoldedLess(b, a) && !FoldedLess(c, b) ==> !FoldedLess(c, a))
  }

  /** Two space-like continuations of one string of s, of which one is less, break it. */
  ghost predicate Breaks(a: Str, b: Str, c: Str) {
    SpaceExtension(b, a) && SpaceExtension(b, c) && FoldedLess(a, c)
  }

  lemma NotLessChain(a: Str, b: Str, c: Str)
    requires !FoldedLess(b, a) && !FoldedLess(c, b) && FoldedLess(c, a)
    ensures Breaks(c, b, a)
  {
    if FoldedLess(a, b) {
      FoldedLessTransitive(c, a, b);
    }
    if FoldedLess(b, c) {
      FoldedLessTransitive(b, c, a);
    }
    BrokenTie(c, b, a);
  }

  /** The comparison is a strict weak order on a set of strings if and only if no string
      of the set has two space-like continuations in it that do not tie. */
  lemma StrictWeakOrderExactly(s: set<Str>)
    ensures StrictWeakOrder(s) <==> forall a, b, c :: a in s && b in s && c in s ==> !Breaks(a, b, c)
  {
    if a, b, c :| a in s && b in s && c in s && Breaks(a, b, c) {
      TiesExactly(b, a);
      TiesExactly(b, c);
      assert !FoldedLess(b, c) && !FoldedLess(a, b);
    } else {
      forall a, b | a in s && b in s && FoldedLess(a, b) ensures !FoldedLess(b, a) {
        FoldedLessAsymmetric(a, b);
      }
      forall a, b, c | a in s && b in s && c in s && !FoldedLess(b, a) && !FoldedLess(c, b) ensures !FoldedLess(c, a) {
        if FoldedLess(c, a) {
          NotLessChain(a, b, c);
        }
      }
    }
  }

  // ---- When its ties are equality up to case ----

  /** What the modules list promises in addition: an order whose ties are equality up
      to case. */
  ghost predicate OrdersUpToCase(s: set<Str>) {
    && (forall a, b :: a in s && b in s ==> (CiEqual(a, b) <==> !FoldedLess(a, b) && !FoldedLess(b, a)))
    && (forall a, b, c :: a in s && b in s && c in s && FoldedLess(a, b) && FoldedLess(b, c) ==> FoldedLess(a, c))
  }

  /** The comparison orders a set of strings up to case if and only if no string of
      the set is another one plus a space-like unit. */
  lemma OrdersUpToCaseExactly(s: set<Str>)
    ensures OrdersUpToCase(s) <==> NoSpaceExtension(s)
  {
    if NoSpaceExtension(s) {
      forall a, b | a in s && b in s
        ensures CiEqual(a, b) <==> !FoldedLess(a, b) && !FoldedLess(b, a)
      {
        TiesExactly(a, b);
      }
      forall a, b, c | a in s && b in s && c in s && FoldedLess(a, b) && FoldedLess(b, c)
        ensures FoldedLess(a, c)
      {
        FoldedLessTransitive(a, b, c);
      }
    }
    if a, b :| a in s && b in s && SpaceExtension(a, b) {
      TiesExactly(a, b);
      assert |FoldAll(a)| < |FoldAll(b)|;
      assert !CiEqual(a, b);
    }
  }

  /** The failing family has members: "a" ties with both "a b" and "a c", which are
      themselves ordered. */
  lemma SpacesBreakTheOrder()
    ensures var a, ab, ac := [0x61], [0x61, 0x20, 0x62], [0x61, 0x20, 0x63];
            && !FoldedLess(a, ab) && !FoldedLess(ab, a)
            && !FoldedLess(a, ac) && !FoldedLess(ac, a)
            && FoldedLess(ab, ac)
            && !StrictWeakOrder({a, ab, ac}) && !NoSpaceExtension({a, ab, ac})
  {
    var a: Str, ab: Str, ac: Str := [0x61], [0x61, 0x20, 0x62], [0x61, 0x20, 0x63];
    assert ab[..1] == a && ac[..1] == a;
    assert SpaceExtension(a, ab) && SpaceExtension(a, ac);
    TiesExactly(a, ab);
    TiesExactly(a, ac);
    assert ab[1..] == [0x20, 0x62] && ac[1..] == [0x20, 0x63];
    assert ab[1..][1..] == [0x62] && ac[1..][1..] == [0x63];
    assert FoldedLess(ab[1..][1..], ac[1..][1..]);
    assert FoldedLess(ab[1..], ac[1..]);
  }

  /** One continuation alone is harmless for sorting: "a" and "a " tie, so the order is
      one, although its tie is not equality up to case. */
  lemma OneContinuationTies()
    ensures var a, a1 := [0x61], [0x61, 0x20];
            StrictWeakOrder({a, a1}) && !OrdersUpToCase({a, a1})
  {
    var a: Str, a1: Str := [0x61], [0x61, 0x20];
    assert a1[..1] == a && SpaceExtension(a, a1);
    StrictWeakOrderExactly({a, a1});
    OrdersUpToCaseExactly({a, a1});
    forall x, y, z | x in {a, a1} && y in {a, a1} && z in {a, a1} ensures !Breaks(x, y, z) {
      if Breaks(x, y, z) {
        FoldedLessAsymmetric(x, z);
      }
    }
  }
}
