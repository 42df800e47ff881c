/** Connecting the imports of one module with the exports of another. */
module Matcher {
  import opened Words
  import opened Text
  import opened ExportTable

  datatype Import = ByOrdinal(ordinal: uint16) | ByName(hint: uint16, name: Str)

  // ---- The reference: a linear scan over the exports ----

  predicate Exports(info: ExportInfo, e: nat, imp: Import)
    requires e < |info.ordinals| == |info.names|
  {
    match imp
    case ByOrdinal(ordinal) => info.ordinals[e] == ordinal
    case ByName(_, name) => info.names[e] == Some(name)
  }

  /** First export at or after index e that carries the key of the import. */
  function Scan(info: ExportInfo, imp: Import, e: nat): (r: Option<nat>)
    requires e <= |info.ordinals| == |info.names|
    ensures r.Some? ==> e <= r.value < |info.ordinals| && Exports(info, r.value, imp)
    ensures forall f :: e <= f < (if r.Some? then r.value else |info.ordinals|) ==> !Exports(info, f, imp)
    decreases |info.ordinals| - e
  {
    if e == |info.ordinals| then None
    else if Exports(info, e, imp) then Some(e)
    else Scan(info, imp, e + 1)
  }

  /** The key of the import belongs to one export at most. */
  ghost predicate UniqueKey(info: ExportInfo, imp: Import)
    requires |info.ordinals| == |info.names|
  {
    forall e, f :: 0 <= e < f < |info.ordinals| ==> !(Exports(info, e, imp) && Exports(info, f, imp))
  }

  // ---- The lookup ----

  predicate NameAt(info: ExportInfo, enpt: seq<uint16>, k: nat, name: Str)
    requires k < |enpt| && enpt[k] < |info.names|
  {
    info.names[enpt[k]] == Some(name)
  }

  /** First slot of the name table that carries the name. */
  function FirstSlot(info: ExportInfo, enpt: seq<uint16>, name: Str, k: nat): (r: nat)
    requires WellFormed(info, enpt) && k <= |enpt|
    ensures k <= r <= |enpt|
    ensures r < |enpt| ==> NameAt(info, enpt, r, name)
    ensures forall l :: k <= l < r ==> !NameAt(info, enpt, l, name)
    decreases |enpt| - k
  {
    if k == |enpt| || NameAt(info, enpt, k, name) then k else FirstSlot(info, enpt, name, k + 1)
  }

  /** The export an import is matched with, or NO_INDEX. A hint that fits wins;
      otherwise the first slot with the name does. */
  ghost function Resolve(imp: Import, info: ExportInfo, enpt: seq<uint16>): uint16
    requires WellFormed(info, enpt)
  {
    match imp
    case ByOrdinal(_) =>
      var e := Scan(info, imp, 0);
      if e.Some? then e.value else NO_INDEX
    case ByName(hint, name) =>
      var k := FirstSlot(info, enpt, name, 0);
      if hint < |enpt| && NameAt(info, enpt, hint, name) then enpt[hint]
      else if k < |enpt| then enpt[k]
      else NO_INDEX
  }

  /** std::lower_bound over ordinals. */
  method LowerBoundOrdinal(ordinals: seq<uint16>, v: uint16) returns (k: nat)
    requires forall e, f :: 0 <= e < f < |ordinals| ==> ordinals[e] < ordinals[f]
    ensures k <= |ordinals|
    ensures forall e :: 0 <= e < k ==> ordinals[e] < v
    ensures forall e :: k <= e < |ordinals| ==> ordinals[e] >= v
  {
    var lo, count := 0, |ordinals|;
    while count > 0
      invariant 0 <= lo && 0 <= count && lo + count <= |ordinals|
      invariant forall e :: 0 <= e < lo ==> ordinals[e] < v
      invariant forall e :: lo + count <= e < |ordinals| ==> ordinals[e] >= v
      decreases count
    {
      var step := count / 2;
      if ordinals[lo + step] < v {
        lo, count := lo + step + 1, count - step - 1;
      } else {
        count := step;
      }
    }
    k := lo;
  }

  /** std::lower_bound over the name table, compared through the names. */
  method LowerBoundName(info: ExportInfo, enpt: seq<uint16>, v: Str) returns (k: nat)
    requires WellFormed(info, enpt)
    ensures k <= |enpt|
    ensures forall l :: 0 <= l < k ==> Less(info.names[enpt[l]].value, v)
    ensures forall l :: k <= l < |enpt| ==> !Less(info.names[enpt[l]].value, v)
  {
    var lo, count := 0, |enpt|;
    while count > 0
      invariant 0 <= lo && 0 <= count && lo + count <= |enpt|
      invariant forall l :: 0 <= l < lo ==> Less(info.names[enpt[l]].value, v)
      invariant forall l :: lo + count <= l < |enpt| ==> !Less(info.names[enpt[l]].value, v)
      decreases count
    {
      var step := count / 2;
      var mid := lo + step;
      if Less(info.names[enpt[mid]].value, v) {
        forall l | 0 <= l < mid + 1 ensures Less(info.names[enpt[l]].value, v) {
          if l < mid {
            LessThanLess(info.names[enpt[l]].value, info.names[enpt[mid]].value, v);
          }
        }
        lo, count := mid + 1, count - step - 1;
      } else {
        forall l | mid <= l < |enpt| ensures !Less(info.names[enpt[l]].value, v) {
          if mid < l {
            NotLessTransitive(v, info.names[enpt[mid]].value, info.names[enpt[l]].value);
          }
        }
        count := step;
      }
    }
    k := lo;
  }

  lemma LessThanLess(a: Str, b: Str, c: Str)
    requires !Less(b, a) && Less(b, c)
    ensures Less(a, c)
  {
    LessTotal(a, b);
    if a != b {
      LessTransitive(a, b, c);
    }
  }

  /** Entries below the bound are less, entries from it on are not: the name is in
      the table exactly when it is at the bound. */
  lemma BoundIsFirstSlot(info: ExportInfo, enpt: seq<uint16>, v: Str, k: nat)
    requires WellFormed(info, enpt) && k <= |enpt|
    requires forall l :: 0 <= l < k ==> Less(info.names[enpt[l]].value, v)
    requires forall l :: k <= l < |enpt| ==> !Less(info.names[enpt[l]].value, v)
    ensures k < |enpt| && NameAt(info, enpt, k, v) ==> FirstSlot(info, enpt, v, 0) == k
    ensures !(k < |enpt| && NameAt(info, enpt, k, v)) ==> FirstSlot(info, enpt, v, 0) == |enpt|
  {
    LessIrreflexive(v);
    var f := FirstSlot(info, enpt, v, 0);
    if f < |enpt| {
      assert !(f < k);
      if k < f {
        assert !Less(info.names[enpt[f]].value, info.names[enpt[k]].value);
        LessTotal(info.names[enpt[k]].value, v);
      }
    }
  }

  /** One import looked up: guess first, binary search second. */
  method MatchImport(imp: Import, info: ExportInfo, enpt: seq<uint16>) returns (e: uint16)
    requires WellFormed(info, enpt)
    ensures e == Resolve(imp, info, enpt)
  {
    match imp {
      case ByOrdinal(ordinal) =>
        ghost var scan := Scan(info, imp, 0);
        var guess := Wrap16(ordinal - info.ordinalBase);
        if guess < |info.ordinals| && info.ordinals[guess] == ordinal {
          assert Exports(info, guess, imp);
          assert scan.Some? && Exports(info, scan.value, imp);
          return guess;
        }
        var k := LowerBoundOrdinal(info.ordinals, ordinal);
        if k < |info.ordinals| && info.ordinals[k] == ordinal {
          assert Exports(info, k, imp);
          assert scan.Some? && Exports(info, scan.value, imp);
          return k;
        }
        assert forall e :: 0 <= e < |info.ordinals| ==> info.ordinals[e] != ordinal;
        return NO_INDEX;
      case ByName(hint, name) =>
        if hint < |enpt| && info.names[enpt[hint]] == Some(name) {
          return enpt[hint];
        }
        var k := LowerBoundName(info, enpt, name);
        BoundIsFirstSlot(info, enpt, name, k);
        if k < |enpt| && info.names[enpt[k]] == Some(name) {
          return enpt[k];
        }
        return NO_INDEX;
    }
  }

  /** The lookup refines the scan: it finds an export exactly when the scan does,
      what it finds carries the key, and it is the scan's own answer for every
      ordinal and for every name that is exported once. */
  lemma ResolveRefinesScan(imp: Import, info: ExportInfo, enpt: seq<uint16>)
    requires WellFormed(info, enpt)
    ensures Resolve(imp, info, enpt) == NO_INDEX <==> Scan(info, imp, 0).None?
    ensures Resolve(imp, info, enpt) != NO_INDEX ==>
              Resolve(imp, info, enpt) < |info.ordinals| && Exports(info, Resolve(imp, info, enpt), imp)
    ensures imp.ByOrdinal? ==> UniqueKey(info, imp)
    ensures UniqueKey(info, imp) && Resolve(imp, info, enpt) != NO_INDEX ==>
              Scan(info, imp, 0) == Some(Resolve(imp, info, enpt))
  {
    var scan := Scan(info, imp, 0);
    match imp {
      case ByOrdinal(_) =>
      case ByName(hint, name) =>
        var r := Resolve(imp, info, enpt);
        if r != NO_INDEX {
          assert Exports(info, r, imp);
          assert scan.Some?;
          assert r <= scan.value || scan.value <= r;
        } else if scan.Some? {
          var e := scan.value;
          assert info.names[e] == Some(name) && info.hints[e] != NO_INDEX;
          assert NameAt(info, enpt, info.hints[e], name);
        }
    }
  }

  /** What is found for a name is the answer of the scan whatever the hint says if and
      only if the name is exported once at most. */
  lemma ScanAgreesExactly(name: Str, info: ExportInfo, enpt: seq<uint16>)
    requires WellFormed(info, enpt)
    ensures UniqueKey(info, ByName(0, name)) <==>
              forall hint: uint16 {:trigger ByName(hint, name)} ::
                Resolve(ByName(hint, name), info, enpt) != NO_INDEX ==>
                  Scan(info, ByName(hint, name), 0) == Some(Resolve(ByName(hint, name), info, enpt))
  {
    if UniqueKey(info, ByName(0, name)) {
      forall hint: uint16 {:trigger ByName(hint, name)} | Resolve(ByName(hint, name), info, enpt) != NO_INDEX
        ensures Scan(info, ByName(hint, name), 0) == Some(Resolve(ByName(hint, name), info, enpt))
      {
        UniqueForAnyHint(info, name, hint);
        ResolveRefinesScan(ByName(hint, name), info, enpt);
      }
    } else {
      var key := ByName(0, name);
      var e, f :| 0 <= e < f < |info.ordinals| && Exports(info, e, key) && Exports(info, f, key);
      HintOfTheLater(info, enpt, name, e, f);
    }
  }

  lemma UniqueForAnyHint(info: ExportInfo, name: Str, hint: uint16)
    requires |info.ordinals| == |info.names| && UniqueKey(info, ByName(0, name))
    ensures UniqueKey(info, ByName(hint, name))
  {
    forall e, f | 0 <= e < f < |info.ordinals|
      ensures !(Exports(info, e, ByName(hint, name)) && Exports(info, f, ByName(hint, name)))
    {
      assert !(Exports(info, e, ByName(0, name)) && Exports(info, f, ByName(0, name)));
    }
  }

  /** Of two exports with one name, the hint of the later one leads the lookup there; the
      scan stops at the earlier one at the latest. */
  lemma HintOfTheLater(info: ExportInfo, enpt: seq<uint16>, name: Str, e: nat, f: nat)
    requires WellFormed(info, enpt) && e < f < |info.names|
    requires info.names[e] == Some(name) && info.names[f] == Some(name)
    ensures Resolve(ByName(info.hints[f], name), info, enpt) == f != NO_INDEX
    ensures Scan(info, ByName(info.hints[f], name), 0) != Some(f)
  {
    assert NameAt(info, enpt, info.hints[f], name);
    assert Exports(info, e, ByName(info.hints[f], name));
  }

  /** Such a table is possible: the hint decides, and the scan names the other export. */
  lemma HintPicksAmongEqualNames()
    ensures exists info, enpt ::
              && WellFormed(info, enpt)
              && Resolve(ByName(1, [0x61]), info, enpt) == 1
              && Scan(info, ByName(1, [0x61]), 0) == Some(0)
  {
    var info := ExportInfo(1, [1, 2], [Rva(8), Rva(9)], [0, 1], [Some([0x61]), Some([0x61])]);
    var enpt: seq<uint16> := [0, 1];
    LessIrreflexive([0x61]);
    assert WellFormed(info, enpt);
    assert NameAt(info, enpt, 1, [0x61]);
    assert Exports(info, 0, ByName(1, [0x61]));
  }

  // ---- From exports back to imports ----

  /** rev[e] is the last import matched with export e, or NO_INDEX if there is none. */
  ghost predicate IsReverse(matched: seq<uint16>, rev: seq<uint16>) {
    && |matched| <= 0xFFFF && |rev| <= 0xFFFF
    && forall e :: 0 <= e < |rev| ==> LastMatch(matched, |matched|, e, rev[e])
  }

  /** i is the last of the first n imports matched with e, or NO_INDEX. */
  ghost predicate LastMatch(matched: seq<uint16>, n: nat, e: int, i: uint16)
    requires n <= |matched|
  {
    if i == NO_INDEX then forall k :: 0 <= k < n ==> matched[k] != e
    else i < n && matched[i] == e && forall k :: i < k < n ==> matched[k] != e
  }

  /** The reverse index is determined by the matches, and going from an export to
      its import and back ends where it started. */
  lemma ReverseRoundTrip(matched: seq<uint16>, rev: seq<uint16>, other: seq<uint16>, e: nat)
    requires IsReverse(matched, rev) && IsReverse(matched, other) && |rev| == |other|
    requires forall i :: 0 <= i < |matched| ==> matched[i] == NO_INDEX || matched[i] < |rev|
    requires e < |rev|
    ensures rev == other
    ensures rev[e] != NO_INDEX ==> rev[e] < |matched| && matched[rev[e]] == e
    ensures rev[e] != NO_INDEX <==> e in matched
    ensures forall i :: 0 <= i < |matched| && matched[i] != NO_INDEX ==> i <= rev[matched[i]] < |matched|
  {
    forall f | 0 <= f < |rev| ensures rev[f] == other[f] {
      assert LastMatch(matched, |matched|, f, rev[f]);
      assert LastMatch(matched, |matched|, f, other[f]);
    }
    assert LastMatch(matched, |matched|, e, rev[e]);
    forall i | 0 <= i < |matched| && matched[i] != NO_INDEX ensures i <= rev[matched[i]] < |matched| {
      assert LastMatch(matched, |matched|, matched[i], rev[matched[i]]);
    }
  }

  /** The reverse index of one imported module; used marks are only ever set. */
  method PairExportsWithImports(matched: seq<uint16>, count: nat, usedIn: seq<bool>)
    returns (rev: seq<uint16>, used: seq<bool>)
    requires |usedIn| == count <= 0xFFFF && |matched| <= 0xFFFF
    requires forall i :: 0 <= i < |matched| ==> matched[i] == NO_INDEX || matched[i] < count
    ensures |rev| == count && IsReverse(matched, rev)
    ensures |used| == count
    ensures forall e :: 0 <= e < count ==> (used[e] <==> usedIn[e] || e in matched)
  {
    var revArray := new uint16[count](_ => NO_INDEX);
    used := usedIn;
    var i := 0;
    while i != |matched|
      invariant 0 <= i <= |matched| && |used| == count
      invariant forall e :: 0 <= e < count ==> LastMatch(matched, i, e, revArray[e])
      invariant forall e :: 0 <= e < count ==> (used[e] <==> usedIn[e] || MatchedBefore(matched, i, e))
    {
      var e := matched[i];
      ghost var was := revArray[..];
      if e != NO_INDEX {
        revArray[e] := i;
        if !used[e] {
          used := used[e := true];
        }
      }
      forall f | 0 <= f < count
        ensures LastMatch(matched, i + 1, f, revArray[f])
        ensures used[f] <==> usedIn[f] || MatchedBefore(matched, i + 1, f)
      {
        assert LastMatch(matched, i, f, was[f]);
        MatchedStep(matched, i, f);
      }
      i := i + 1;
    }
    rev := revArray[..];
  }

  ghost predicate MatchedBefore(matched: seq<uint16>, n: nat, e: int)
    requires n <= |matched|
  {
    exists k :: 0 <= k < n && matched[k] == e
  }

  lemma MatchedStep(matched: seq<uint16>, n: nat, e: int)
    requires n < |matched|
    ensures MatchedBefore(matched, n + 1, e) <==> MatchedBefore(matched, n, e) || matched[n] == e
  {
    if matched[n] == e {
      assert 0 <= n < n + 1 && matched[n] == e;
    }
  }
}
