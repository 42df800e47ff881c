/** Section headers, the lookup of an address in the file, and the strings found there.
    Additions that the source does in 32 bits are wrapped explicitly. */
module Section {
  import opened Words

  datatype Header = Header(va: uint32, virtualSize: uint32, rawPtr: uint32, rawSize: uint32)

  const MAX_INT := 0x7FFF_FFFF
  const STR_LEN_MAX: uint32 := 32 * 1024

  // ---- Validation of the headers ----

  predicate Ascending(s: seq<Header>) {
    forall i, j :: 0 <= i < j < |s| ==> s[i].va < s[j].va
  }

  /** The raw data of the section lies in the file. */
  predicate InFile(h: Header, fileSize: int) {
    h.rawPtr + h.rawSize <= fileSize && h.rawPtr != MAX_INT && h.rawSize != MAX_INT
  }

  ghost predicate SectionsOk(s: seq<Header>, fileSize: int) {
    Ascending(s) && forall i :: 0 <= i < |s| ==> InFile(s[i], fileSize)
  }

  lemma {:induction false} NeighboursAscend(s: seq<Header>, i: nat, j: nat)
    requires forall k :: 0 < k < |s| ==> s[k].va > s[k - 1].va
    requires i < j < |s|
    ensures s[i].va < s[j].va
  {
    if i + 1 == j {
    } else {
      NeighboursAscend(s, i, j - 1);
    }
  }

  /** The section part of pe_parse_coff_full_32_64: accepts exactly the headers whose
      sections ascend and lie in the file, and its signed sums do not overflow. */
  method ValidateSections(s: seq<Header>, fileSize: nat) returns (ok: bool)
    requires |s| <= 0xFFFF && fileSize <= MAX_INT
    ensures ok <==> SectionsOk(s, fileSize)
  {
    var i, n := 1, |s|;
    while i < n
      invariant 1 <= i
      invariant forall k :: 0 < k < i && k < n ==> s[k].va > s[k - 1].va
    {
      if !(s[i].va > s[i - 1].va) {
        return false;
      }
      i := i + 1;
    }
    forall a, b | 0 <= a < b < n ensures s[a].va < s[b].va {
      NeighboursAscend(s, a, b);
    }
    i := 0;
    while i != n
      invariant i <= n
      invariant forall k :: 0 <= k < i ==> InFile(s[k], fileSize)
      decreases n - i
    {
      var h := s[i];
      if !(h.rawPtr < MAX_INT && h.rawSize < MAX_INT) {
        assert !InFile(h, fileSize);
        return false;
      }
      if !(h.rawSize <= MAX_INT - h.rawPtr && fileSize >= h.rawPtr) {
        assert !InFile(h, fileSize);
        return false;
      }
      assert h.rawPtr + h.rawSize <= MAX_INT;
      if !(fileSize >= h.rawPtr + h.rawSize) {
        assert !InFile(h, fileSize);
        return false;
      }
      i := i + 1;
    }
    return true;
  }

  // ---- Finding an object ----

  /** The section's addresses hold va, and its end is below the top of the address space. */
  predicate Holds(h: Header, va: uint32) {
    h.va <= va < h.va + h.rawSize < 0x1_0000_0000
  }

  /** The first section that holds va. */
  function FirstHolding(s: seq<Header>, va: uint32): (k: nat)
    ensures k <= |s| && (k < |s| ==> Holds(s[k], va))
    ensures forall j :: 0 <= j < k ==> !Holds(s[j], va)
  {
    if s == [] then 0
    else if Holds(s[0], va) then 0
    else 1 + FirstHolding(s[1..], va)
  }

  function RawOf(h: Header, va: uint32): int {
    h.rawPtr + (va - h.va)
  }

  /** Offset raw of the file is loaded at address va: both are as far into the section. */
  predicate LoadedAt(h: Header, va: int, raw: int) {
    0 <= va - h.va < h.rawSize && raw - h.rawPtr == va - h.va
  }

  /** The comparison of the source, which wraps, holds for exactly these sections: one
      that reaches the top of the address space holds nothing. */
  lemma WrappedComparison(h: Header, va: uint32)
    requires h.rawSize < 0x8000_0000
    ensures (va >= h.va && va < Wrap32(h.va + h.rawSize)) <==> Holds(h, va)
  {
  }

  /** The size check of the source, with its wrap written out: it lets an object through
      that fits, or one so large that the sum wraps. */
  predicate SizeAccepted(h: Header, va: uint32, size: uint32) {
    RawOf(h, va) + size <= h.rawPtr + h.rawSize || RawOf(h, va) + size >= 0x1_0000_0000
  }

  lemma WrappedSizeCheck(h: Header, fileSize: nat, va: uint32, size: uint32)
    requires fileSize <= MAX_INT && InFile(h, fileSize) && Holds(h, va)
    ensures Wrap32(h.rawPtr + (va - h.va)) == RawOf(h, va)
    ensures Wrap32(RawOf(h, va) + size) <= Wrap32(h.rawPtr + h.rawSize) <==> SizeAccepted(h, va, size)
  {
  }

  /** pe_find_object_in_raw. */
  method FindObjectInRaw(s: seq<Header>, fileSize: nat, va: uint32, size: uint32) returns (raw: uint32, sct: nat)
    requires fileSize <= MAX_INT && SectionsOk(s, fileSize)
    ensures var k := FirstHolding(s, va);
            raw == if k < |s| && SizeAccepted(s[k], va, size) then RawOf(s[k], va) else 0
    ensures raw != 0 ==> sct == FirstHolding(s, va) < |s| && LoadedAt(s[sct], va, raw)
  {
    var i, n := 0, |s|;
    while i != n
      invariant i <= n && forall j :: 0 <= j < i ==> !Holds(s[j], va)
      decreases n - i
    {
      var h := s[i];
      assert InFile(h, fileSize);
      WrappedComparison(h, va);
      if va >= h.va && va < Wrap32(h.va + h.rawSize) {
        FirstIs(s, va, i);
        WrappedSizeCheck(h, fileSize, va, size);
        var inside := va - h.va;
        var objRaw := Wrap32(h.rawPtr + inside);
        if !(Wrap32(objRaw + size) <= Wrap32(h.rawPtr + h.rawSize)) {
          return 0, 0;
        }
        return objRaw, i;
      }
      i := i + 1;
    }
    return 0, 0;
  }

  lemma FirstIs(s: seq<Header>, va: uint32, i: nat)
    requires i < |s| && Holds(s[i], va) && forall j :: 0 <= j < i ==> !Holds(s[j], va)
    ensures FirstHolding(s, va) == i
  {
  }

  /** The object lies in the section's raw data and so in the file. */
  predicate ObjectInside(h: Header, fileSize: nat, raw: int, size: uint32) {
    h.rawPtr <= raw && raw + size <= h.rawPtr + h.rawSize <= fileSize
  }

  /** A nonzero result is the file offset of va in the first section that holds it, and
      the object lies inside exactly when offset plus size does not wrap; below 2^31 it
      never does. */
  lemma FoundObjectsExactly(s: seq<Header>, fileSize: nat, va: uint32, size: uint32)
    requires fileSize <= MAX_INT && SectionsOk(s, fileSize)
    requires FirstHolding(s, va) < |s| && SizeAccepted(s[FirstHolding(s, va)], va, size)
    ensures var h := s[FirstHolding(s, va)];
            && (ObjectInside(h, fileSize, RawOf(h, va), size) <==> RawOf(h, va) + size < 0x1_0000_0000)
            && (size < 0x8000_0000 ==> ObjectInside(h, fileSize, RawOf(h, va), size))
  {
    assert InFile(s[FirstHolding(s, va)], fileSize);
  }

  /** A valid section that reaches the top of the address space: its addresses are not
      found in any section. */
  lemma TopSectionIsMissed()
    ensures exists s: seq<Header>, fileSize: nat, va: uint32 ::
              && fileSize <= MAX_INT && SectionsOk(s, fileSize) && |s| == 1
              && s[0].va <= va < s[0].va + s[0].rawSize && FirstHolding(s, va) == |s|
  {
    var s := [Header(0xFFFF_F000, 0x1000, 0x400, 0x1000)];
    assert SectionsOk(s, 0x1400) && !Holds(s[0], 0xFFFF_F800);
    assert s[1..] == [];
    assert s[0].va <= 0xFFFF_F800 < s[0].va + s[0].rawSize && FirstHolding(s, 0xFFFF_F800) == |s|;
  }

  /** A size that wraps: the object is reported although it does not fit. */
  lemma HugeSizeWraps()
    ensures exists s, fileSize: nat, va: uint32, size: uint32 ::
              && fileSize <= MAX_INT && SectionsOk(s, fileSize) && FirstHolding(s, va) < |s|
              && SizeAccepted(s[FirstHolding(s, va)], va, size)
              && !ObjectInside(s[FirstHolding(s, va)], fileSize, RawOf(s[FirstHolding(s, va)], va), size)
  {
    var h := Header(0x1000, 0x200, 0x400, 0x200);
    var s := [h];
    assert SectionsOk(s, 0x600) && FirstHolding(s, 0x1010) == 0;
    assert SizeAccepted(s[FirstHolding(s, 0x1010)], 0x1010, 0xFFFF_FC00);
  }

  predicate DataApart(s: seq<Header>) {
    forall k :: 0 <= k < |s| - 1 ==> s[k].va + s[k].rawSize <= s[k + 1].va
  }

  lemma LaterSectionsAreAbove(s: seq<Header>, va: uint32, i: nat, j: nat)
    requires Ascending(s) && DataApart(s) && i < j < |s| && Holds(s[i], va)
    ensures va < s[j].va
  {
    assert s[i].va + s[i].rawSize <= s[i + 1].va;
    assert i + 1 < j ==> s[i + 1].va < s[j].va;
  }

  /** When no section's raw data runs into the next section, at most one section holds an
      address: taking the first one loses nothing. */
  lemma OnlyOneHolds(s: seq<Header>, va: uint32)
    requires Ascending(s) && DataApart(s)
    ensures forall i, j :: 0 <= i < |s| && 0 <= j < |s| && Holds(s[i], va) && Holds(s[j], va) ==> i == j
  {
    forall i, j | 0 <= i < j < |s| && Holds(s[i], va) ensures !Holds(s[j], va) {
      LaterSectionsAreAbove(s, va, i, j);
    }
  }

  // ---- Strings ----

  predicate Printable(c: uint8) {
    32 <= c <= 126
  }

  predicate AllPrintable(file: seq<uint8>, from: nat, len: nat)
    requires from + len <= |file|
  {
    forall i :: from <= i < from + len ==> Printable(file[i])
  }

  /** A string of the file: printable, and ended by a NUL, or by the end of raw data that
      the loader extends with zeros. */
  ghost predicate IsString(file: seq<uint8>, h: Header, raw: nat, len: nat) {
    && 1 <= len <= 0x7FFF && raw + len <= h.rawPtr + h.rawSize <= |file|
    && AllPrintable(file, raw, len)
    && ((raw + len < h.rawPtr + h.rawSize && file[raw + len] == 0)
        || (raw + len == h.rawPtr + h.rawSize && h.virtualSize > h.rawSize))
  }

  /** pe_parse_string_raw, called with an offset in the section: accepts exactly when
      there is a string, and gives its length. */
  method ParseStringRaw(file: seq<uint8>, raw: uint32, h: Header) returns (r: Option<uint16>)
    requires |file| <= MAX_INT && InFile(h, |file|)
    requires h.rawPtr <= raw <= h.rawPtr + h.rawSize
    ensures r.Some? ==> raw != 0 && IsString(file, h, raw, r.value)
    ensures r.None? ==> raw == 0 || forall len: nat :: !IsString(file, h, raw, len)
  {
    if raw == 0 {
      return None;
    }
    var rest := Wrap32(h.rawPtr + h.rawSize - raw);
    var limit: uint32 := if STR_LEN_MAX < rest then STR_LEN_MAX else rest;
    var len := 0;
    while len != limit && file[raw + len] != 0
      invariant 0 <= len <= limit && forall i :: raw <= i < raw + len ==> file[i] != 0
      decreases limit - len
    {
      len := len + 1;
    }
    forall k: nat | IsString(file, h, raw, k) ensures k == len {
      StringEndsThere(file, h, raw, len, k);
    }
    var found := len != limit;
    var couldBeOutOfBounds := limit != STR_LEN_MAX && h.virtualSize > h.rawSize;
    if !found && !couldBeOutOfBounds {
      return None;
    }
    if len < 1 {
      return None;
    }
    var ascii := IsAscii(file, raw, len);
    return if ascii then Some(Wrap16(len)) else None;
  }

  /** pe_is_ascii. */
  method IsAscii(file: seq<uint8>, from: nat, len: nat) returns (ok: bool)
    requires from + len <= |file|
    ensures ok <==> AllPrintable(file, from, len)
    ensures ok <==> forall i :: from <= i < from + len ==> ' ' as int <= file[i] <= '~' as int
  {
    var i := 0;
    while i != len
      invariant i <= len && AllPrintable(file, from, i)
      decreases len - i
    {
      if !Printable(file[from + i]) {
        return false;
      }
      i := i + 1;
    }
    return true;
  }

  /** A string can only have the length at which the search stopped. */
  lemma StringEndsThere(file: seq<uint8>, h: Header, raw: nat, len: nat, k: nat)
    requires h.rawPtr + h.rawSize <= |file| && IsString(file, h, raw, k)
    requires raw + len <= h.rawPtr + h.rawSize && forall i :: raw <= i < raw + len ==> file[i] != 0
    requires len == 0x8000 || raw + len == h.rawPtr + h.rawSize || file[raw + len] == 0
    ensures k == len
  {
  }

  /** pe_parse_string_rva: a string is accepted only from the first section that holds
      its address, with its first two bytes, and every accepted string is one. */
  method ParseStringRva(file: seq<uint8>, s: seq<Header>, rva: uint32) returns (r: Option<(uint32, uint16)>)
    requires |file| <= MAX_INT && SectionsOk(s, |file|)
    ensures r.Some? <==>
              var k := FirstHolding(s, rva);
              && rva != 0 && k < |s| && RawOf(s[k], rva) > 0
              && RawOf(s[k], rva) + 2 <= s[k].rawPtr + s[k].rawSize
              && exists len: nat :: IsString(file, s[k], RawOf(s[k], rva), len)
    ensures r.Some? ==> r.value.0 == RawOf(s[FirstHolding(s, rva)], rva)
                        && IsString(file, s[FirstHolding(s, rva)], r.value.0, r.value.1)
  {
    if rva == 0 {
      return None;
    }
    var raw, sct := FindObjectInRaw(s, |file|, rva, 2);
    if raw == 0 {
      return None;
    }
    assert InFile(s[sct], |file|);
    var len := ParseStringRaw(file, raw, s[sct]);
    match len {
      case None => return None;
      case Some(l) => return Some((raw, l));
    }
  }
}
