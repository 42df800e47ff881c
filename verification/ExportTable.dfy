/** The export address table: parsing its directory, compacting away unused
    slots and connecting exports with the name table. */
module ExportTable {
  import opened Words
  import opened Text

  /** The fields of the export directory that bound the three tables. */
  datatype Directory = Directory(
    ordinalBase: uint32, addressCount: uint32, nameCount: uint32,
    addressRva: uint32, nameRva: uint32, ordinalRva: uint32)

  /** What the parser sees: the directory if there is one, the located tables, the
      string behind every name pointer (None when it does not parse), the parsed
      forwarder strings by address, and the extent of the export data directory. */
  datatype ExportInput = ExportInput(
    directory: Option<Directory>,
    addresses: seq<uint32>,
    slotNames: seq<Option<Str>>,
    slotTargets: seq<uint16>,
    forwarders: map<uint32, Str>,
    dirVa: uint32, dirSize: uint32)

  datatype Entry = Rva(rva: uint32) | Forwarder(text: Str)

  datatype ExportInfo = ExportInfo(
    ordinalBase: uint16, ordinals: seq<uint16>, entries: seq<Entry>,
    hints: seq<uint16>, names: seq<Option<Str>>)

  const NO_EXPORTS := ExportInfo(0, [], [], [], [])

  /** The early return leaves the name table of the caller unset. */
  datatype Outcome = NoTable | Table(info: ExportInfo, enpt: seq<uint16>)

  datatype EatError =
    | OrdinalBaseTooHigh | TooManyAddresses | BiggestOrdinalTooHigh | MoreNamesThanAddresses
    | NameTableWithoutBody | AddressTableWithoutBody | NameColumnsDiffer
    | BadName | BadForwarder | BadHint | NotAllNamesProcessed | NamesNotSorted

  // ---- The directory ----

  function CheckDirectory(d: Directory): Option<EatError> {
    if d.ordinalBase > 0xFFFF then Some(OrdinalBaseTooHigh)
    else if d.addressCount > 0xFFFF then Some(TooManyAddresses)
    else if Wrap32(d.ordinalBase + d.addressCount) > 0xFFFF then Some(BiggestOrdinalTooHigh)
    else if d.nameCount > d.addressCount then Some(MoreNamesThanAddresses)
    else if !(d.nameCount == 0 || (d.nameRva != 0 && d.ordinalRva != 0)) then Some(NameTableWithoutBody)
    else if !(d.addressCount == 0 || d.addressRva != 0) then Some(AddressTableWithoutBody)
    else None
  }

  /** What must hold of the fields, with nothing wrapped: ordinals fit 16 bits, and a table
      that has entries has an address. */
  predicate SoundDirectory(d: Directory) {
    && d.ordinalBase + d.addressCount <= 0xFFFF
    && (d.addressCount > 0 ==> d.addressRva != 0)
    && (d.nameCount > 0 ==> d.addressCount > 0 && d.nameRva != 0 && d.ordinalRva != 0)
  }

  /** When each of the tests on sums and counts rejects. */
  lemma DirectoryErrorsExactly(d: Directory)
    ensures CheckDirectory(d) == Some(OrdinalBaseTooHigh) <==> d.ordinalBase > 0xFFFF
    ensures CheckDirectory(d) == Some(TooManyAddresses) <==> d.ordinalBase <= 0xFFFF < d.addressCount
    ensures CheckDirectory(d) == Some(BiggestOrdinalTooHigh) <==>
              d.ordinalBase <= 0xFFFF && d.addressCount <= 0xFFFF < d.ordinalBase + d.addressCount
    ensures CheckDirectory(d) == Some(MoreNamesThanAddresses) <==>
              d.ordinalBase + d.addressCount <= 0xFFFF && d.addressCount < d.nameCount
  {
  }

  /** The tables have the lengths their parsers give them. */
  predicate Located(inp: ExportInput) {
    inp.directory.Some? ==>
      var d := inp.directory.value;
      && |inp.addresses| == (if d.addressRva == 0 then 0 else d.addressCount)
      && |inp.slotNames| == (if d.nameRva == 0 then 0 else d.nameCount)
      && |inp.slotTargets| == (if d.ordinalRva == 0 then 0 else d.nameCount)
  }

  // ---- Slots in use ----

  /** The used slots among the first n, in order. */
  function UsedSlots(addresses: seq<uint32>, n: nat): (s: seq<nat>)
    requires n <= |addresses|
    ensures |s| <= n
  {
    if n == 0 then []
    else UsedSlots(addresses, n - 1) + (if addresses[n - 1] != 0 then [n - 1] else [])
  }

  ghost predicate AllUsed(addresses: seq<uint32>, s: seq<nat>, n: nat) {
    forall j :: 0 <= j < |s| ==> s[j] < n && s[j] < |addresses| && addresses[s[j]] != 0
  }

  ghost predicate Ascending(s: seq<nat>) {
    forall j, k :: 0 <= j < k < |s| ==> s[j] < s[k]
  }

  lemma AscendingAppend(s: seq<nat>, x: nat)
    requires Ascending(s) && forall j :: 0 <= j < |s| ==> s[j] < x
    ensures Ascending(s + [x])
  {
  }

  lemma {:induction false} UsedSlotsAreUsed(addresses: seq<uint32>, n: nat)
    requires n <= |addresses|
    ensures AllUsed(addresses, UsedSlots(addresses, n), n)
    ensures Ascending(UsedSlots(addresses, n))
  {
    if n == 0 {
    } else {
      var t := UsedSlots(addresses, n - 1);
      UsedSlotsAreUsed(addresses, n - 1);
      if addresses[n - 1] != 0 {
        AscendingAppend(t, n - 1);
        assert UsedSlots(addresses, n) == t + [n - 1];
      } else {
        assert UsedSlots(addresses, n) == t + [] == t;
      }
    }
  }

  /** The compacted index of a used slot counts the used slots before it. */
  lemma {:induction false} UsedSlotPosition(addresses: seq<uint32>, n: nat, i: nat)
    requires i < n <= |addresses| && addresses[i] != 0
    ensures |UsedSlots(addresses, i)| < |UsedSlots(addresses, n)|
    ensures UsedSlots(addresses, n)[|UsedSlots(addresses, i)|] == i
  {
    if i + 1 == n {
    } else {
      UsedSlotPosition(addresses, n - 1, i);
    }
  }

  function Position(addresses: seq<uint32>, i: nat): nat
    requires i < |addresses|
  {
    |UsedSlots(addresses, i)|
  }

  lemma PositionOf(addresses: seq<uint32>, j: nat)
    requires j < |UsedSlots(addresses, |addresses|)|
    ensures var i := UsedSlots(addresses, |addresses|)[j];
            i < |addresses| && addresses[i] != 0 && Position(addresses, i) == j
  {
    UsedSlotsAreUsed(addresses, |addresses|);
    var s := UsedSlots(addresses, |addresses|);
    UsedSlotPosition(addresses, |addresses|, s[j]);
  }

  // ---- First match in the ordinal table ----

  /** Index of the first occurrence, or the length. */
  function FirstIndex(s: seq<uint16>, x: int): (k: nat)
    ensures k <= |s|
    ensures k < |s| ==> s[k] == x
    ensures forall i :: 0 <= i < k ==> s[i] != x
  {
    if s == [] then 0 else if s[0] == x then 0 else
      var k := FirstIndex(s[1..], x);
      assert forall i :: 1 <= i < |s| ==> s[i] == s[1..][i - 1];
      1 + k
  }

  predicate IsFirst(s: seq<uint16>, k: nat)
    requires k < |s|
  {
    FirstIndex(s, s[k]) == k
  }

  // ---- Acceptance ----

  /** Does the address lie in the export directory? The end wraps at 32 bits; see
      ForwardersExactly. */
  predicate IsForwarder(inp: ExportInput, rva: uint32) {
    inp.dirVa <= rva && rva < Wrap32(inp.dirVa + inp.dirSize)
  }

  /** At least three characters, one of them a dot. */
  predicate GoodForwarder(s: Str) {
    |s| >= 3 && 0x2E in s
  }

  /** The wrapped test finds the addresses of the directory, and none at all when the
      directory reaches the top of the address space. */
  lemma ForwardersExactly(inp: ExportInput, rva: uint32)
    ensures IsForwarder(inp, rva) <==>
              inp.dirVa <= rva < inp.dirVa + inp.dirSize && inp.dirVa + inp.dirSize < 0x1_0000_0000
  {
  }

  /** s is a file and a name with a dot between, of two characters together at least. */
  ghost predicate DotBetween(s: Str, file: Str, name: Str) {
    s == file + ['.' as int] + name && |file| + |name| >= 2
  }

  lemma GoodForwardersExactly(s: Str)
    ensures GoodForwarder(s) <==> exists file, name :: DotBetween(s, file, name)
  {
    if GoodForwarder(s) {
      var i :| 0 <= i < |s| && s[i] == 0x2E;
      assert DotBetween(s, s[..i], s[i + 1..]);
    }
    if file, name :| DotBetween(s, file, name) {
      assert s[|file|] == 0x2E;
    }
  }

  predicate ForwarderParses(inp: ExportInput, rva: uint32) {
    IsForwarder(inp, rva) ==> rva in inp.forwarders && GoodForwarder(inp.forwarders[rva])
  }

  predicate HasTable(inp: ExportInput) {
    inp.directory.Some? && inp.directory.value.addressCount != 0
  }

  /** What the tables must satisfy, said without reference to any processing:
      the ordinal table is injective, every name points at a used slot, all names
      and forwarders parse, and the names are sorted. */
  ghost predicate Acceptable(inp: ExportInput) {
    && |inp.slotNames| == |inp.slotTargets|
    && Distinct(inp.slotTargets)
    && (forall k :: 0 <= k < |inp.slotTargets| ==>
          inp.slotTargets[k] < |inp.addresses| && inp.addresses[inp.slotTargets[k]] != 0)
    && (forall k :: 0 <= k < |inp.slotNames| ==> inp.slotNames[k].Some?)
    && (forall i :: 0 <= i < |inp.addresses| && inp.addresses[i] != 0 ==> ForwarderParses(inp, inp.addresses[i]))
    && SlotNamesSorted(inp)
  }

  /** What the two output tables promise everybody who reads them. */
  ghost predicate WellFormed(info: ExportInfo, enpt: seq<uint16>) {
    && |info.entries| == |info.hints| == |info.names| == |info.ordinals| <= 0xFFFF
    && |enpt| <= 0xFFFF
    && (forall e, f :: 0 <= e < f < |info.ordinals| ==> info.ordinals[e] < info.ordinals[f])
    && (forall e :: 0 <= e < |info.ordinals| ==> info.ordinalBase <= info.ordinals[e])
    && (forall k :: 0 <= k < |enpt| ==> enpt[k] < |info.hints| && info.hints[enpt[k]] == k)
    && (forall e :: 0 <= e < |info.hints| && info.hints[e] != NO_INDEX ==>
          info.hints[e] < |enpt| && enpt[info.hints[e]] == e)
    && (forall e :: 0 <= e < |info.hints| ==> (info.names[e].Some? <==> info.hints[e] != NO_INDEX))
    && (forall k, l :: 0 <= k < l < |enpt| ==>
          !Less(info.names[enpt[l]].value, info.names[enpt[k]].value))
  }

  /** Every used slot has one export, in slot order, with its own ordinal, entry
      point and first name; nothing else is exported. */
  ghost predicate Compacts(inp: ExportInput, info: ExportInfo) {
    var slots := UsedSlots(inp.addresses, |inp.addresses|);
    && inp.directory.Some?
    && info.ordinalBase == inp.directory.value.ordinalBase
    && |info.ordinals| == |info.entries| == |info.hints| == |info.names| == |slots|
    && forall j :: 0 <= j < |slots| ==> ExportAt(inp, info, j, slots[j])
  }

  ghost predicate ExportAt(inp: ExportInput, info: ExportInfo, j: nat, i: nat)
    requires j < |info.ordinals| == |info.entries| == |info.hints| == |info.names|
  {
    && i < |inp.addresses| && i < 0x10000 && |inp.slotTargets| <= 0xFFFF
    && info.ordinals[j] == info.ordinalBase + i
    && info.entries[j] == EntryOf(inp, inp.addresses[i])
    && info.hints[j] == HintOf(inp, i)
    && info.names[j] == NameOf(inp, i)
  }

  function EntryOf(inp: ExportInput, rva: uint32): Entry {
    if IsForwarder(inp, rva) && rva in inp.forwarders then Forwarder(inp.forwarders[rva]) else Rva(rva)
  }

  function NameOf(inp: ExportInput, i: nat): Option<Str> {
    var k := FirstIndex(inp.slotTargets, i);
    if k < |inp.slotTargets| && k < |inp.slotNames| then inp.slotNames[k] else None
  }

  // ---- Processing ----

  /** Name-table entry k after the first n slots: the compacted index of the slot
      it points at, if k is the first to point there. */
  function EnptAt(inp: ExportInput, n: nat, k: nat): int
    requires k < |inp.slotTargets| && n <= |inp.addresses|
  {
    var i := inp.slotTargets[k];
    if IsFirst(inp.slotTargets, k) && i < n && inp.addresses[i] != 0
    then Position(inp.addresses, i) else NO_INDEX
  }

  /** The slots of the name table that got an export, after n address slots. */
  ghost function Filled(inp: ExportInput, n: nat): set<nat>
    requires n <= |inp.addresses|
  {
    set k: nat | k < |inp.slotTargets| && EnptAt(inp, n, k) != NO_INDEX
  }

  lemma FilledGrows(inp: ExportInput, i: nat)
    requires i < |inp.addresses| <= 0xFFFF
    ensures var k := FirstIndex(inp.slotTargets, i);
            Filled(inp, i + 1) == Filled(inp, i) + (if inp.addresses[i] != 0 && k < |inp.slotTargets| then {k} else {})
    ensures FirstIndex(inp.slotTargets, i) !in Filled(inp, i)
  {
    var first := FirstIndex(inp.slotTargets, i);
    forall k: nat | k < |inp.slotTargets|
      ensures k in Filled(inp, i + 1) <==> k in Filled(inp, i) || (inp.addresses[i] != 0 && k == first)
    {
      if inp.slotTargets[k] == i {
        assert IsFirst(inp.slotTargets, k) <==> k == first;
      }
    }
  }

  ghost function FilledCount(inp: ExportInput, n: nat): nat
    requires n <= |inp.addresses|
  {
    |Filled(inp, n)|
  }

  lemma FilledCountStep(inp: ExportInput, i: nat)
    requires i < |inp.addresses| <= 0xFFFF
    ensures FilledCount(inp, i + 1) == FilledCount(inp, i) +
              (if inp.addresses[i] != 0 && FirstIndex(inp.slotTargets, i) < |inp.slotTargets| then 1 else 0)
  {
    FilledGrows(inp, i);
  }

  /** All name slots are filled exactly when the ordinal table is injective and
      points at used slots only: the pigeonhole behind the counter test. */
  lemma AllFilledExactly(inp: ExportInput)
    requires |inp.addresses| <= 0xFFFF
    ensures FilledCount(inp, |inp.addresses|) == |inp.slotTargets| <==>
            && Distinct(inp.slotTargets)
            && forall k :: 0 <= k < |inp.slotTargets| ==>
                 inp.slotTargets[k] < |inp.addresses| && inp.addresses[inp.slotTargets[k]] != 0
  {
    var m, n := |inp.slotTargets|, |inp.addresses|;
    var f := Filled(inp, n);
    var all := IndexesBelow(m);
    if |f| == m {
      FullIndexSet(f, m);
      forall k, l | 0 <= k < l < m ensures inp.slotTargets[k] != inp.slotTargets[l] {
        assert l in f;
      }
      forall k | 0 <= k < m ensures inp.slotTargets[k] < n && inp.addresses[inp.slotTargets[k]] != 0 {
        assert k in f;
      }
    }
    if Distinct(inp.slotTargets)
       && forall k :: 0 <= k < m ==> inp.slotTargets[k] < n && inp.addresses[inp.slotTargets[k]] != 0 {
      assert f == all;
    }
  }

  ghost function IndexesBelow(m: nat): (s: set<nat>)
    ensures |s| == m && forall k: nat :: k in s <==> k < m
  {
    if m == 0 then {} else IndexesBelow(m - 1) + {m - 1}
  }

  /** Names that all point at different addresses are no more than these. */
  lemma NamesFitAddresses(inp: ExportInput)
    requires Acceptable(inp)
    ensures |inp.slotTargets| <= |inp.addresses|
  {
    DistinctSize(inp.slotTargets);
    IndexSetSize(Elements(inp.slotTargets), |inp.addresses|);
  }

  /** The directory tests together: the one on the number of names rejects nothing that
      the tables would not. */
  lemma DirectoryTestsExactly(inp: ExportInput)
    requires Located(inp) && inp.directory.Some?
    ensures var d := inp.directory.value;
            var tables := d.addressCount > 0 ==> Acceptable(inp);
            CheckDirectory(d).None? && tables <==> SoundDirectory(d) && tables
  {
    if inp.directory.value.addressCount > 0 && Acceptable(inp) {
      NamesFitAddresses(inp);
    }
  }

  method ProcessExportEat(inp: ExportInput) returns (r: Result<Outcome, EatError>)
    requires Located(inp)
    ensures r.Success? <==>
              (inp.directory.Some? ==>
                 && SoundDirectory(inp.directory.value)
                 && (inp.directory.value.addressCount > 0 ==> Acceptable(inp)))
    ensures inp.directory.None? ==> r == Success(NoTable)
    ensures r.Success? ==> (r.value.Table? <==> HasTable(inp))
    ensures HasTable(inp) && CheckDirectory(inp.directory.value).None? ==> (r.Success? <==> Acceptable(inp))
    ensures inp.directory.Some? && CheckDirectory(inp.directory.value).Some? ==>
              r == Failure(CheckDirectory(inp.directory.value).value)
    ensures r.Success? && r.value.Table? ==>
              && Compacts(inp, r.value.info)
              && WellFormed(r.value.info, r.value.enpt)
              && |r.value.enpt| == |inp.slotTargets|
    ensures r != Failure(BadHint) && r != Failure(NameColumnsDiffer)
  {
    if inp.directory.None? {
      return Success(NoTable);
    }
    DirectoryTestsExactly(inp);
    var d := inp.directory.value;
    var bad := CheckDirectory(d);
    if bad.Some? {
      return Failure(bad.value);
    }
    if d.addressCount == 0 {
      return Success(NoTable);
    }
    if |inp.slotNames| != |inp.slotTargets| {
      return Failure(NameColumnsDiffer);
    }
    var compacted := Compact(inp, d.ordinalBase);
    if compacted.Failure? {
      return Failure(compacted.error);
    }
    var (info, enpt, hintsProcessed) := compacted.value;
    var m := |enpt|;
    AllFilledExactly(inp);
    if hintsProcessed != m {
      return Failure(NotAllNamesProcessed);
    }
    FullIndexSet(Filled(inp, |inp.addresses|), m);
    NamesAreSlotNames(inp, info, enpt);
    var sorted := NamesSorted(info.names, enpt);
    SortedExactly(inp, info.names, enpt);
    if !sorted {
      return Failure(NamesNotSorted);
    }
    CompactedIsWellFormed(inp, info, enpt);
    return Success(Table(info, enpt));
  }

  /** std::is_sorted over the name table: no entry is less than its predecessor. */
  method NamesSorted(names: seq<Option<Str>>, enpt: seq<uint16>) returns (sorted: bool)
    requires forall k :: 0 <= k < |enpt| ==> enpt[k] < |names| && names[enpt[k]].Some?
    ensures sorted <==> NeighboursSorted(names, enpt)
  {
    var k := 1;
    while k < |enpt|
      invariant 1 <= k
      invariant forall l :: 0 < l < k && l < |enpt| ==> !Less(names[enpt[l]].value, names[enpt[l - 1]].value)
    {
      if Less(names[enpt[k]].value, names[enpt[k - 1]].value) {
        return false;
      }
      k := k + 1;
    }
    return true;
  }

  ghost predicate NeighboursSorted(names: seq<Option<Str>>, enpt: seq<uint16>)
    requires forall k :: 0 <= k < |enpt| ==> enpt[k] < |names| && names[enpt[k]].Some?
  {
    forall l :: 0 < l < |enpt| ==> !Less(names[enpt[l]].value, names[enpt[l - 1]].value)
  }

  /** The first j exports are in place. */
  ghost predicate Rows(inp: ExportInput, info: ExportInfo, j: nat) {
    var slots := UsedSlots(inp.addresses, |inp.addresses|);
    && |info.ordinals| == |info.entries| == |info.hints| == |info.names| == |slots|
    && j <= |slots|
    && forall p :: 0 <= p < j ==> ExportAt(inp, info, p, slots[p])
  }

  ghost predicate EnptIs(inp: ExportInput, n: nat, enpt: seq<uint16>)
    requires n <= |inp.addresses|
  {
    |enpt| == |inp.slotTargets| && forall k :: 0 <= k < |enpt| ==> enpt[k] == EnptAt(inp, n, k)
  }

  /** What the slots passed so far have shown about names and forwarders. */
  ghost predicate Parsed(inp: ExportInput, n: nat)
    requires n <= |inp.addresses| && |inp.slotNames| == |inp.slotTargets|
  {
    && (forall p :: 0 <= p < n && inp.addresses[p] != 0 ==> ForwarderParses(inp, inp.addresses[p]))
    && (forall k :: 0 <= k < |inp.slotTargets| && EnptAt(inp, n, k) != NO_INDEX ==> inp.slotNames[k].Some?)
  }

  lemma ParsedStep(inp: ExportInput, i: nat)
    requires i < |inp.addresses| <= 0xFFFF && |inp.slotNames| == |inp.slotTargets| && Parsed(inp, i)
    requires inp.addresses[i] != 0 ==>
               && ForwarderParses(inp, inp.addresses[i])
               && (FirstIndex(inp.slotTargets, i) < |inp.slotNames| ==>
                     inp.slotNames[FirstIndex(inp.slotTargets, i)].Some?)
    ensures Parsed(inp, i + 1)
  {
  }

  /** Name and entry point of one used slot. */
  method ParseSlot(inp: ExportInput, i: nat) returns (r: Result<(nat, Option<Str>, Entry), EatError>)
    requires |inp.slotNames| == |inp.slotTargets| && i < |inp.addresses| && inp.addresses[i] != 0
    ensures r.Failure? ==> r.error in {BadName, BadForwarder} && !Acceptable(inp)
    ensures r.Success? ==>
              && r.value == (FirstIndex(inp.slotTargets, i), NameOf(inp, i), EntryOf(inp, inp.addresses[i]))
              && (r.value.0 < |inp.slotNames| ==> inp.slotNames[r.value.0].Some?)
              && ForwarderParses(inp, inp.addresses[i])
  {
    var hint := FirstIndex(inp.slotTargets, i);
    var name: Option<Str> := None;
    if hint < |inp.slotTargets| {
      name := inp.slotNames[hint];
      if name.None? {
        return Failure(BadName);
      }
    }
    var rva := inp.addresses[i];
    var isForwarder := IsForwarder(inp, rva);
    if isForwarder && !(rva in inp.forwarders && GoodForwarder(inp.forwarders[rva])) {
      assert !ForwarderParses(inp, inp.addresses[i]);
      return Failure(BadForwarder);
    }
    return Success((hint, name, if isForwarder then Forwarder(inp.forwarders[rva]) else Rva(rva)));
  }

  /** The loop over the address table: fills the export arrays and the name table
      and counts the names it met. */
  method Compact(inp: ExportInput, base: uint16) returns (r: Result<(ExportInfo, seq<uint16>, nat), EatError>)
    requires |inp.slotNames| == |inp.slotTargets| <= 0xFFFF
    requires base + |inp.addresses| <= 0xFFFF
    requires inp.directory.Some? && inp.directory.value.ordinalBase == base
    ensures r.Failure? ==> r.error in {BadName, BadForwarder} && !Acceptable(inp)
    ensures r.Success? ==>
              && Compacts(inp, r.value.0)
              && EnptIs(inp, |inp.addresses|, r.value.1)
              && r.value.2 == FilledCount(inp, |inp.addresses|)
              && Parsed(inp, |inp.addresses|)
  {
    var n, m := |inp.addresses|, |inp.slotTargets|;
    var count := |UsedSlots(inp.addresses, n)|;
    var ordinals := new uint16[count];
    var entries := new Entry[count](_ => Rva(0));
    var hints := new uint16[count];
    var names := new Option<Str>[count](_ => None);
    var enpt := new uint16[m](_ => NO_INDEX);
    var done := CompactSlots(inp, base, ordinals, entries, hints, names, enpt);
    if done.Failure? {
      return Failure(done.error);
    }
    return Success((ExportInfo(base, ordinals[..], entries[..], hints[..], names[..]), enpt[..], done.value));
  }

  /** The loop itself; the answer is the number of names it met. */
  method CompactSlots(inp: ExportInput, base: uint16,
                      ordinals: array<uint16>, entries: array<Entry>, hints: array<uint16>, names: array<Option<Str>>,
                      enpt: array<uint16>) returns (r: Result<nat, EatError>)
    requires |inp.slotNames| == |inp.slotTargets| <= 0xFFFF && base + |inp.addresses| <= 0xFFFF
    requires enpt != ordinals && enpt != hints && ordinals != hints
    requires Rows(inp, ExportInfo(base, ordinals[..], entries[..], hints[..], names[..]), 0)
    requires EnptIs(inp, 0, enpt[..])
    modifies ordinals, entries, hints, names, enpt
    ensures r.Failure? ==> r.error in {BadName, BadForwarder} && !Acceptable(inp)
    ensures r.Success? ==>
              && Rows(inp, ExportInfo(base, ordinals[..], entries[..], hints[..], names[..]), ordinals.Length)
              && EnptIs(inp, |inp.addresses|, enpt[..])
              && r.value == FilledCount(inp, |inp.addresses|)
              && Parsed(inp, |inp.addresses|)
  {
    var n := |inp.addresses|;
    assert Filled(inp, 0) == {};
    var hintsProcessed := 0;
    var j := 0;
    var i := 0;
    while i != n
      invariant 0 <= i <= n && j == |UsedSlots(inp.addresses, i)|
      invariant Rows(inp, ExportInfo(base, ordinals[..], entries[..], hints[..], names[..]), j)
      invariant EnptIs(inp, i, enpt[..])
      invariant hintsProcessed == FilledCount(inp, i)
      invariant Parsed(inp, i)
    {
      FilledCountStep(inp, i);
      if inp.addresses[i] == 0 {
        EnptUnchanged(inp, i);
        ParsedStep(inp, i);
      } else {
        var named := ProcessSlot(inp, base, i, j, ordinals, entries, hints, names, enpt);
        if named.Failure? {
          return Failure(named.error);
        }
        if named.value {
          hintsProcessed := hintsProcessed + 1;
        }
        j := j + 1;
      }
      i := i + 1;
    }
    return Success(hintsProcessed);
  }

  /** One used slot: parsed, then stored; the answer says whether it has a name. */
  method ProcessSlot(inp: ExportInput, base: uint16, i: nat, j: nat,
                     ordinals: array<uint16>, entries: array<Entry>, hints: array<uint16>, names: array<Option<Str>>,
                     enpt: array<uint16>) returns (named: Result<bool, EatError>)
    requires i < |inp.addresses| && inp.addresses[i] != 0 && base + |inp.addresses| <= 0xFFFF
    requires |inp.slotNames| == |inp.slotTargets| <= 0xFFFF
    requires j == |UsedSlots(inp.addresses, i)|
    requires enpt != ordinals && enpt != hints && ordinals != hints
    requires Rows(inp, ExportInfo(base, ordinals[..], entries[..], hints[..], names[..]), j)
    requires EnptIs(inp, i, enpt[..]) && Parsed(inp, i)
    modifies ordinals, entries, hints, names, enpt
    ensures named.Failure? ==> named.error in {BadName, BadForwarder} && !Acceptable(inp)
    ensures named.Success? ==>
              && named.value == (FirstIndex(inp.slotTargets, i) < |inp.slotTargets|)
              && Rows(inp, ExportInfo(base, ordinals[..], entries[..], hints[..], names[..]), j + 1)
              && EnptIs(inp, i + 1, enpt[..]) && Parsed(inp, i + 1)
  {
    UsedSlotPosition(inp.addresses, |inp.addresses|, i);
    var parsed := ParseSlot(inp, i);
    if parsed.Failure? {
      return Failure(parsed.error);
    }
    ParsedStep(inp, i);
    var accepted := StoreSlot(inp, base, i, j, parsed.value, ordinals, entries, hints, names, enpt);
    if !accepted {
      return Failure(BadHint);
    }
    return Success(parsed.value.0 < |inp.slotTargets|);
  }

  /** Export j, made from slot i, written to all arrays; false is the "bad hint"
      answer, which the tables never give. */
  method StoreSlot(inp: ExportInput, base: uint16, i: nat, j: nat, parsed: (nat, Option<Str>, Entry),
                   ordinals: array<uint16>, entries: array<Entry>, hints: array<uint16>, names: array<Option<Str>>,
                   enpt: array<uint16>) returns (accepted: bool)
    requires i < |inp.addresses| <= 0xFFFF && inp.addresses[i] != 0
    requires |inp.slotTargets| <= 0xFFFF && base + |inp.addresses| <= 0xFFFF
    requires parsed == (FirstIndex(inp.slotTargets, i), NameOf(inp, i), EntryOf(inp, inp.addresses[i]))
    requires j == Position(inp.addresses, i) < |UsedSlots(inp.addresses, |inp.addresses|)|
    requires UsedSlots(inp.addresses, |inp.addresses|)[j] == i
    requires enpt != ordinals && enpt != hints && ordinals != hints
    requires Rows(inp, ExportInfo(base, ordinals[..], entries[..], hints[..], names[..]), j)
    requires EnptIs(inp, i, enpt[..])
    modifies ordinals, entries, hints, names, enpt
    ensures accepted
    ensures Rows(inp, ExportInfo(base, ordinals[..], entries[..], hints[..], names[..]), j + 1)
    ensures EnptIs(inp, i + 1, enpt[..])
  {
    ghost var was := ExportInfo(base, ordinals[..], entries[..], hints[..], names[..]);
    ghost var enptWas := enpt[..];
    var (hint, name, entry) := parsed;
    var named := hint < |inp.slotTargets|;
    Store(ordinals, entries, hints, names, j, Wrap16(base + i), entry, if named then hint else NO_INDEX, name);
    RowStep(inp, was, ExportInfo(base, ordinals[..], entries[..], hints[..], names[..]), j, i);
    EnptStep(inp, i, enptWas, if named then enptWas[hint := j] else enptWas);
    if named {
      assert enpt[hint] == enptWas[hint] == EnptAt(inp, i, hint);
      if enpt[hint] != NO_INDEX {
        return false;
      }
      enpt[hint] := j;
    }
    assert enpt[..] == if named then enptWas[hint := j] else enptWas;
    return true;
  }

  /** One export written at index j of every array. */
  method Store(ordinals: array<uint16>, entries: array<Entry>, hints: array<uint16>, names: array<Option<Str>>,
               j: nat, ordinal: uint16, entry: Entry, hint: uint16, name: Option<Str>)
    requires j < ordinals.Length == entries.Length == hints.Length == names.Length && ordinals != hints
    modifies ordinals, entries, hints, names
    ensures ordinals[..] == old(ordinals[..])[j := ordinal]
    ensures entries[..] == old(entries[..])[j := entry]
    ensures hints[..] == old(hints[..])[j := hint]
    ensures names[..] == old(names[..])[j := name]
  {
    ordinals[j] := ordinal;
    entries[j] := entry;
    hints[j] := hint;
    names[j] := name;
  }

  lemma RowStep(inp: ExportInput, was: ExportInfo, info: ExportInfo, j: nat, i: nat)
    requires i < |inp.addresses| && inp.addresses[i] != 0 && i < 0x10000 && |inp.slotTargets| <= 0xFFFF
    requires Rows(inp, was, j) && j == |UsedSlots(inp.addresses, i)| < |was.ordinals|
    requires UsedSlots(inp.addresses, |inp.addresses|)[j] == i
    requires info.ordinalBase == was.ordinalBase && was.ordinalBase + i < 0x10000
    requires info.ordinals == was.ordinals[j := was.ordinalBase + i]
    requires info.entries == was.entries[j := EntryOf(inp, inp.addresses[i])]
    requires info.hints == was.hints[j := HintOf(inp, i)]
    requires info.names == was.names[j := NameOf(inp, i)]
    ensures Rows(inp, info, j + 1)
  {
    var slots := UsedSlots(inp.addresses, |inp.addresses|);
    forall p | 0 <= p < j + 1 ensures ExportAt(inp, info, p, slots[p]) {
      assert p < j ==> ExportAt(inp, was, p, slots[p]);
    }
  }

  function HintOf(inp: ExportInput, i: nat): uint16
    requires |inp.slotTargets| <= 0xFFFF
  {
    var k := FirstIndex(inp.slotTargets, i);
    if k < |inp.slotTargets| then k else NO_INDEX
  }

  lemma EnptUnchanged(inp: ExportInput, i: nat)
    requires i < |inp.addresses| && inp.addresses[i] == 0
    ensures forall k :: 0 <= k < |inp.slotTargets| ==> EnptAt(inp, i + 1, k) == EnptAt(inp, i, k)
  {
  }

  lemma EnptStep(inp: ExportInput, i: nat, was: seq<uint16>, enpt: seq<uint16>)
    requires i < |inp.addresses| <= 0xFFFF && inp.addresses[i] != 0 && EnptIs(inp, i, was)
    requires var f := FirstIndex(inp.slotTargets, i);
             enpt == if f < |was| then was[f := Position(inp.addresses, i)] else was
    ensures EnptIs(inp, i + 1, enpt)
  {
  }

  /** Through a filled name table, the name of an export is the name of its slot. */
  lemma NamesAreSlotNames(inp: ExportInput, info: ExportInfo, enpt: seq<uint16>)
    requires |inp.slotNames| == |inp.slotTargets| == |enpt| && |inp.addresses| <= 0xFFFF
    requires Compacts(inp, info)
    requires forall k: nat :: k < |enpt| ==> k in Filled(inp, |inp.addresses|)
    requires EnptIs(inp, |inp.addresses|, enpt)
    ensures forall k :: 0 <= k < |enpt| ==> enpt[k] < |info.names| && info.names[enpt[k]] == inp.slotNames[k]
  {
    var slots := UsedSlots(inp.addresses, |inp.addresses|);
    forall k | 0 <= k < |enpt| ensures enpt[k] < |info.names| && info.names[enpt[k]] == inp.slotNames[k] {
      assert k in Filled(inp, |inp.addresses|);
      UsedSlotPosition(inp.addresses, |inp.addresses|, inp.slotTargets[k]);
      assert ExportAt(inp, info, enpt[k], slots[enpt[k]]);
    }
  }

  ghost predicate SlotNamesSorted(inp: ExportInput) {
    forall k, l :: 0 <= k < l < |inp.slotNames| && inp.slotNames[k].Some? && inp.slotNames[l].Some? ==>
      !Less(inp.slotNames[l].value, inp.slotNames[k].value)
  }

  /** Comparing neighbours decides all pairs. */
  lemma SortedExactly(inp: ExportInput, names: seq<Option<Str>>, enpt: seq<uint16>)
    requires |inp.slotNames| == |enpt|
    requires forall k :: 0 <= k < |enpt| ==>
               enpt[k] < |names| && names[enpt[k]].Some? && names[enpt[k]] == inp.slotNames[k]
    ensures NeighboursSorted(names, enpt) <==> SlotNamesSorted(inp)
  {
    if NeighboursSorted(names, enpt) {
      forall k, l | 0 <= k < l < |enpt| ensures !Less(inp.slotNames[l].value, inp.slotNames[k].value) {
        NeighboursDecide(inp, names, enpt, k, l);
      }
    }
  }

  lemma {:induction false} NeighboursDecide(inp: ExportInput, names: seq<Option<Str>>, enpt: seq<uint16>,
                                            k: nat, l: nat)
    requires |inp.slotNames| == |enpt|
    requires forall k :: 0 <= k < |enpt| ==>
               enpt[k] < |names| && names[enpt[k]].Some? && names[enpt[k]] == inp.slotNames[k]
    requires NeighboursSorted(names, enpt) && k < l < |enpt|
    ensures !Less(inp.slotNames[l].value, inp.slotNames[k].value)
  {
    if k + 1 == l {
    } else {
      NeighboursDecide(inp, names, enpt, k, l - 1);
      NotLessTransitive(inp.slotNames[k].value, inp.slotNames[l - 1].value, inp.slotNames[l].value);
    }
  }

  /** Compaction of acceptable tables is well formed: hints and name table are
      mutual inverses, ordinals increase, and no index is the sentinel. */
  lemma CompactedIsWellFormed(inp: ExportInput, info: ExportInfo, enpt: seq<uint16>)
    requires Acceptable(inp) && |inp.addresses| <= 0xFFFF && |inp.slotTargets| <= 0xFFFF
    requires Compacts(inp, info) && |enpt| == |inp.slotTargets|
    requires EnptIs(inp, |inp.addresses|, enpt)
    ensures WellFormed(info, enpt)
  {
    var n := |inp.addresses|;
    var slots := UsedSlots(inp.addresses, n);
    UsedSlotsAreUsed(inp.addresses, n);
    assert |slots| <= 0xFFFF;
    forall e, f | 0 <= e < f < |info.ordinals| ensures info.ordinals[e] < info.ordinals[f] {
      assert ExportAt(inp, info, e, slots[e]) && ExportAt(inp, info, f, slots[f]);
      assert slots[e] < slots[f];
    }
    forall e | 0 <= e < |info.ordinals| ensures info.ordinalBase <= info.ordinals[e] {
      assert ExportAt(inp, info, e, slots[e]);
    }
    forall k | 0 <= k < |enpt|
      ensures enpt[k] < |info.hints| && info.hints[enpt[k]] == k && info.names[enpt[k]] == inp.slotNames[k]
    {
      FirstOfDistinct(inp.slotTargets, k);
      UsedSlotPosition(inp.addresses, n, inp.slotTargets[k]);
      assert ExportAt(inp, info, enpt[k], slots[enpt[k]]);
    }
    forall e | 0 <= e < |info.hints|
      ensures info.hints[e] != NO_INDEX ==> info.hints[e] < |enpt| && enpt[info.hints[e]] == e
      ensures info.names[e].Some? <==> info.hints[e] != NO_INDEX
    {
      assert ExportAt(inp, info, e, slots[e]);
      PositionOf(inp.addresses, e);
    }
  }

  /** What an accepted table hands out for slot i: nothing when the slot is unused, and
      otherwise one export with the slot's ordinal, its forwarder if the address lies in the
      export directory and its address if not, and the name that points at it, if any. */
  lemma ExportOfSlot(inp: ExportInput, info: ExportInfo, i: nat)
    requires Acceptable(inp) && Compacts(inp, info) && i < |inp.addresses| <= 0xFFFF
    ensures inp.addresses[i] == 0 ==> info.ordinalBase + i !in info.ordinals
    ensures inp.addresses[i] != 0 ==>
              var rva, j := inp.addresses[i], Position(inp.addresses, i);
              var inDirectory := inp.dirVa <= rva < inp.dirVa + inp.dirSize < 0x1_0000_0000;
              && j < |info.ordinals| && info.ordinals[j] == info.ordinalBase + i
              && (inDirectory ==> rva in inp.forwarders && info.entries[j] == Forwarder(inp.forwarders[rva]))
              && (!inDirectory ==> info.entries[j] == Rva(rva))
              && (forall k :: 0 <= k < |inp.slotTargets| && inp.slotTargets[k] == i ==>
                    info.names[j] == inp.slotNames[k] && info.hints[j] == k)
              && (i !in inp.slotTargets ==> info.names[j].None? && info.hints[j] == NO_INDEX)
  {
    var slots := UsedSlots(inp.addresses, |inp.addresses|);
    if inp.addresses[i] == 0 {
      UnusedIsNotExported(inp, info, i);
    } else {
      var j := Position(inp.addresses, i);
      UsedSlotPosition(inp.addresses, |inp.addresses|, i);
      assert ExportAt(inp, info, j, slots[j]);
      ForwardersExactly(inp, inp.addresses[i]);
      assert ForwarderParses(inp, inp.addresses[i]);
    }
  }

  lemma UnusedIsNotExported(inp: ExportInput, info: ExportInfo, i: nat)
    requires Compacts(inp, info) && i < |inp.addresses| && inp.addresses[i] == 0
    ensures info.ordinalBase + i !in info.ordinals
  {
    var slots := UsedSlots(inp.addresses, |inp.addresses|);
    UsedSlotsAreUsed(inp.addresses, |inp.addresses|);
    forall j | 0 <= j < |info.ordinals| ensures info.ordinals[j] != info.ordinalBase + i {
      assert ExportAt(inp, info, j, slots[j]);
    }
  }

  lemma FirstOfDistinct(s: seq<uint16>, k: nat)
    requires Distinct(s) && k < |s|
    ensures FirstIndex(s, s[k]) == k
  {
    var l := FirstIndex(s, s[k]);
  }
}
