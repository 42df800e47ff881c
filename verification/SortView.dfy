/** The sorted list views: the column-click state, the sort permutation with its
    inverse, and the translation of a selected item to its row. */
module SortView {
  import opened Words
  import opened Text
  import opened Sorting
  import E = ExportTable

  // ---- The column-click state ----

  const UNSORTED: uint8 := 0xFF

  /** The setting is unsorted, or a column with bit 7 for descending. */
  predicate SettingOk(setting: uint8, headers: nat) {
    headers <= 127 && (setting == UNSORTED || setting % 128 < headers)
  }

  /** on_columnclick. */
  function OnColumnClick(setting: uint8, headers: nat, col: uint8): uint8
    requires SettingOk(setting, headers) && col < headers
  {
    if setting == UNSORTED then col
    else
      var ascending := setting < 128;
      var current := setting % 128;
      if current != col then col
      else if ascending then current + 128
      else UNSORTED
  }

  /** What the byte stands for. */
  datatype Order = Unordered | By(col: nat, ascending: bool)

  function OrderOf(setting: uint8): Order {
    if setting == UNSORTED then Unordered else By(setting % 128, setting < 128)
  }

  /** The order after a click. */
  function Clicked(o: Order, col: nat): Order {
    match o
    case Unordered => By(col, true)
    case By(c, asc) => if c != col then By(col, true) else if asc then By(col, false) else Unordered
  }

  /** A click on another column sorts by it; clicks on the same column go from ascending
      to descending to unsorted. The byte never collides with the unsorted mark. */
  lemma ClickCycles(setting: uint8, headers: nat, col: uint8)
    requires SettingOk(setting, headers) && col < headers
    ensures var n := OnColumnClick(setting, headers, col);
            && SettingOk(n, headers)
            && OrderOf(n) == Clicked(OrderOf(setting), col)
  {
  }

  /** The first click on a column sorts ascending, the second descending, the third ends
      the sorting; after any other setting a click on the column is the first. */
  lemma ThreeClicks(setting: uint8, headers: nat, col: uint8)
    requires SettingOk(setting, headers) && col < headers
    requires setting == UNSORTED || setting % 128 != col
    ensures var first := OnColumnClick(setting, headers, col);
            && SettingOk(first, headers) && OrderOf(first) == By(col, true)
            && var second := OnColumnClick(first, headers, col);
               && SettingOk(second, headers) && OrderOf(second) == By(col, false)
               && OnColumnClick(second, headers, col) == UNSORTED
  {
  }

  // ---- The columns of the export view ----

  datatype NameCell = Name(text: Str) | Processing | NotAvailable

  datatype Row = Row(icon: uint8, isRva: bool, ordinal: uint16, hint: Option<uint16>, name: NameCell, entry: E.Entry)

  const EXPORT_HEADERS := 6

  function NameProxy(c: NameCell): nat {
    match c case Name(_) => 0 case Processing => 1 case NotAvailable => 2
  }

  /** The comparison functions of the six columns. */
  predicate CellLess(col: nat, a: Row, b: Row) {
    match col
    case 0 => a.icon < b.icon
    case 1 => !a.isRva && b.isRva
    case 2 => a.ordinal < b.ordinal
    case 3 => (a.hint.None? && b.hint.Some?) || (a.hint.Some? && b.hint.Some? && a.hint.value < b.hint.value)
    case 4 => NameProxy(a.name) < NameProxy(b.name) || (a.name.Name? && b.name.Name? && Less(a.name.text, b.name.text))
    case _ => EntryLess(a, b)
  }

  /** The entry tells addresses from forwarders as the type column does. */
  predicate EntryLess(a: Row, b: Row) {
    if a.isRva != b.isRva then b.isRva
    else match (a.entry, b.entry)
         case (Rva(x), Rva(y)) => x < y
         case (Forwarder(x), Forwarder(y)) => Less(x, y)
         case _ => false
  }

  predicate RowsOk(rows: seq<Row>) {
    |rows| <= 0xFFFF && forall i :: 0 <= i < |rows| ==> (rows[i].isRva <==> rows[i].entry.Rva?)
  }

  function RowLess(setting: uint8, rows: seq<Row>): (nat, nat) -> bool {
    (a: nat, b: nat) => a < |rows| && b < |rows| &&
      if setting < 128 then CellLess(setting % 128, rows[a], rows[b]) else CellLess(setting % 128, rows[b], rows[a])
  }

  lemma CellLessOrders(col: nat, a: Row, b: Row, c: Row)
    requires (a.isRva <==> a.entry.Rva?) && (b.isRva <==> b.entry.Rva?) && (c.isRva <==> c.entry.Rva?)
    ensures CellLess(col, a, b) ==> !CellLess(col, b, a)
    ensures !CellLess(col, b, a) && !CellLess(col, c, b) ==> !CellLess(col, c, a)
  {
    if a.name.Name? && b.name.Name? && c.name.Name? {
      TextOrders(a.name.text, b.name.text, c.name.text);
    } else if a.name.Name? && b.name.Name? {
      TextOrders(a.name.text, b.name.text, []);
    }
    if a.entry.Forwarder? && b.entry.Forwarder? && c.entry.Forwarder? {
      TextOrders(a.entry.text, b.entry.text, c.entry.text);
    } else if a.entry.Forwarder? && b.entry.Forwarder? {
      TextOrders(a.entry.text, b.entry.text, []);
    }
  }

  lemma TextOrders(a: Str, b: Str, c: Str)
    ensures Less(a, b) ==> !Less(b, a)
    ensures !Less(b, a) && !Less(c, b) ==> !Less(c, a)
  {
    if Less(a, b) && Less(b, a) {
      LessTransitive(a, b, a);
      LessIrreflexive(a);
    }
    if !Less(b, a) && !Less(c, b) {
      NotLessTransitive(a, b, c);
    }
  }

  /** Every column, in both directions, is a strict weak order on the rows. */
  lemma ColumnsAreWeakOrders(setting: uint8, rows: seq<Row>, s: seq<nat>)
    requires RowsOk(rows) && forall x :: x in s ==> x < |rows|
    ensures WeakOrder(RowLess(setting, rows), s)
  {
    var lt := RowLess(setting, rows);
    forall x, y | x in s && y in s && lt(x, y) ensures !lt(y, x) {
      CellLessOrders(setting % 128, rows[x], rows[y], rows[y]);
      CellLessOrders(setting % 128, rows[y], rows[x], rows[x]);
    }
    forall x, y, z | x in s && y in s && z in s && !lt(y, x) && !lt(z, y) ensures !lt(z, x) {
      CellLessOrders(setting % 128, rows[x], rows[y], rows[z]);
      CellLessOrders(setting % 128, rows[z], rows[y], rows[x]);
    }
  }

  // ---- The permutation and its inverse ----

  function Iota(n: nat): (s: seq<nat>)
    ensures |s| == n && forall i :: 0 <= i < n ==> s[i] == i
  {
    seq(n, i => i)
  }

  ghost predicate Permutes(s: seq<nat>) {
    Distinct(s) && forall i :: 0 <= i < |s| ==> s[i] < |s|
  }

  /** The second half undoes the first. */
  ghost predicate Inverts(p: seq<nat>, q: seq<nat>) {
    |q| == |p| && forall i :: 0 <= i < |p| ==> p[i] < |q| && q[p[i]] == i
  }

  ghost predicate SortOk(sort: seq<nat>) {
    && |sort| % 2 == 0
    && Permutes(sort[..|sort| / 2])
    && Inverts(sort[..|sort| / 2], sort[|sort| / 2..])
  }

  lemma SortKeepsPermutation(s: seq<nat>, t: seq<nat>)
    requires Permutes(s) && multiset(t) == multiset(s) && |t| == |s|
    ensures Permutes(t)
  {
    SameElements(s, t);
    RearrangedIsDistinct(s, t);
    forall i | 0 <= i < |t| ensures t[i] < |t| {
      assert t[i] in t;
    }
  }

  /** Only one sequence undoes a permutation, and it is undone by it: the row of an item
      shows that item, and the item of a row is found at that row. */
  lemma InverseBothWays(p: seq<nat>, q: seq<nat>)
    requires Permutes(p) && Inverts(p, q)
    ensures forall k :: 0 <= k < |p| ==> q[k] < |p| && p[q[k]] == k
  {
    DistinctSize(p);
    FullIndexSet(Elements(p), |p|);
    forall k: nat | k < |p| ensures q[k] < |p| && p[q[k]] == k {
      assert k in Elements(p);
    }
  }

  /** select_item: the row to highlight for an item. */
  function RowOfItem(sort: seq<nat>, item: nat): nat
    requires sort == [] || item < |sort| / 2
  {
    if sort == [] then item else sort[|sort| / 2 + item]
  }

  /** The item a row shows, as drawing and the context menu read it. */
  function ItemOfRow(sort: seq<nat>, row: nat): nat
    requires sort == [] || row < |sort| / 2
  {
    if sort == [] then row else sort[row]
  }

  /** Selecting an item highlights the row that shows it, and the other way round. */
  lemma SelectionRoundTrip(sort: seq<nat>, k: nat)
    requires SortOk(sort) && (sort == [] || k < |sort| / 2)
    ensures sort != [] ==> RowOfItem(sort, k) < |sort| / 2 && ItemOfRow(sort, k) < |sort| / 2
    ensures ItemOfRow(sort, RowOfItem(sort, k)) == k
    ensures RowOfItem(sort, ItemOfRow(sort, k)) == k
  {
    if sort != [] {
      var n := |sort| / 2;
      var p, q := sort[..n], sort[n..];
      InverseBothWays(p, q);
      assert q[k] == sort[n + k] && p[k] == sort[k];
      assert q[p[k]] == sort[n + sort[k]];
      assert p[q[k]] == sort[sort[n + k]];
    }
  }

  // ---- The view ----

  /** The order before a sort of n items: the one on display if it fits. */
  function Base(sort: seq<nat>, n: nat): (s: seq<nat>)
    ensures |s| == n
  {
    if |sort| == n * 2 then sort[..n] else Iota(n)
  }

  /** What a sort leaves on display. */
  ghost predicate Sorts(setting: uint8, rows: seq<Row>, was: seq<nat>, sort: seq<nat>) {
    && |sort| == 2 * |rows| && SortOk(sort)
    && StableSorted(RowLess(setting, rows), Base(was, |rows|), sort[..|rows|])
  }

  lemma SortsWell(setting: uint8, rows: seq<Row>, was: seq<nat>)
    requires RowsOk(rows) && SortOk(was)
    ensures var base := Base(was, |rows|);
            var sorted := StableSort(RowLess(setting, rows), base);
            Permutes(sorted) && StableSorted(RowLess(setting, rows), base, sorted)
  {
    var base := Base(was, |rows|);
    var lt := RowLess(setting, rows);
    assert Permutes(base);
    ColumnsAreWeakOrders(setting, rows, base);
    SortIsStable(lt, base);
    SortKeepsPermutation(base, StableSort(lt, base));
  }

  // ---- What is on display, by the values of the cells ----

  /** Cell col of row a may stand above that of row b in ascending order. Unused hints come
      first; names come before exports that are still processed, and nameless ones are last;
      forwarders come before addresses. */
  ghost predicate CellsAscend(col: nat, a: Row, b: Row) {
    match col
    case 0 => a.icon <= b.icon
    case 1 => a.isRva ==> b.isRva
    case 2 => a.ordinal <= b.ordinal
    case 3 => a.hint.Some? ==> b.hint.Some? && a.hint.value <= b.hint.value
    case 4 => NamesAscend(a.name, b.name)
    case _ => EntriesAscend(a.entry, b.entry)
  }

  ghost predicate NamesAscend(a: NameCell, b: NameCell) {
    match (a, b)
    case (Name(x), Name(y)) => x == y || Less(x, y)
    case (Name(_), _) => true
    case (Processing, _) => !b.Name?
    case (NotAvailable, _) => b.NotAvailable?
  }

  ghost predicate EntriesAscend(a: E.Entry, b: E.Entry) {
    match (a, b)
    case (Forwarder(x), Forwarder(y)) => x == y || Less(x, y)
    case (Forwarder(_), Rva(_)) => true
    case (Rva(x), Rva(y)) => x <= y
    case (Rva(_), Forwarder(_)) => false
  }

  ghost predicate InOrder(o: Order, a: Row, b: Row) {
    match o
    case Unordered => true
    case By(col, ascending) => if ascending then CellsAscend(col, a, b) else CellsAscend(col, b, a)
  }

  /** From top to bottom the rows of the view are in this order. */
  ghost predicate Displays(o: Order, rows: seq<Row>, sort: seq<nat>)
    requires |sort| == 2 * |rows|
  {
    forall i, j {:trigger PairInOrder(o, rows, sort, i, j)} :: 0 <= i < j < |rows| ==> PairInOrder(o, rows, sort, i, j)
  }

  ghost predicate PairInOrder(o: Order, rows: seq<Row>, sort: seq<nat>, i: nat, j: nat)
    requires |sort| == 2 * |rows| && i < j < |rows|
  {
    && ItemOfRow(sort, i) < |rows| && ItemOfRow(sort, j) < |rows|
    && InOrder(o, rows[ItemOfRow(sort, i)], rows[ItemOfRow(sort, j)])
  }

  lemma NotLessAscends(col: nat, a: Row, b: Row)
    requires (a.isRva <==> a.entry.Rva?) && (b.isRva <==> b.entry.Rva?) && !CellLess(col, b, a)
    ensures CellsAscend(col, a, b)
  {
    if a.name.Name? && b.name.Name? {
      LessTotal(a.name.text, b.name.text);
    }
    if a.entry.Forwarder? && b.entry.Forwarder? {
      LessTotal(a.entry.text, b.entry.text);
    }
  }

  /** After a sort the cells of the chosen column, as they stand in the view from top to
      bottom, ascend, or descend when that is the chosen direction. */
  lemma SortedColumnIsInOrder(setting: uint8, rows: seq<Row>, was: seq<nat>, sort: seq<nat>)
    requires RowsOk(rows) && SortOk(was) && Sorts(setting, rows, was, sort)
    ensures Displays(OrderOf(setting), rows, sort)
  {
    forall i, j {:trigger PairInOrder(OrderOf(setting), rows, sort, i, j)} | 0 <= i < j < |rows|
      ensures PairInOrder(OrderOf(setting), rows, sort, i, j)
    {
      SortedPair(setting, rows, was, sort, i, j);
    }
  }

  lemma SortedPair(setting: uint8, rows: seq<Row>, was: seq<nat>, sort: seq<nat>, i: nat, j: nat)
    requires RowsOk(rows) && Sorts(setting, rows, was, sort) && i < j < |rows|
    ensures PairInOrder(OrderOf(setting), rows, sort, i, j)
  {
    var p := sort[..|rows|];
    var x, y := p[i], p[j];
    assert Permutes(p);
    assert Precedes(RowLess(setting, rows), Base(was, |rows|), x, y);
    if setting < 128 {
      CellLessOrders(setting % 128, rows[x], rows[y], rows[y]);
      NotLessAscends(setting % 128, rows[x], rows[y]);
    } else {
      CellLessOrders(setting % 128, rows[y], rows[x], rows[x]);
      NotLessAscends(setting % 128, rows[y], rows[x]);
    }
  }

  class ListView {
    var setting: uint8
    var sort: seq<nat>

    constructor ()
      ensures setting == 0xFF && OrderOf(setting) == Unordered && sort == []
    {
      setting, sort := UNSORTED, [];
    }

    /** sort_view, for the selected module or none. */
    method SortRows(selected: Option<seq<Row>>)
      requires SettingOk(setting, EXPORT_HEADERS) && SortOk(sort)
      requires selected.Some? ==> RowsOk(selected.value)
      modifies this`sort
      ensures SortOk(sort)
      ensures setting == UNSORTED ==> sort == []
      ensures setting != UNSORTED && selected.None? ==> sort == old(sort)
      ensures setting != UNSORTED && selected.Some? ==>
                Sorts(setting, selected.value, old(sort), sort) && Displays(OrderOf(setting), selected.value, sort)
    {
      if setting == UNSORTED {
        sort := [];
        return;
      }
      if selected.None? {
        return;
      }
      var rows := selected.value;
      var n := |rows|;
      SortsWell(setting, rows, sort);
      if |sort| != n * 2 {
        sort := Iota(n) + seq(n, i => 0);
        assert sort[..n] == Iota(n);
      }
      assert sort[..n] == Base(old(sort), n);
      sort := StableSort(RowLess(setting, rows), sort[..n]) + sort[n..];
      WriteInverse(n);
      SortedColumnIsInOrder(setting, rows, old(sort), sort);
    }

    /** The loop at the end of sort_view. */
    method WriteInverse(n: nat)
      requires |sort| == 2 * n && Permutes(sort[..n])
      modifies this`sort
      ensures |sort| == 2 * n && sort[..n] == old(sort)[..n] && SortOk(sort)
    {
      ghost var p := sort[..n];
      var i := 0;
      while i != n
        invariant i <= n && |sort| == 2 * n && sort[..n] == p
        invariant forall k :: 0 <= k < i ==> sort[n + p[k]] == k
        decreases n - i
      {
        assert sort[i] == p[i];
        sort := sort[n + sort[i] := i];
        assert sort[..n] == p;
        i := i + 1;
      }
      assert Inverts(p, sort[n..]);
    }

    /** A click on a column header. */
    method OnClick(col: uint8, selected: Option<seq<Row>>)
      requires SettingOk(setting, EXPORT_HEADERS) && SortOk(sort) && col < EXPORT_HEADERS
      requires selected.Some? ==> RowsOk(selected.value)
      modifies this
      ensures SettingOk(setting, EXPORT_HEADERS) && SortOk(sort)
      ensures OrderOf(setting) == Clicked(OrderOf(old(setting)), col)
      ensures setting == UNSORTED ==> sort == []
      ensures setting != UNSORTED && selected.Some? ==>
                Sorts(setting, selected.value, old(sort), sort) && Displays(OrderOf(setting), selected.value, sort)
      ensures setting != UNSORTED && selected.None? ==> sort == old(sort)
    {
      ClickCycles(setting, EXPORT_HEADERS, col);
      setting := OnColumnClick(setting, EXPORT_HEADERS, col);
      SortRows(selected);
    }
  }

  /** Two sorts in a row: by the last column, and within its ties by the one before. */
  lemma LastTwoColumnsDecide(first: uint8, second: uint8, rows: seq<Row>, s0: seq<nat>, s1: seq<nat>, s2: seq<nat>,
                             i: nat, j: nat)
    requires Sorts(first, rows, s0, s1) && Sorts(second, rows, s1, s2) && i < j < |rows|
    ensures var x, y := s2[i], s2[j];
            || RowLess(second, rows)(x, y)
            || (!RowLess(second, rows)(y, x) && Precedes(RowLess(first, rows), Base(s0, |rows|), x, y))
  {
    var n := |rows|;
    var x, y := s2[..n][i], s2[..n][j];
    assert Precedes(RowLess(second, rows), Base(s1, n), x, y);
    if !RowLess(second, rows)(x, y) {
      var k, l :| 0 <= k < l < |Base(s1, n)| && Base(s1, n)[k] == x && Base(s1, n)[l] == y;
      assert Precedes(RowLess(first, rows), Base(s0, n), s1[..n][k], s1[..n][l]);
    }
  }
}
