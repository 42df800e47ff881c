/** The table of unique strings. Memory is a map from addresses to cells; a handle is
    the address of a string record, which points to a buffer that ends in a NUL. */
module UniqueStrings {
  import opened Words
  import opened Text
  import opened VirtualMemory
  import A = Allocator

  const RECORD_SIZE: nat := 16
  const RECORD_ALIGN: nat := 8

  /** A record takes one cell with its fields; its other bytes are filler. */
  datatype Cell = Unit(code: Code) | Record(buff: nat, len: nat) | Filler

  type Cells = map<nat, Cell>

  /** The characters of s, then a NUL. */
  ghost predicate TextAt(cells: Cells, buff: nat, s: Str) {
    && (forall a :: buff <= a < buff + |s| ==> a in cells && cells[a] == Unit(s[a - buff]))
    && buff + |s| in cells && cells[buff + |s|] == Unit(0)
  }

  /** A handle is good: its record, its characters and the NUL behind them are there. */
  ghost predicate Stored(cells: Cells, h: nat) {
    && h in cells && cells[h].Record?
    && var buff, len := cells[h].buff, cells[h].len;
       && (forall a :: buff <= a < buff + len ==> a in cells && cells[a].Unit?)
       && buff + len in cells && cells[buff + len] == Unit(0)
  }

  /** The string behind a handle. */
  function Content(cells: Cells, h: nat): (s: Str)
    requires Stored(cells, h)
    ensures |s| == cells[h].len
    ensures forall i :: 0 <= i < |s| ==> s[i] == cells[cells[h].buff + i].code
  {
    seq(cells[h].len, i requires 0 <= i < cells[h].len => cells[cells[h].buff + i].code)
  }

  /** The memory of the string belongs to ranges handed out by the allocator. */
  ghost predicate Allocated(cells: Cells, handed: set<Region>, h: nat)
    requires Stored(cells, h)
  {
    Region(h, RECORD_SIZE) in handed && Region(cells[h].buff, cells[h].len + 1) in handed
  }

  ghost predicate HandleOk(cells: Cells, handed: set<Region>, h: nat) {
    Stored(cells, h) && Allocated(cells, handed, h)
  }

  ghost predicate TableOk(cells: Cells, handed: set<Region>, handles: seq<nat>) {
    && (forall k {:trigger handles[k]} :: 0 <= k < |handles| ==> HandleOk(cells, handed, handles[k]))
    && (forall k, l :: 0 <= k < l < |handles| ==> Content(cells, handles[k]) != Content(cells, handles[l]))
  }

  /** Two handles of one table are the same pointer exactly when they are the same string. */
  lemma EqualHandlesExactly(cells: Cells, handed: set<Region>, handles: seq<nat>, h: nat, g: nat)
    requires TableOk(cells, handed, handles) && h in handles && g in handles
    ensures HandleOk(cells, handed, h) && HandleOk(cells, handed, g)
    ensures h == g <==> Content(cells, h) == Content(cells, g)
  {
    var k :| 0 <= k < |handles| && handles[k] == h;
    var l :| 0 <= l < |handles| && handles[l] == g;
  }

  /** A write touches no cell of a range that was handed out before. */
  ghost predicate Keeps(cells: Cells, handed: set<Region>, later: Cells) {
    forall r, a :: r in handed && r.addr <= a < r.addr + r.size && a in cells ==> a in later && later[a] == cells[a]
  }

  /** So every handle, of any table, keeps its string. */
  lemma HandleSurvives(cells: Cells, handed: set<Region>, h: nat, later: Cells)
    requires HandleOk(cells, handed, h) && Keeps(cells, handed, later)
    ensures Stored(later, h) && later[h] == cells[h] && Content(later, h) == Content(cells, h)
  {
    var record, buffer := Region(h, RECORD_SIZE), Region(cells[h].buff, cells[h].len + 1);
    assert record in handed && buffer in handed;
    assert later[h] == cells[h];
    forall a | cells[h].buff <= a <= cells[h].buff + cells[h].len ensures a in later && later[a] == cells[a] {
      assert buffer.addr <= a < buffer.addr + buffer.size;
    }
  }

  lemma TableSurvives(cells: Cells, handed: set<Region>, handles: seq<nat>, later: Cells, more: set<Region>)
    requires TableOk(cells, handed, handles) && Keeps(cells, handed, later) && handed <= more
    ensures TableOk(later, more, handles)
    ensures forall k :: 0 <= k < |handles| ==> Content(later, handles[k]) == Content(cells, handles[k])
  {
    forall k {:trigger handles[k]} | 0 <= k < |handles|
      ensures HandleOk(later, more, handles[k]) && Content(later, handles[k]) == Content(cells, handles[k])
    {
      HandleSurvives(cells, handed, handles[k], later);
    }
  }

  lemma KeepsTwice(a: Cells, handed: set<Region>, b: Cells, more: set<Region>, c: Cells)
    requires Keeps(a, handed, b) && Keeps(b, more, c) && handed <= more
    ensures Keeps(a, handed, c)
  {
  }

  // ---- Writing ----

  /** The cells outside a range are as before. */
  ghost predicate OnlyIn(cells: Cells, r: Region, later: Cells) {
    forall a :: a in cells && !(r.addr <= a < r.addr + r.size) ==> a in later && later[a] == cells[a]
  }

  lemma OnlyInKeeps(cells: Cells, handed: set<Region>, r: Region, later: Cells)
    requires OnlyIn(cells, r, later) && forall q :: q in handed ==> Apart(q, r)
    ensures Keeps(cells, handed, later)
  {
  }

  class Memory {
    var cells: Cells

    constructor ()
      ensures cells == map[]
    {
      cells := map[];
    }

    /** The copy of the characters and the NUL behind them. */
    method WriteString(buff: nat, str: Str)
      modifies this
      ensures OnlyIn(old(cells), Region(buff, |str| + 1), cells)
      ensures TextAt(cells, buff, str)
    {
      var i := 0;
      while i != |str|
        invariant i <= |str| && OnlyIn(old(cells), Region(buff, |str| + 1), cells)
        invariant forall a :: buff <= a < buff + i ==> a in cells && cells[a] == Unit(str[a - buff])
        decreases |str| - i
      {
        cells := cells[buff + i := Unit(str[i])];
        i := i + 1;
      }
      cells := cells[buff + |str| := Unit(0)];
    }

    method WriteRecord(h: nat, buff: nat, len: nat)
      modifies this
      ensures OnlyIn(old(cells), Region(h, RECORD_SIZE), cells)
      ensures h in cells && cells[h] == Record(buff, len)
    {
      cells := cells[h := Record(buff, len)];
      var i := 1;
      while i != RECORD_SIZE
        invariant 1 <= i <= RECORD_SIZE && OnlyIn(old(cells), Region(h, RECORD_SIZE), cells)
        invariant h in cells && cells[h] == Record(buff, len)
        decreases RECORD_SIZE - i
      {
        cells := cells[h + i := Filler];
        i := i + 1;
      }
    }
  }

  /** A table with one more string. */
  lemma OneMore(cells: Cells, handed: set<Region>, handles: seq<nat>, h: nat)
    requires TableOk(cells, handed, handles) && HandleOk(cells, handed, h)
    requires forall k :: 0 <= k < |handles| ==> Content(cells, handles[k]) != Content(cells, h)
    ensures TableOk(cells, handed, handles + [h])
  {
    var more := handles + [h];
    forall k {:trigger more[k]} | 0 <= k < |more| ensures HandleOk(cells, handed, more[k]) {
      assert k < |handles| ==> more[k] == handles[k];
    }
  }

  /** The new record points to the new characters, which its own write left alone. */
  lemma NewString(before: Cells, cells: Cells, handed: set<Region>, buff: nat, str: Str, h: nat)
    requires Region(buff, |str| + 1) in handed && Keeps(before, handed, cells)
    requires TextAt(before, buff, str)
    requires h in cells && cells[h] == Record(buff, |str|)
    ensures Stored(cells, h) && Content(cells, h) == str
  {
    var r := Region(buff, |str| + 1);
    forall a | buff <= a <= buff + |str| ensures a in cells && cells[a] == before[a] {
      assert a in before && r.addr <= a < r.addr + r.size;
    }
  }

  lemma NewEntry(cells: Cells, handed: set<Region>, handles: seq<nat>, later: Cells, more: set<Region>, h: nat)
    requires TableOk(cells, handed, handles) && Keeps(cells, handed, later) && handed <= more
    requires HandleOk(later, more, h)
    requires forall k :: 0 <= k < |handles| ==> Content(cells, handles[k]) != Content(later, h)
    ensures TableOk(later, more, handles + [h])
  {
    TableSurvives(cells, handed, handles, later, more);
    OneMore(later, more, handles, h);
  }

  class StringTable {
    var handles: seq<nat>

    constructor ()
      ensures handles == []
    {
      handles := [];
    }

    /** The lookup of the hash set, which compares contents. */
    method Find(mem: Memory, ghost handed: set<Region>, str: Str) returns (r: Option<nat>)
      requires TableOk(mem.cells, handed, handles)
      ensures r.Some? ==>
                r.value in handles && HandleOk(mem.cells, handed, r.value) && Content(mem.cells, r.value) == str
      ensures r.None? ==> forall k :: 0 <= k < |handles| ==> Content(mem.cells, handles[k]) != str
    {
      var i := 0;
      while i != |handles|
        invariant i <= |handles|
        invariant forall k :: 0 <= k < i ==> Content(mem.cells, handles[k]) != str
        decreases |handles| - i
      {
        assert HandleOk(mem.cells, handed, handles[i]);
        if Content(mem.cells, handles[i]) == str {
          return Some(handles[i]);
        }
        i := i + 1;
      }
      return None;
    }

    /** The characters of a new string get memory of their own. */
    method CopyString(mem: Memory, alc: A.MemoryAllocator, str: Str) returns (buff: nat)
      requires alc.Valid()
      modifies mem, alc.vm, alc.small, alc.small.chain, alc.big, alc.big.chain
      ensures alc.Valid() && alc.Handed() == old(alc.Handed()) + {Region(buff, |str| + 1)}
      ensures TextAt(mem.cells, buff, str) && Keeps(old(mem.cells), old(alc.Handed()), mem.cells)
      ensures forall i :: 0 <= i < |alc.small.chain| ==>
                alc.small.chain[i] in old(alc.small.chain) || fresh(alc.small.chain[i])
      ensures forall i :: 0 <= i < |alc.big.chain| ==> alc.big.chain[i] in old(alc.big.chain) || fresh(alc.big.chain[i])
    {
      buff := alc.AllocateBytes(|str| + 1, 1);
      mem.WriteString(buff, str);
      OnlyInKeeps(old(mem.cells), old(alc.Handed()), Region(buff, |str| + 1), mem.cells);
    }

    /** And so does its record. */
    method NewRecord(mem: Memory, alc: A.MemoryAllocator, buff: nat, len: nat) returns (h: nat)
      requires alc.Valid()
      modifies mem, alc.vm, alc.small, alc.small.chain, alc.big, alc.big.chain
      ensures alc.Valid() && alc.Handed() == old(alc.Handed()) + {Region(h, RECORD_SIZE)}
      ensures h in mem.cells && mem.cells[h] == Record(buff, len)
      ensures Keeps(old(mem.cells), old(alc.Handed()), mem.cells)
    {
      h := alc.AllocateBytes(RECORD_SIZE, RECORD_ALIGN);
      mem.WriteRecord(h, buff, len);
      OnlyInKeeps(old(mem.cells), old(alc.Handed()), Region(h, RECORD_SIZE), mem.cells);
    }

    /** A string in memory of its own. */
    method MakeString(mem: Memory, alc: A.MemoryAllocator, str: Str) returns (h: nat)
      requires alc.Valid()
      modifies mem, alc.vm, alc.small, alc.small.chain, alc.big, alc.big.chain
      ensures alc.Valid() && old(alc.Handed()) <= alc.Handed()
      ensures HandleOk(mem.cells, alc.Handed(), h) && Content(mem.cells, h) == str
      ensures Keeps(old(mem.cells), old(alc.Handed()), mem.cells)
    {
      var buff := CopyString(mem, alc, str);
      ghost var cells, handed := mem.cells, alc.Handed();
      h := NewRecord(mem, alc, buff, |str|);
      KeepsTwice(old(mem.cells), old(alc.Handed()), cells, handed, mem.cells);
      NewString(cells, mem.cells, handed, buff, str, h);
    }

    method Insert(mem: Memory, alc: A.MemoryAllocator, str: Str) returns (h: nat)
      requires alc.Valid() && TableOk(mem.cells, alc.Handed(), handles)
      requires forall k :: 0 <= k < |handles| ==> Content(mem.cells, handles[k]) != str
      modifies this, mem, alc.vm, alc.small, alc.small.chain, alc.big, alc.big.chain
      ensures alc.Valid() && old(alc.Handed()) <= alc.Handed()
      ensures TableOk(mem.cells, alc.Handed(), handles) && handles == old(handles) + [h]
      ensures HandleOk(mem.cells, alc.Handed(), h) && Content(mem.cells, h) == str
      ensures Keeps(old(mem.cells), old(alc.Handed()), mem.cells)
    {
      h := MakeString(mem, alc, str);
      NewEntry(old(mem.cells), old(alc.Handed()), handles, mem.cells, alc.Handed(), h);
      Append(alc, h);
    }

    method Append(ghost alc: A.MemoryAllocator, h: nat)
      requires alc.Valid()
      modifies this
      ensures alc.Valid() && alc.Handed() == old(alc.Handed()) && handles == old(handles) + [h]
    {
      handles := handles + [h];
    }

    /** add_string: the handle of the string, from the table or new. Every string handed
        out before, by this table or another one, is left as it was. */
    method AddString(mem: Memory, alc: A.MemoryAllocator, str: Str) returns (h: nat)
      requires alc.Valid() && TableOk(mem.cells, alc.Handed(), handles)
      modifies this, mem, alc.vm, alc.small, alc.small.chain, alc.big, alc.big.chain
      ensures alc.Valid() && old(alc.Handed()) <= alc.Handed()
      ensures TableOk(mem.cells, alc.Handed(), handles) && h in handles
      ensures HandleOk(mem.cells, alc.Handed(), h) && Content(mem.cells, h) == str
      ensures Keeps(old(mem.cells), old(alc.Handed()), mem.cells)
      ensures if exists k :: 0 <= k < |old(handles)| && Content(old(mem.cells), old(handles)[k]) == str
              then handles == old(handles) && mem.cells == old(mem.cells) && alc.Handed() == old(alc.Handed())
              else handles == old(handles) + [h]
    {
      var found := Find(mem, alc.Handed(), str);
      match found {
        case Some(g) => h := g;
        case None => h := Insert(mem, alc, str);
      }
    }
  }
}
