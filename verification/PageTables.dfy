/**
  Four-level page tables in physical memory: the hardware walk as the specification, and the
  kernel's map and unmap as functions on the memory and the list of free pages.
 */
module PageTables {
  import opened Options
  import opened Amd64

  // A page holds 512 entries; an index that is not a key holds zero.
  type Table = map<Index, Entry>

  type Memory = map<Frame, Table>

  type Path = seq<Index>

  function EntryAt(mem: Memory, table: Frame, i: Index): Entry {
    if table in mem && i in mem[table] then mem[table][i] else 0
  }

  function Store(mem: Memory, table: Frame, i: Index, e: Entry): Memory {
    mem[table := (if table in mem then mem[table] else map[])[i := e]]
  }

  lemma StoredEntry(mem: Memory, table: Frame, i: Index, e: Entry, b: Frame, j: Index)
    ensures EntryAt(Store(mem, table, i, e), b, j) == if b == table && j == i then e else EntryAt(mem, b, j)
    ensures b in Store(mem, table, i, e) <==> b == table || b in mem
  {
  }

  // ---------- the hardware walk ----------

  // `levels` is 1, 2 or 3 for a 4 KiB, 2 MiB or 1 GiB page; `path` holds the flags of the entries
  // above the leaf, top level first, from which the effective rights follow.
  datatype Translation =
    | NotPresent
    | ReservedBit
    | Unbacked
    | Mapped(levels: nat, frame: Address, flags: Entry, path: seq<Entry>)
  {
    function Above(flags: Entry): Translation {
      if Mapped? then this.(path := [flags] + path) else this
    }

    // No large page and no reserved bit was met.
    predicate Small() {
      NotPresent? || (Mapped? && levels == 1)
    }
  }

  // A leaf entry, seen `levels` above the page offset.
  function LeafAt(e: Entry, levels: nat): Translation {
    Mapped(levels, e & FrameMask(levels), e & !FrameMask(levels), [])
  }

  function WalkFrom(mem: Memory, table: Frame, idx: Path): Translation
    requires 1 <= |idx| <= 4
    decreases |idx|
  {
    var e := EntryAt(mem, table, idx[0]);
    if table !in mem then Unbacked
    else if !Present(e) then NotPresent
    else if |idx| == 1 then LeafAt(e, 1)
    else if Large(e) then if |idx| == 4 then ReservedBit else LeafAt(e, |idx|)
    else WalkFrom(mem, TableFrame(e), idx[1..]).Above(FlagsOf(e))
  }

  function Walk(mem: Memory, root: Frame, va: Address): Translation {
    WalkFrom(mem, root, Indices(va))
  }

  // ---------- the tables behind a root ----------

  // The table at the end of a path of table-pointing entries.
  function TableAt(mem: Memory, table: Frame, path: Path): Option<Frame>
    decreases |path|
  {
    if path == [] then Some(table)
    else
      var e := EntryAt(mem, table, path[0]);
      if Descends(e) then TableAt(mem, TableFrame(e), path[1..]) else None
  }

  ghost predicate IsTable(mem: Memory, root: Frame, b: Frame) {
    exists p: Path :: |p| <= 3 && TableAt(mem, root, p) == Some(b)
  }

  predicate NarrowIfTable(e: Entry) {
    Descends(e) ==> Narrow(e)
  }

  // Every table is in memory, no table is reached along two paths, and every pointer to a table
  // fits the kernel's address mask.
  ghost predicate Shaped(mem: Memory, root: Frame) {
    && (forall p: Path :: |p| <= 3 && TableAt(mem, root, p).Some? ==> TableAt(mem, root, p).value in mem)
    && (forall p: Path, q: Path ::
          (|p| <= 3 && |q| <= 3 && TableAt(mem, root, p).Some? && TableAt(mem, root, p) == TableAt(mem, root, q)) ==> p == q)
    && (forall p: Path, i: Index ::
          |p| <= 2 && TableAt(mem, root, p).Some? ==> NarrowIfTable(EntryAt(mem, TableAt(mem, root, p).value, i)))
  }

  // One more step along a path.
  function NextTable(mem: Memory, t: Option<Frame>, i: Index): Option<Frame> {
    if t.Some? && Descends(EntryAt(mem, t.value, i)) then Some(TableFrame(EntryAt(mem, t.value, i))) else None
  }

  lemma {:induction false} TableAtSnoc(mem: Memory, t: Frame, p: Path, i: Index)
    ensures TableAt(mem, t, p + [i]) == NextTable(mem, TableAt(mem, t, p), i)
    decreases |p|
  {
    hide Descends, TableFrame;
    if p == [] {
      assert [i][1..] == [];
    } else {
      var e := EntryAt(mem, t, p[0]);
      assert (p + [i])[1..] == p[1..] + [i];
      if Descends(e) {
        TableAtSnoc(mem, TableFrame(e), p[1..], i);
      }
    }
  }

  // ---------- frames ----------

  // Two memories hold the same tables behind a root.
  ghost predicate SameTables(mem: Memory, mem': Memory, root: Frame) {
    forall b :: IsTable(mem, root, b) && b in mem ==> b in mem' && mem'[b] == mem[b]
  }

  lemma {:induction false} TableFrameFrom(mem: Memory, mem': Memory, root: Frame, u: Path, b: Frame, s: Path)
    requires Shaped(mem, root) && SameTables(mem, mem', root)
    requires |u| + |s| <= 3 && TableAt(mem, root, u) == Some(b)
    ensures TableAt(mem', b, s) == TableAt(mem, b, s)
    decreases |s|
  {
    hide Descends, TableFrame, NarrowIfTable;
    assert IsTable(mem, root, b);
    if s != [] {
      var e := EntryAt(mem, b, s[0]);
      assert EntryAt(mem', b, s[0]) == e;
      TableAtSnoc(mem, root, u, s[0]);
      if Descends(e) {
        TableFrameFrom(mem, mem', root, u + [s[0]], TableFrame(e), s[1..]);
      }
    }
  }

  lemma {:induction false} WalkFrameFrom(mem: Memory, mem': Memory, root: Frame, u: Path, b: Frame, s: Path)
    requires Shaped(mem, root) && SameTables(mem, mem', root)
    requires |u| + |s| == 4 && |s| >= 1 && TableAt(mem, root, u) == Some(b)
    ensures WalkFrom(mem', b, s) == WalkFrom(mem, b, s)
    decreases |s|
  {
    hide Present, Large, TableFrame, FlagsOf, LeafAt, NarrowIfTable;
    assert IsTable(mem, root, b);
    var e := EntryAt(mem, b, s[0]);
    assert EntryAt(mem', b, s[0]) == e;
    TableAtSnoc(mem, root, u, s[0]);
    if Descends(e) && |s| > 1 {
      WalkFrameFrom(mem, mem', root, u + [s[0]], TableFrame(e), s[1..]);
    }
  }

  // Pages that are not tables of a root do not matter to it.
  lemma FrameShaped(mem: Memory, mem': Memory, root: Frame)
    requires Shaped(mem, root) && SameTables(mem, mem', root)
    ensures Shaped(mem', root)
    ensures forall p: Path :: |p| <= 3 ==> TableAt(mem', root, p) == TableAt(mem, root, p)
    ensures forall idx: Path :: |idx| == 4 ==> WalkFrom(mem', root, idx) == WalkFrom(mem, root, idx)
    ensures forall b :: IsTable(mem', root, b) <==> IsTable(mem, root, b)
  {
    hide Descends, TableFrame, NarrowIfTable, WalkFrom;
    forall p: Path | |p| <= 3 ensures TableAt(mem', root, p) == TableAt(mem, root, p) {
      TableFrameFrom(mem, mem', root, [], root, p);
    }
    forall idx: Path | |idx| == 4 ensures WalkFrom(mem', root, idx) == WalkFrom(mem, root, idx) {
      WalkFrameFrom(mem, mem', root, [], root, idx);
    }
    forall p: Path, i: Index | |p| <= 2 && TableAt(mem, root, p).Some?
      ensures EntryAt(mem', TableAt(mem, root, p).value, i) == EntryAt(mem, TableAt(mem, root, p).value, i)
    {
      assert IsTable(mem, root, TableAt(mem, root, p).value);
    }
    forall p: Path | |p| <= 3 && TableAt(mem', root, p).Some? ensures TableAt(mem', root, p).value in mem' {
      assert IsTable(mem, root, TableAt(mem, root, p).value);
    }
  }
}
