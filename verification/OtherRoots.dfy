/**
  What mapping and unmapping through one root do to the translations of another root, or of the same
  one: the exact condition under which they do nothing.
 */
module OtherRoots {
  import opened Options
  import opened Sequences
  import opened Amd64
  import opened PageTables
  import opened PageMap
  import opened PageClone
  import opened LargePages

  // A table whose entries are leaves.
  ghost predicate LowTable(mem: Memory, other: Frame, a: Frame) {
    exists p: Path :: |p| == 3 && TableAt(mem, other, p) == Some(a)
  }

  // The step creates a table in such a table, so that a leaf appears there.
  ghost predicate LinksLow(st: State, other: Frame, a: Frame, i: Index) {
    !Present(EntryAt(st.mem, a, i)) && LowTable(st.mem, other, a)
  }

  // No translation is taken away.
  ghost predicate KeepsMapped(mem: Memory, mem': Memory, other: Frame) {
    forall idx: Path :: |idx| == 4 && WalkFrom(mem, other, idx) != NotPresent ==> WalkFrom(mem', other, idx) == WalkFrom(mem, other, idx)
  }

  // Some translation appears.
  ghost predicate Appears(mem: Memory, mem': Memory, other: Frame) {
    exists idx: Path :: |idx| == 4 && WalkFrom(mem, other, idx) == NotPresent && WalkFrom(mem', other, idx) != NotPresent
  }

  // ---------- one step ----------

  lemma StepOther(st: State, other: Frame, a: Frame, i: Index)
    requires Good(st, other) && Descend(st, a, i).Some?
    ensures var st' := Descend(st, a, i).value.0;
            && Good(st', other) && KeepsMapped(st.mem, st'.mem, other)
            && (!LinksLow(st, other, a, i) ==> SameWalks(st.mem, st'.mem, other))
            && (LinksLow(st, other, a, i) ==> Appears(st.mem, st'.mem, other))
  {
    hide Shaped, TableAt, IsTable, Present, WalkFrom, NoDup, IsFrame, Store, ParentEntry, AddressOf, Appears;
    if !Present(EntryAt(st.mem, a, i)) {
      if !IsTable(st.mem, other, a) {
        LowIsTable(st.mem, other, a);
        StepOutside(st, other, a, i);
      } else {
        var p: Path := PathTo(st.mem, other, a);
        if |p| == 3 {
          StepLow(st, other, p, a, i);
        } else {
          NotLow(st.mem, other, p, a);
          StepHigh(st, other, p, a, i);
        }
      }
    }
  }

  lemma LowIsTable(mem: Memory, other: Frame, a: Frame)
    ensures LowTable(mem, other, a) ==> IsTable(mem, other, a)
  {
    hide TableAt;
  }

  lemma PathTo(mem: Memory, other: Frame, a: Frame) returns (p: Path)
    requires IsTable(mem, other, a)
    ensures |p| <= 3 && TableAt(mem, other, p) == Some(a)
  {
    p :| |p| <= 3 && TableAt(mem, other, p) == Some(a);
  }

  // A table is not at two levels.
  lemma NotLow(mem: Memory, other: Frame, p: Path, a: Frame)
    requires Shaped(mem, other) && |p| <= 2 && TableAt(mem, other, p) == Some(a)
    ensures !LowTable(mem, other, a)
  {
    hide TableAt, NarrowIfTable;
  }

  // From a page that is no table.
  lemma StepOutside(st: State, other: Frame, a: Frame, i: Index)
    requires Good(st, other) && Descend(st, a, i).Some? && !IsTable(st.mem, other, a)
    ensures var st' := Descend(st, a, i).value.0; Good(st', other) && SameWalks(st.mem, st'.mem, other)
  {
    hide Shaped, TableAt, IsTable, Present, WalkFrom, NoDup, IsFrame, Store, ParentEntry, AddressOf, Descend, SelfOnly, Remains;
    var st' := Descend(st, a, i).value.0;
    StrayStep(st.mem, st, other, a, i);
    FrameShaped(st.mem, st'.mem, other);
    RemainsPart(st.free, st'.free);
  }

  // From a table above the lowest level: the new table is empty.
  lemma StepHigh(st: State, other: Frame, p: Path, a: Frame, i: Index)
    requires Good(st, other) && Descend(st, a, i).Some? && !Present(EntryAt(st.mem, a, i))
    requires |p| <= 2 && TableAt(st.mem, other, p) == Some(a)
    ensures var st' := Descend(st, a, i).value.0; Good(st', other) && SameWalks(st.mem, st'.mem, other)
  {
    hide Shaped, TableAt, WalkFrom, IsTable, Present, AddressOf, ParentEntry, IsFrame, NoDup;
    var f := st.free[0];
    assert f in st.free;
    LinkedShaped(st.mem, other, p, a, i, f);
    LinkedWalks(st.mem, other, p, a, i, f);
    BackedTable(st.mem, other, p, a);
    LinkConfined(st, other, a, i);
  }

  // From a table at the lowest level: the entry for the new table is a leaf.
  lemma StepLow(st: State, other: Frame, p: Path, a: Frame, i: Index)
    requires Good(st, other) && Descend(st, a, i).Some? && !Present(EntryAt(st.mem, a, i))
    requires |p| == 3 && TableAt(st.mem, other, p) == Some(a)
    ensures var st' := Descend(st, a, i).value.0;
            Good(st', other) && KeepsMapped(st.mem, st'.mem, other) && Appears(st.mem, st'.mem, other)
    ensures LowTable(st.mem, other, a)
  {
    hide Shaped, TableAt, WalkFrom, IsTable, Present, AddressOf, ParentEntry, IsFrame, NoDup, Store, LeafAt, PathFlags;
    var (f, idx) := (st.free[0], p + [i]);
    assert f in st.free && idx[..3] == p;
    var zeroed := st.mem[f := map[]];
    ZeroedKeeps(st.mem, other, f);
    LeafStore(zeroed, other, idx, a, ParentEntry(f));
    ParentFields(f);
    BackedTable(st.mem, other, p, a);
    RootTable(st.mem, other);
    WalkAlong(st.mem, other, [], other, p, a, [i]);
    LastStep(st.mem, a, i);
    TailOf(st.free);
    assert [] + p == p;
    var st' := Descend(st, a, i).value.0;
    LeafIsMapped(ParentEntry(f), PathFlags(st'.mem, other, p));
    assert WalkFrom(st.mem, other, idx) == NotPresent && WalkFrom(st'.mem, other, idx) != NotPresent;
  }

  lemma LeafIsMapped(e: Entry, flags: seq<Entry>)
    ensures Behind(flags, LeafAt(e, 1)).Mapped?
  {
    hide FrameMask;
  }

  // ---------- the whole descent ----------

  ghost predicate LinksLowAlong(st: State, a: Frame, path: Path, other: Frame)
    decreases |path|
  {
    && path != []
    && (LinksLow(st, other, a, path[0])
        || (Descend(st, a, path[0]).Some?
            && LinksLowAlong(Descend(st, a, path[0]).value.0, Descend(st, a, path[0]).value.1, path[1..], other)))
  }

  // The descent takes no translation away from any root, and adds one exactly when it creates a table
  // in a table of the lowest level.
  lemma {:induction false} DescentOther(st: State, a: Frame, path: Path, other: Frame)
    requires Good(st, other) && DescendAlong(st, a, path).Some?
    ensures var st' := DescendAlong(st, a, path).value.0;
            && Good(st', other) && KeepsMapped(st.mem, st'.mem, other)
            && (SameWalks(st.mem, st'.mem, other) <==> !LinksLowAlong(st, a, path, other))
    decreases |path|
  {
    hide Good, WalkFrom, Descend, LinksLow;
    if path != [] {
      StepOther(st, other, a, path[0]);
      var (st1, b) := Descend(st, a, path[0]).value;
      DescentOther(st1, b, path[1..], other);
    }
  }

  // ---------- the store at its end ----------

  // A walk through a stored word.
  lemma {:induction false} StoredWalk(mem: Memory, root: Frame, u: Path, t: Frame, p: Path, pt: Frame, i: Index, e: Entry, s: Path)
    requires Shaped(mem, root) && TableAt(mem, root, u) == Some(t) && TableAt(mem, t, p) == Some(pt)
    requires |u| + |p| + 1 + |s| == 4
    ensures var w := WalkFrom(Store(mem, pt, i, e), t, p + [i] + s);
            && (!Present(e) ==> w == NotPresent)
            && (Present(e) && Large(e) ==> w != NotPresent)
    decreases |p|
  {
    hide Present, Large, TableFrame, FlagsOf, EntryAt, Store, Shaped, FrameMask;
    var mem' := Store(mem, pt, i, e);
    BackedTable(mem, root, u, t);
    var q := p + [i] + s;
    StoredEntry(mem, pt, i, e, t, q[0]);
    if p == [] {
      assert q[0] == i;
    } else {
      var e0 := EntryAt(mem, t, p[0]);
      assert q[0] == p[0] && q[1..] == p[1..] + [i] + s;
      TableAtSnoc(mem, root, u, p[0]);
      Above(mem, root, u, t, p, pt);
      StoredWalk(mem, root, u + [p[0]], TableFrame(e0), p[1..], pt, i, e, s);
    }
  }

  // The tables on the way to a table are different from it.
  lemma Above(mem: Memory, root: Frame, u: Path, t: Frame, p: Path, pt: Frame)
    requires Shaped(mem, root) && TableAt(mem, root, u) == Some(t) && TableAt(mem, t, p) == Some(pt) && p != [] && |u| + |p| <= 3
    ensures t != pt
  {
    hide TableAt, NarrowIfTable;
    TableAtAppend(mem, root, u, p);
  }

  // Two entries that lead to different translations when they are stored in a table.
  lemma TwoStores(mem: Memory, other: Frame, pt: Frame, i: Index, mem0: Memory)
    requires Shaped(mem, other) && IsTable(mem, other, pt)
    ensures !SameWalks(mem0, Store(mem, pt, i, 0), other) || !SameWalks(mem0, Store(mem, pt, i, FLAG_P | FLAG_PS), other)
  {
    hide Shaped, TableAt, WalkFrom, Store;
    var p := PathTo(mem, other, pt);
    var s: Path := seq(3 - |p|, _ => i);
    RootTable(mem, other);
    StoredWalk(mem, other, [], other, p, pt, i, 0, s);
    StoredWalk(mem, other, [], other, p, pt, i, FLAG_P | FLAG_PS, s);
    BothFlags();
    var idx := p + [i] + s;
    assert WalkFrom(Store(mem, pt, i, 0), other, idx) != WalkFrom(Store(mem, pt, i, FLAG_P | FLAG_PS), other, idx);
  }

  lemma BothFlags()
    ensures Present(FLAG_P | FLAG_PS) && Large(FLAG_P | FLAG_PS) && !Present(0)
  {
  }

  // ---------- the exact condition ----------

  // What the descent for a page does and where it ends spare a root.
  ghost predicate Harmless(st: State, root: Frame, va: Address, other: Frame) {
    var (idx, d) := (Indices(va), EntryTable(st, root, Indices(va)));
    d.Some? ==> !LinksLowAlong(st, root, idx[..3], other) && !IsTable(d.value.0.mem, other, d.value.1)
  }

  // The state after some entry has been stored for a page.
  function StoreAt(st: State, root: Frame, va: Address, e: Entry): State
    requires EntryTable(st, root, Indices(va)).Some?
  {
    var (st1, pt) := EntryTable(st, root, Indices(va)).value;
    State(Store(st1.mem, pt, Indices(va)[3], e), st1.free)
  }

  // Mapping and unmapping a page leave every translation of a root as it was, whatever is stored,
  // exactly when the descent creates no table in a lowest-level table of that root and ends at none of
  // its tables.
  lemma SparesExactly(st: State, root: Frame, va: Address, other: Frame)
    requires Good(st, other) && EntryTable(st, root, Indices(va)).Some?
    ensures (forall e: Entry :: SameWalks(st.mem, StoreAt(st, root, va, e).mem, other)) <==> Harmless(st, root, va, other)
  {
    hide Shaped, NoDup, IsFrame, IsTable, WalkFrom, EntryTable, LinksLowAlong, Store, Indices, DescendAlong;
    var idx := Indices(va);
    var (st1, pt) := EntryTable(st, root, idx).value;
    EntryTableIsDescent(st, root, idx);
    DescentOther(st, root, idx[..3], other);
    if IsTable(st1.mem, other, pt) {
      TwoStores(st1.mem, other, pt, idx[3], st.mem);
      assert !SameWalks(st.mem, StoreAt(st, root, va, 0).mem, other) || !SameWalks(st.mem, StoreAt(st, root, va, FLAG_P | FLAG_PS).mem, other);
    } else {
      forall e: Entry ensures SameWalks(st1.mem, StoreAt(st, root, va, e).mem, other) {
        StoreAside(st1.mem, other, pt, idx[3], e);
      }
      assert SameWalks(st1.mem, StoreAt(st, root, va, 0).mem, other);
    }
  }

  lemma SparedStaysGood(st: State, root: Frame, va: Address, e: Entry, other: Frame)
    requires Good(st, other) && EntryTable(st, root, Indices(va)).Some? && Harmless(st, root, va, other)
    ensures Good(StoreAt(st, root, va, e), other) && SameWalks(st.mem, StoreAt(st, root, va, e).mem, other)
  {
    hide Shaped, NoDup, IsFrame, IsTable, WalkFrom, EntryTable, LinksLowAlong, Store, Indices, DescendAlong;
    var idx := Indices(va);
    var (st1, pt) := EntryTable(st, root, idx).value;
    EntryTableIsDescent(st, root, idx);
    DescentOther(st, root, idx[..3], other);
    SameTablesSelf(st1.mem, other);
    StrayStore(st1.mem, st1.mem, other, pt, idx[3], e);
  }

  lemma SameTablesSelf(mem: Memory, other: Frame)
    requires Shaped(mem, other)
    ensures SameTables(mem, mem, other)
  {
  }

  // Pages that no large page covers spare every root that shares no table.
  lemma SmallIsHarmless(st: State, root: Frame, va: Address, other: Frame)
    requires Good(st, root) && Good(st, other) && Separate(st.mem, other, root) && Walk(st.mem, root, va).Small()
    ensures Harmless(st, root, va, other)
  {
    hide Good, WalkFrom, EntryTable, Confined, Separate, Harmless, Store, Indices, OnlyChanged, TableAt, LeafAt, PathFlags, Present;
    if EntryTable(st, root, Indices(va)).Some? {
      forall e: Entry ensures SameWalks(st.mem, StoreAt(st, root, va, e).mem, other) {
        EntryTableKeeps(st, root, Indices(va));
        var (st1, pt) := EntryTable(st, root, Indices(va)).value;
        LeafKeeps(st, st1, root, Indices(va), pt, e);
        ConfinedSpares(st, StoreAt(st, root, va, e), root, other);
      }
      SparesExactly(st, root, va, other);
    } else {
      NoDescentIsHarmless(st, root, va, other);
    }
  }

  lemma NoDescentIsHarmless(st: State, root: Frame, va: Address, other: Frame)
    requires EntryTable(st, root, Indices(va)).None?
    ensures Harmless(st, root, va, other)
  {
    hide EntryTable, Indices;
  }

  // So do pages under a large page if the pages that the descent takes for tables are no tables of it.
  lemma StraysAreHarmless(st: State, root: Frame, va: Address, other: Frame)
    requires Good(st, root) && Good(st, other) && !Walk(st.mem, root, va).Small() && StraysApart(st.mem, root, Indices(va), other)
    ensures Harmless(st, root, va, other)
  {
    hide Good, WalkFrom, EntryTable, IsTable, Harmless, Store, Indices, StraysApart;
    if EntryTable(st, root, Indices(va)).Some? {
      forall e: Entry ensures SameWalks(st.mem, StoreAt(st, root, va, e).mem, other) {
        UnderLargePage(st, root, va, e, other);
      }
      SparesExactly(st, root, va, other);
    } else {
      NoDescentIsHarmless(st, root, va, other);
    }
  }

  // ---------- runs ----------

  // Whatever is stored for the given pages, one after the other, no step changes a translation of
  // `other`.
  ghost predicate AlwaysSpared(st: State, root: Frame, pages: seq<Address>, other: Frame)
    decreases |pages|
  {
    pages != [] && EntryTable(st, root, Indices(pages[0])).Some? ==>
      forall e: Entry ::
        && SameWalks(st.mem, StoreAt(st, root, pages[0], e).mem, other)
        && AlwaysSpared(StoreAt(st, root, pages[0], e), root, pages[1..], other)
  }

  // Each page is harmless when its turn comes, whatever has been stored before.
  ghost predicate AlwaysHarmless(st: State, root: Frame, pages: seq<Address>, other: Frame)
    decreases |pages|
  {
    pages != [] && EntryTable(st, root, Indices(pages[0])).Some? ==>
      && Harmless(st, root, pages[0], other)
      && forall e: Entry :: AlwaysHarmless(StoreAt(st, root, pages[0], e), root, pages[1..], other)
  }

  lemma {:induction false} RunsSpareExactly(st: State, root: Frame, pages: seq<Address>, other: Frame)
    requires Good(st, other)
    ensures AlwaysSpared(st, root, pages, other) <==> AlwaysHarmless(st, root, pages, other)
    decreases |pages|
  {
    hide Good, EntryTable, Harmless, SameWalks, StoreAt, Indices;
    if pages != [] && EntryTable(st, root, Indices(pages[0])).Some? {
      SparesExactly(st, root, pages[0], other);
      if Harmless(st, root, pages[0], other) {
        forall e: Entry
          ensures AlwaysSpared(StoreAt(st, root, pages[0], e), root, pages[1..], other)
                  <==> AlwaysHarmless(StoreAt(st, root, pages[0], e), root, pages[1..], other)
        {
          SparedStaysGood(st, root, pages[0], e, other);
          RunsSpareExactly(StoreAt(st, root, pages[0], e), root, pages[1..], other);
        }
      }
    }
  }

  // ---------- a clone that its source does not survive ----------

  const COPY := Frame(0x8000)

  // The memory `SELF` with a clone of its three tables at 0x8000.
  const CLONED: Memory := map[ROOT := map[FIRST := 0x2003], PDPT := map[FIRST := 0x20_0003],
                              Frame(0x20_0000) := map[FIRST := 0x20_0083], Frame(0x7000) := map[FIRST := 0x7003],
                              COPY := map[FIRST := 0x9003], Frame(0x9000) := map[FIRST := 0xA003], Frame(0xA000) := map[FIRST := 0x20_0083]]

  lemma ClonedSteps(t: Frame, i: Index)
    requires t != Frame(0x7000)
    ensures NextTable(CLONED, Some(t), i) ==
            if i != FIRST then None
            else if t == ROOT then Some(PDPT) else if t == PDPT then Some(Frame(0x20_0000))
            else if t == COPY then Some(Frame(0x9000)) else if t == Frame(0x9000) then Some(Frame(0xA000))
            else None
    ensures NarrowIfTable(EntryAt(CLONED, t, i))
  {
    var e := EntryAt(CLONED, t, i);
    assert e in {0, 0x2003, 0x20_0003, 0x20_0083, 0x9003, 0xA003};
  }

  lemma ClonedRows()
    ensures Row(CLONED, ROOT, PDPT, Frame(0x20_0000)) && Row(CLONED, COPY, Frame(0x9000), Frame(0xA000))
  {
    hide NextTable, NarrowIfTable;
    forall t: Frame, i: Index | t != Frame(0x7000)
      ensures NextTable(CLONED, Some(t), i) ==
              if i != FIRST then None
              else if t == ROOT then Some(PDPT) else if t == PDPT then Some(Frame(0x20_0000))
              else if t == COPY then Some(Frame(0x9000)) else if t == Frame(0x9000) then Some(Frame(0xA000))
              else None
      ensures NarrowIfTable(EntryAt(CLONED, t, i))
    {
      ClonedSteps(t, i);
    }
  }

  lemma ClonedIsCopy()
    ensures Same(CLONED, ROOT, CLONED, COPY, 4)
  {
    hide EntryAt, Present, Large, TableFrame, Redirected, Narrow;
    forall i: Index | true
      ensures EntryAt(CLONED, ROOT, i) == (if i == FIRST then 0x2003 else 0)
      ensures EntryAt(CLONED, PDPT, i) == (if i == FIRST then 0x20_0003 else 0)
      ensures EntryAt(CLONED, COPY, i) == (if i == FIRST then 0x9003 else 0)
      ensures EntryAt(CLONED, Frame(0x9000), i) == (if i == FIRST then 0xA003 else 0)
      ensures EntryAt(CLONED, Frame(0xA000), i) == EntryAt(CLONED, Frame(0x20_0000), i)
      ensures !Descends(EntryAt(CLONED, Frame(0xA000), i)) && !Copied(EntryAt(CLONED, Frame(0xA000), i), 2)
    {
      ClonedEntries(i);
    }
    ClonedPointers();
    assert Same(CLONED, Frame(0x20_0000), CLONED, Frame(0xA000), 2);
    assert Same(CLONED, PDPT, CLONED, Frame(0x9000), 3);
  }

  lemma ClonedEntries(i: Index)
    ensures EntryAt(CLONED, ROOT, i) == (if i == FIRST then 0x2003 else 0)
    ensures EntryAt(CLONED, PDPT, i) == (if i == FIRST then 0x20_0003 else 0)
    ensures EntryAt(CLONED, COPY, i) == (if i == FIRST then 0x9003 else 0)
    ensures EntryAt(CLONED, Frame(0x9000), i) == (if i == FIRST then 0xA003 else 0)
    ensures EntryAt(CLONED, Frame(0xA000), i) == EntryAt(CLONED, Frame(0x20_0000), i)
    ensures !Descends(EntryAt(CLONED, Frame(0xA000), i)) && !Copied(EntryAt(CLONED, Frame(0xA000), i), 2)
  {
  }

  lemma ClonedPointers()
    ensures Redirected(0x20_0003, 0xA003) && Redirected(0x2003, 0x9003)
    ensures TableFrame(0x20_0003) == Frame(0x20_0000) && TableFrame(0xA003) == Frame(0xA000)
    ensures TableFrame(0x2003) == PDPT && TableFrame(0x9003) == Frame(0x9000)
    ensures !Present(0) && Descends(0x2003) && Descends(0x20_0003)
  {
  }

  // Both roots are good, they share no table, and one is a copy of the other.  Still mapping page 0 in
  // the copy, or unmapping it there, changes its translation in the source.
  lemma CloneExample()
    ensures Good(State(CLONED, []), ROOT) && Good(State(CLONED, []), COPY) && Separate(CLONED, ROOT, COPY)
    ensures forall idx: Path :: |idx| == 4 ==> WalkFrom(CLONED, COPY, idx) == WalkFrom(CLONED, ROOT, idx)
    ensures var r := Map(State(CLONED, []), COPY, Frame(0x7000), 0, WRITE | EXEC);
            r.Some? && Walk(r.value.mem, ROOT, 0) != Walk(CLONED, ROOT, 0)
    ensures var r := Unmap(State(CLONED, []), COPY, 0); r.Some? && Walk(r.value.mem, ROOT, 0) != Walk(CLONED, ROOT, 0)
  {
    hide Good, Row, IsTable, Same, Walk;
    ClonedRows();
    RowGood(CLONED, ROOT, PDPT, Frame(0x20_0000));
    RowGood(CLONED, COPY, Frame(0x9000), Frame(0xA000));
    ClonedIsCopy();
    forall idx: Path | |idx| == 4 ensures WalkFrom(CLONED, COPY, idx) == WalkFrom(CLONED, ROOT, idx) {
      SameWalk(CLONED, ROOT, CLONED, COPY, idx);
    }
    ClonedDescent();
    ClonedWalks(LeafEntry(Frame(0x7000), WRITE | EXEC));
  }

  lemma ClonedDescent()
    ensures Indices(0) == [FIRST, FIRST, FIRST, FIRST]
    ensures EntryTable(State(CLONED, []), COPY, Indices(0)) == Some((State(CLONED, []), Frame(0x20_0000)))
  {
  }

  lemma ClonedWalks(leaf: Entry)
    requires leaf == LeafEntry(Frame(0x7000), WRITE | EXEC)
    ensures Walk(CLONED, ROOT, 0).Mapped? && Walk(CLONED, ROOT, 0).levels == 2
    ensures Walk(Store(CLONED, Frame(0x20_0000), FIRST, 0), ROOT, 0) == NotPresent
    ensures Walk(Store(CLONED, Frame(0x20_0000), FIRST, leaf), ROOT, 0).Mapped?
    ensures Walk(Store(CLONED, Frame(0x20_0000), FIRST, leaf), ROOT, 0).levels == 1
  {
    hide *;
    ClonedWalkBefore();
    ClonedWalkUnmapped();
    ClonedWalkMapped(leaf);
  }

  lemma ClonedWalkBefore()
    ensures Walk(CLONED, ROOT, 0).Mapped? && Walk(CLONED, ROOT, 0).levels == 2
  {
    hide WalkFrom, Row, Shaped, TableAt, Indices, IsTable;
    ClonedRows();
    RowGood(CLONED, ROOT, PDPT, Frame(0x20_0000));
    ClonedDescent();
    assert Indices(0)[..2] == [FIRST, FIRST];
    LargeWalk(CLONED, ROOT, Indices(0), Frame(0x20_0000));
  }

  lemma ClonedWalkUnmapped()
    ensures Walk(Store(CLONED, Frame(0x20_0000), FIRST, 0), ROOT, 0) == NotPresent
  {
    hide WalkFrom, Row, Shaped, TableAt, Indices, IsTable, Store;
    ClonedRows();
    RowGood(CLONED, ROOT, PDPT, Frame(0x20_0000));
    ClonedDescent();
    RootTable(CLONED, ROOT);
    BothFlags();
    StoredWalk(CLONED, ROOT, [], ROOT, [FIRST, FIRST], Frame(0x20_0000), FIRST, 0, [FIRST]);
    assert [FIRST, FIRST] + [FIRST] + [FIRST] == Indices(0);
  }

  lemma ClonedWalkMapped(leaf: Entry)
    requires leaf == LeafEntry(Frame(0x7000), WRITE | EXEC)
    ensures Walk(Store(CLONED, Frame(0x20_0000), FIRST, leaf), ROOT, 0).Mapped?
    ensures Walk(Store(CLONED, Frame(0x20_0000), FIRST, leaf), ROOT, 0).levels == 1
  {
    hide WalkFrom, EntryAt, Descends, Present, TableFrame, FlagsOf, Store, Indices, LeafEntry;
    var mem := Store(CLONED, Frame(0x20_0000), FIRST, leaf);
    var s: Path := [FIRST, FIRST, FIRST, FIRST];
    ClonedDescent();
    ClonedMappedEntries(leaf);
    WalkStep(mem, ROOT, s, PDPT);
    WalkStep(mem, PDPT, s[1..], Frame(0x20_0000));
    WalkStep(mem, Frame(0x20_0000), s[1..][1..], Frame(0x7000));
    assert s[1..][1..][1..] == [FIRST];
    LastStep(mem, Frame(0x7000), FIRST);
  }

  lemma ClonedMappedEntries(leaf: Entry)
    requires leaf == LeafEntry(Frame(0x7000), WRITE | EXEC)
    ensures var mem := Store(CLONED, Frame(0x20_0000), FIRST, leaf);
            && ROOT in mem && PDPT in mem && Frame(0x20_0000) in mem && Frame(0x7000) in mem
            && Descends(EntryAt(mem, ROOT, FIRST)) && TableFrame(EntryAt(mem, ROOT, FIRST)) == PDPT
            && Descends(EntryAt(mem, PDPT, FIRST)) && TableFrame(EntryAt(mem, PDPT, FIRST)) == Frame(0x20_0000)
            && Descends(EntryAt(mem, Frame(0x20_0000), FIRST)) && TableFrame(EntryAt(mem, Frame(0x20_0000), FIRST)) == Frame(0x7000)
            && Present(EntryAt(mem, Frame(0x7000), FIRST))
  {
  }

  lemma WalkStep(mem: Memory, t: Frame, s: Path, f: Frame)
    requires 2 <= |s| <= 4 && t in mem && Descends(EntryAt(mem, t, s[0])) && TableFrame(EntryAt(mem, t, s[0])) == f
    ensures WalkFrom(mem, t, s) == WalkFrom(mem, f, s[1..]).Above(FlagsOf(EntryAt(mem, t, s[0])))
  {
    hide Present, Large, TableFrame, FlagsOf, EntryAt;
  }
}
