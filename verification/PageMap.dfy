/**
  Mapping and unmapping one page: the kernel's steps as functions on the physical memory and the
  free pages, and the proof that they are point updates of the hardware's translation.
 */
module PageMap {
  import opened Options
  import opened Sequences
  import opened Amd64
  import opened PageTables

  // ---------- a store into one table ----------

  lemma Rejoin<T>(u: seq<T>, s: seq<T>)
    requires s != []
    ensures (u + [s[0]]) + s[1..] == u + s
  {
  }

  // A path that does not run through the stored entry leads where it led before.
  lemma {:induction false} StoreTableFrom(mem: Memory, root: Frame, p: Path, a: Frame, i: Index, e: Entry,
                                          u: Path, b: Frame, s: Path)
    requires Shaped(mem, root) && |p| <= 3 && TableAt(mem, root, p) == Some(a)
    requires |u| + |s| <= 3 && TableAt(mem, root, u) == Some(b) && !(p + [i] <= u + s)
    ensures TableAt(Store(mem, a, i, e), b, s) == TableAt(mem, b, s)
    decreases |s|
  {
    hide Descends, TableFrame, NarrowIfTable, Store, EntryAt;
    if s != [] {
      OtherEntry(mem, root, p, a, i, e, u, b, s);
      var before := EntryAt(mem, b, s[0]);
      TableAtSnoc(mem, root, u, s[0]);
      if Descends(before) {
        Rejoin(u, s);
        StoreTableFrom(mem, root, p, a, i, e, u + [s[0]], TableFrame(before), s[1..]);
      }
    }
  }

  // The entry that such a path reads next is not the stored one.
  lemma OtherEntry(mem: Memory, root: Frame, p: Path, a: Frame, i: Index, e: Entry, u: Path, b: Frame, s: Path)
    requires Shaped(mem, root) && |p| <= 3 && TableAt(mem, root, p) == Some(a)
    requires s != [] && |u| <= 3 && TableAt(mem, root, u) == Some(b) && !(p + [i] <= u + s)
    ensures EntryAt(Store(mem, a, i, e), b, s[0]) == EntryAt(mem, b, s[0])
    ensures b in Store(mem, a, i, e) <==> b in mem
  {
    hide Descends, TableFrame, NarrowIfTable, Store, EntryAt;
    StoredEntry(mem, a, i, e, b, s[0]);
    assert u + [s[0]] <= u + s;
  }

  lemma {:induction false} StoreWalkFrom(mem: Memory, root: Frame, p: Path, a: Frame, i: Index, e: Entry,
                                         u: Path, b: Frame, s: Path)
    requires Shaped(mem, root) && |p| <= 3 && TableAt(mem, root, p) == Some(a)
    requires |u| + |s| == 4 && |s| >= 1 && TableAt(mem, root, u) == Some(b) && !(p + [i] <= u + s)
    ensures WalkFrom(Store(mem, a, i, e), b, s) == WalkFrom(mem, b, s)
    decreases |s|
  {
    hide Present, Large, TableFrame, FlagsOf, LeafAt, NarrowIfTable, Store, EntryAt;
    OtherEntry(mem, root, p, a, i, e, u, b, s);
    var before := EntryAt(mem, b, s[0]);
    TableAtSnoc(mem, root, u, s[0]);
    if Descends(before) && |s| > 1 {
      Rejoin(u, s);
      StoreWalkFrom(mem, root, p, a, i, e, u + [s[0]], TableFrame(before), s[1..]);
    }
  }

  // ---------- walks in two parts ----------

  // The flags of the table-pointing entries along a path.
  function PathFlags(mem: Memory, t: Frame, p: Path): seq<Entry>
    decreases |p|
  {
    if p == [] then []
    else [FlagsOf(EntryAt(mem, t, p[0]))] + PathFlags(mem, TableFrame(EntryAt(mem, t, p[0])), p[1..])
  }

  function Behind(flags: seq<Entry>, r: Translation): Translation {
    if r.Mapped? then r.(path := flags + r.path) else r
  }

  lemma BehindNothing(r: Translation)
    ensures Behind([], r) == r
  {
    if r.Mapped? {
      assert [] + r.path == r.path;
    }
  }

  // A walk along a path of tables, and on from its end.
  lemma {:induction false} WalkAlong(mem: Memory, root: Frame, u: Path, t: Frame, p: Path, b: Frame, s: Path)
    requires Shaped(mem, root) && TableAt(mem, root, u) == Some(t) && TableAt(mem, t, p) == Some(b)
    requires |u| + |p| + |s| == 4 && |s| >= 1
    ensures WalkFrom(mem, t, p + s) == Behind(PathFlags(mem, t, p), WalkFrom(mem, b, s))
    decreases |p|
  {
    hide Present, Large, TableFrame, FlagsOf, LeafAt, NarrowIfTable, EntryAt, Behind;
    if p == [] {
      BehindNothing(WalkFrom(mem, b, s));
      assert p + s == s;
    } else {
      var e := EntryAt(mem, t, p[0]);
      TableAtSnoc(mem, root, u, p[0]);
      assert (p + s)[1..] == p[1..] + s;
      WalkAlong(mem, root, u + [p[0]], TableFrame(e), p[1..], b, s);
      AboveBehind(FlagsOf(e), PathFlags(mem, TableFrame(e), p[1..]), WalkFrom(mem, b, s));
    }
  }

  lemma AboveBehind(flag: Entry, flags: seq<Entry>, r: Translation)
    ensures Behind(flags, r).Above(flag) == Behind([flag] + flags, r)
  {
    if r.Mapped? {
      assert [flag] + (flags + r.path) == ([flag] + flags) + r.path;
    }
  }

  lemma {:induction false} TableAtAppend(mem: Memory, t: Frame, p: Path, r: Path)
    ensures TableAt(mem, t, p + r) ==
            if TableAt(mem, t, p).Some? then TableAt(mem, TableAt(mem, t, p).value, r) else None
    decreases |p|
  {
    hide Descends, TableFrame;
    if p == [] {
      assert p + r == r;
    } else {
      assert (p + r)[1..] == p[1..] + r;
      var e := EntryAt(mem, t, p[0]);
      if Descends(e) {
        TableAtAppend(mem, TableFrame(e), p[1..], r);
      }
    }
  }

  // ---------- the kernel's steps ----------

  datatype State = State(mem: Memory, free: seq<Frame>)

  // The tables behind a root form a tree, and no free page is one of them.
  ghost predicate Good(st: State, root: Frame) {
    && Shaped(st.mem, root)
    && NoDup(st.free)
    && (forall f :: f in st.free ==> IsFrame(f) && !IsTable(st.mem, root, f))
  }

  // Follow one entry, creating an empty table behind it if there is none.  `None` is the panic for
  // want of a physical page.
  function Descend(st: State, table: Frame, i: Index): Option<(State, Frame)> {
    var e := EntryAt(st.mem, table, i);
    if Present(e) then Some((st, AddressOf(e)))
    else if st.free == [] then None
    else
      var f := st.free[0];
      Some((State(Store(st.mem[f := map[]], table, i, ParentEntry(f)), st.free[1..]), AddressOf(ParentEntry(f))))
  }

  // The lowest-level table for a path of indices.
  function EntryTable(st: State, root: Frame, idx: Path): Option<(State, Frame)>
    requires |idx| == 4
  {
    var (st1, pdpt) :- Descend(st, root, idx[0]);
    var (st2, pd) :- Descend(st1, pdpt, idx[1]);
    Descend(st2, pd, idx[2])
  }

  function Map(st: State, root: Frame, physical: Frame, va: Address, flags: bv64): Option<State> {
    var (st', pt) :- EntryTable(st, root, Indices(va));
    Some(State(Store(st'.mem, pt, Indices(va)[3], LeafEntry(physical, flags)), st'.free))
  }

  function Unmap(st: State, root: Frame, va: Address): Option<State> {
    var (st', pt) :- EntryTable(st, root, Indices(va));
    Some(State(Store(st'.mem, pt, Indices(va)[3], 0), st'.free))
  }

  // What is left of the free pages after some have been taken.
  ghost predicate Remains<T>(free: seq<T>, free': seq<T>) {
    |free'| <= |free| && free' == free[|free| - |free'|..]
  }

  lemma RemainsTwice<T>(a: seq<T>, b: seq<T>, c: seq<T>)
    requires Remains(a, b) && Remains(b, c)
    ensures Remains(a, c)
    ensures forall x :: x in b ==> x in a
  {
  }

  // Only tables of the root and free pages are written, the free pages that remain are a part of those
  // there were, and every page that was taken has become a table.
  ghost predicate Confined(st: State, st': State, root: Frame) {
    && (forall b :: b in st.mem && !IsTable(st.mem, root, b) && b !in st.free ==> b in st'.mem && st'.mem[b] == st.mem[b])
    && Remains(st.free, st'.free)
    && (forall b :: IsTable(st'.mem, root, b) ==> IsTable(st.mem, root, b) || b in st.free)
    && (forall b :: IsTable(st.mem, root, b) ==> IsTable(st'.mem, root, b))
    && (forall f :: f in st.free && f !in st'.free ==> IsTable(st'.mem, root, f))
  }

  // The whole translation is the same.
  ghost predicate SameWalks(mem: Memory, mem': Memory, root: Frame) {
    forall idx: Path :: |idx| == 4 ==> WalkFrom(mem', root, idx) == WalkFrom(mem, root, idx)
  }

  // ---------- linking a new table ----------

  // The memory with an empty table `f` linked below the table at path `p`.
  ghost function Linked(mem: Memory, a: Frame, i: Index, f: Frame): Memory {
    Store(mem[f := map[]], a, i, ParentEntry(f))
  }

  ghost predicate Linkable(mem: Memory, root: Frame, p: Path, a: Frame, i: Index, f: Frame) {
    && Shaped(mem, root) && |p| <= 2 && TableAt(mem, root, p) == Some(a)
    && !Present(EntryAt(mem, a, i)) && IsFrame(f) && !IsTable(mem, root, f)
  }

  // Zeroing a page that is no table changes nothing.
  lemma ZeroedKeeps(mem: Memory, root: Frame, f: Frame)
    requires Shaped(mem, root) && !IsTable(mem, root, f)
    ensures Shaped(mem[f := map[]], root)
    ensures forall p: Path :: |p| <= 3 ==> TableAt(mem[f := map[]], root, p) == TableAt(mem, root, p)
    ensures SameWalks(mem, mem[f := map[]], root)
    ensures forall b :: IsTable(mem[f := map[]], root, b) <==> IsTable(mem, root, b)
  {
    hide Shaped, WalkFrom, TableAt, IsTable;
    var mem' := mem[f := map[]];
    forall b | IsTable(mem, root, b) && b in mem ensures b in mem' && mem'[b] == mem[b] {
      assert b != f;
    }
    FrameShaped(mem, mem', root);
  }

  // Where paths lead afterwards.
  lemma LinkedTables(mem: Memory, root: Frame, p: Path, a: Frame, i: Index, f: Frame, q: Path)
    requires Linkable(mem, root, p, a, i, f) && |q| <= 3
    ensures var mem' := Linked(mem, a, i, f);
            && (!(p + [i] <= q) ==> TableAt(mem', root, q) == TableAt(mem, root, q))
            && (p + [i] <= q ==> TableAt(mem, root, q).None?)
            && (p + [i] <= q ==> TableAt(mem', root, q) == if q == p + [i] then Some(f) else None)
  {
    hide Shaped, IsTable, ParentEntry, TableFrame, Narrow, Present, Large;
    var mem1 := mem[f := map[]];
    var mem' := Linked(mem, a, i, f);
    ZeroedKeeps(mem, root, f);
    NotATable(mem, root, p, a, f);
    assert f in mem' && mem'[f] == map[];
    if !(p + [i] <= q) {
      StoreTableFrom(mem1, root, p, a, i, ParentEntry(f), [], root, q);
    } else {
      var r := q[|p| + 1..];
      assert q == (p + [i]) + r;
      TableAtSnoc(mem, root, p, i);
      TableAtAppend(mem, root, p + [i], r);
      assert !(p + [i] <= p);
      StoreTableFrom(mem1, root, p, a, i, ParentEntry(f), [], root, p);
      TableAtSnoc(mem', root, p, i);
      ParentFields(f);
      TableAtAppend(mem', root, p + [i], r);
      EmptyTable(mem', f, r);
    }
  }

  lemma NotATable(mem: Memory, root: Frame, p: Path, a: Frame, f: Frame)
    requires |p| <= 3 && TableAt(mem, root, p) == Some(a) && !IsTable(mem, root, f)
    ensures a != f
  {
  }

  lemma EmptyTable(mem: Memory, f: Frame, r: Path)
    requires f in mem && mem[f] == map[]
    ensures TableAt(mem, f, r) == if r == [] then Some(f) else None
    ensures 1 <= |r| <= 4 ==> WalkFrom(mem, f, r) == NotPresent
  {
    assert r != [] ==> EntryAt(mem, f, r[0]) == 0;
  }

  // The entries of an old table afterwards.
  lemma LinkedEntries(mem: Memory, root: Frame, p: Path, a: Frame, i: Index, f: Frame, b: Frame, j: Index)
    requires Linkable(mem, root, p, a, i, f)
    ensures EntryAt(Linked(mem, a, i, f), f, j) == 0 && f in Linked(mem, a, i, f)
    ensures b != f ==> EntryAt(Linked(mem, a, i, f), b, j) ==
                       if b == a && j == i then ParentEntry(f) else EntryAt(mem, b, j)
    ensures b != f && b in mem ==> b in Linked(mem, a, i, f)
  {
    hide Shaped, IsTable, Present, IsFrame, ParentEntry;
    NotATable(mem, root, p, a, f);
    StoredEntry(mem[f := map[]], a, i, ParentEntry(f), b, j);
    StoredEntry(mem[f := map[]], a, i, ParentEntry(f), f, j);
  }

  lemma LinkedShaped(mem: Memory, root: Frame, p: Path, a: Frame, i: Index, f: Frame)
    requires Linkable(mem, root, p, a, i, f)
    ensures Shaped(Linked(mem, a, i, f), root)
    ensures TableAt(Linked(mem, a, i, f), root, p + [i]) == Some(f)
    ensures forall b :: IsTable(Linked(mem, a, i, f), root, b) <==> IsTable(mem, root, b) || b == f
  {
    hide Linked, TableAt, Descends, Narrow, IsFrame, ParentEntry, Present;
    var mem' := Linked(mem, a, i, f);
    forall q: Path | |q| <= 3
      ensures TableAt(mem', root, q) == if q == p + [i] then Some(f) else TableAt(mem, root, q)
      ensures q == p + [i] ==> TableAt(mem, root, q).None?
    {
      LinkedTables(mem, root, p, a, i, f, q);
    }
    forall b | IsTable(mem, root, b) || b == f ensures IsTable(mem', root, b) {
      if b == f {
        assert TableAt(mem', root, p + [i]) == Some(f);
      } else {
        var q: Path :| |q| <= 3 && TableAt(mem, root, q) == Some(b);
        assert TableAt(mem', root, q) == Some(b);
      }
    }
    forall q: Path | |q| <= 3 && TableAt(mem', root, q).Some? ensures TableAt(mem', root, q).value in mem' {
      LinkedEntries(mem, root, p, a, i, f, TableAt(mem', root, q).value, i);
    }
    forall q: Path, j: Index | |q| <= 2 && TableAt(mem', root, q).Some?
      ensures NarrowIfTable(EntryAt(mem', TableAt(mem', root, q).value, j))
    {
      var b := TableAt(mem', root, q).value;
      LinkedEntries(mem, root, p, a, i, f, b, j);
      NarrowNew(f);
      assert q != p + [i] ==> IsTable(mem, root, b);
    }
    assert forall q: Path :: |q| <= 3 ==> TableAt(mem, root, q) != Some(f);
    forall q: Path, r: Path |
      |q| <= 3 && |r| <= 3 && TableAt(mem', root, q).Some? && TableAt(mem', root, q) == TableAt(mem', root, r)
      ensures q == r
    {
    }
  }

  lemma NarrowNew(f: Frame)
    requires IsFrame(f)
    ensures NarrowIfTable(ParentEntry(f)) && NarrowIfTable(0)
  {
    hide ParentEntry;
    ParentFields(f);
  }

  // An empty table changes no translation: what was absent stays absent, one level further down.
  lemma LinkedWalks(mem: Memory, root: Frame, p: Path, a: Frame, i: Index, f: Frame)
    requires Linkable(mem, root, p, a, i, f)
    ensures SameWalks(mem, Linked(mem, a, i, f), root)
  {
    hide Shaped, IsTable, ParentEntry, TableAt, WalkFrom, Linked, Present;
    var mem' := Linked(mem, a, i, f);
    forall idx: Path | |idx| == 4 ensures WalkFrom(mem', root, idx) == WalkFrom(mem, root, idx) {
      if p + [i] <= idx {
        LinkedWalkInside(mem, root, p, a, i, f, idx);
      } else {
        LinkedWalkOutside(mem, root, p, a, i, f, idx);
      }
    }
  }

  lemma LinkedWalkOutside(mem: Memory, root: Frame, p: Path, a: Frame, i: Index, f: Frame, idx: Path)
    requires Linkable(mem, root, p, a, i, f) && |idx| == 4 && !(p + [i] <= idx)
    ensures WalkFrom(Linked(mem, a, i, f), root, idx) == WalkFrom(mem, root, idx)
  {
    hide Shaped, IsTable, ParentEntry, WalkFrom, Store;
    ZeroedKeeps(mem, root, f);
    StoreWalkFrom(mem[f := map[]], root, p, a, i, ParentEntry(f), [], root, idx);
  }

  lemma LinkedWalkInside(mem: Memory, root: Frame, p: Path, a: Frame, i: Index, f: Frame, idx: Path)
    requires Linkable(mem, root, p, a, i, f) && |idx| == 4 && p + [i] <= idx
    ensures WalkFrom(Linked(mem, a, i, f), root, idx) == WalkFrom(mem, root, idx) == NotPresent
  {
    hide Shaped, IsTable, ParentEntry, Linked, TableAt;
    var mem' := Linked(mem, a, i, f);
    var (s, r) := (idx[|p|..], idx[|p| + 1..]);
    assert idx == p + s && idx == (p + [i]) + r && s[0] == i;
    RootTable(mem, root);
    RootTable(mem', root);
    BackedTable(mem, root, p, a);
    WalkAlong(mem, root, [], root, p, a, s);
    LinkedShaped(mem, root, p, a, i, f);
    LinkedIsEmpty(mem, root, p, a, i, f);
    WalkAlong(mem', root, [], root, p + [i], f, r);
    EmptyTable(mem', f, r);
  }

  lemma LinkedIsEmpty(mem: Memory, root: Frame, p: Path, a: Frame, i: Index, f: Frame)
    requires Linkable(mem, root, p, a, i, f)
    ensures f in Linked(mem, a, i, f) && Linked(mem, a, i, f)[f] == map[]
  {
    hide Shaped, IsTable;
    NotATable(mem, root, p, a, f);
  }

  lemma RootTable(mem: Memory, root: Frame)
    ensures TableAt(mem, root, []) == Some(root)
  {
  }

  lemma BackedTable(mem: Memory, root: Frame, p: Path, a: Frame)
    requires Shaped(mem, root) && |p| <= 3 && TableAt(mem, root, p) == Some(a)
    ensures a in mem && IsTable(mem, root, a)
  {
  }

  // ---------- one step down ----------

  // A walk that meets no large page can be followed table by table.
  lemma SmallStep(mem: Memory, root: Frame, p: Path, a: Frame, idx: Path)
    requires Shaped(mem, root) && |idx| == 4 && |p| <= 2 && p <= idx && TableAt(mem, root, p) == Some(a)
    requires WalkFrom(mem, root, idx).Small()
    ensures var e := EntryAt(mem, a, idx[|p|]);
            && NarrowIfTable(e) && (Present(e) ==> Descends(e) && TableAt(mem, root, p + [idx[|p|]]) == Some(TableFrame(e)))
  {
    hide Shaped, TableAt, LeafAt, TableFrame, FlagsOf, Present, Large, NarrowIfTable;
    var s := idx[|p|..];
    assert idx == p + s;
    RootTable(mem, root);
    BackedTable(mem, root, p, a);
    NarrowEntry(mem, root, p, a, s[0]);
    WalkAlong(mem, root, [], root, p, a, s);
    TableAtSnoc(mem, root, p, s[0]);
    LargeIsNotSmall(mem, a, s);
  }

  lemma LargeIsNotSmall(mem: Memory, a: Frame, s: Path)
    requires 2 <= |s| <= 4 && a in mem
    ensures Present(EntryAt(mem, a, s[0])) && Large(EntryAt(mem, a, s[0])) ==> !WalkFrom(mem, a, s).Small()
  {
    hide Present, Large;
  }

  lemma NarrowEntry(mem: Memory, root: Frame, p: Path, a: Frame, i: Index)
    requires Shaped(mem, root) && |p| <= 2 && TableAt(mem, root, p) == Some(a)
    ensures NarrowIfTable(EntryAt(mem, a, i))
  {
  }

  // What one step down keeps.
  ghost predicate Kept(st: State, st': State, root: Frame) {
    && Good(st', root) && SameWalks(st.mem, st'.mem, root) && Confined(st, st', root)
  }

  lemma DescendKeeps(st: State, root: Frame, p: Path, a: Frame, idx: Path)
    requires Good(st, root) && |idx| == 4 && |p| <= 2 && p <= idx && TableAt(st.mem, root, p) == Some(a)
    requires WalkFrom(st.mem, root, idx).Small()
    requires Descend(st, a, idx[|p|]).Some?
    ensures var (st', t) := Descend(st, a, idx[|p|]).value;
            Kept(st, st', root) && TableAt(st'.mem, root, p + [idx[|p|]]) == Some(t)
  {
    hide Shaped, TableAt, WalkFrom, IsTable, Present, AddressOf, ParentEntry, IsFrame, TableFrame, Large, Narrow;
    var i := idx[|p|];
    var e := EntryAt(st.mem, a, i);
    SmallStep(st.mem, root, p, a, idx);
    if Present(e) {
      NarrowAddress(e);
      assert st.free == st.free[0..];
    } else {
      var f := st.free[0];
      LinkedShaped(st.mem, root, p, a, i, f);
      LinkedWalks(st.mem, root, p, a, i, f);
      ParentFields(f);
      BackedTable(st.mem, root, p, a);
      LinkConfined(st, root, a, i);
    }
  }

  lemma LinkConfined(st: State, root: Frame, a: Frame, i: Index)
    requires Good(st, root) && st.free != [] && IsTable(st.mem, root, a)
    requires var mem' := Linked(st.mem, a, i, st.free[0]);
             && Shaped(mem', root)
             && forall b :: IsTable(mem', root, b) <==> IsTable(st.mem, root, b) || b == st.free[0]
    ensures var st' := State(Linked(st.mem, a, i, st.free[0]), st.free[1..]);
            Confined(st, st', root) && Good(st', root)
  {
    hide Shaped, IsTable, IsFrame, ParentEntry, Store, NoDup;
    var st' := State(Linked(st.mem, a, i, st.free[0]), st.free[1..]);
    TailOf(st.free);
    forall b | b in st.mem && b != a && b != st.free[0] ensures b in st'.mem && st'.mem[b] == st.mem[b] {
      StoredElsewhere(st.mem[st.free[0] := map[]], a, i, ParentEntry(st.free[0]), b);
    }
    forall f | f in st'.free ensures IsFrame(f) && !IsTable(st'.mem, root, f) {
      assert f in st.free && f != st.free[0];
    }
  }

  lemma TailOf<T>(s: seq<T>)
    requires s != [] && NoDup(s)
    ensures NoDup(s[1..]) && s[0] !in s[1..] && Remains(s, s[1..]) && s[0] in s && forall x :: x in s[1..] ==> x in s
  {
  }

  // Steps compose.
  lemma KeptTwice(st: State, st1: State, st2: State, root: Frame)
    requires Kept(st, st1, root) && Kept(st1, st2, root)
    ensures Kept(st, st2, root)
  {
    hide Shaped, IsTable, WalkFrom, Good;
    ConfinedTwice(st, st1, st2, root);
  }

  lemma ConfinedTwice(st: State, st1: State, st2: State, root: Frame)
    requires Confined(st, st1, root) && Confined(st1, st2, root)
    ensures Confined(st, st2, root)
  {
    hide IsTable, Remains;
    RemainsTwice(st.free, st1.free, st2.free);
  }

  // The three steps together: the table for the last index, and not one translation changed.
  lemma EntryTableKeeps(st: State, root: Frame, idx: Path)
    requires Good(st, root) && |idx| == 4 && WalkFrom(st.mem, root, idx).Small()
    requires EntryTable(st, root, idx).Some?
    ensures var (st', pt) := EntryTable(st, root, idx).value;
            Kept(st, st', root) && TableAt(st'.mem, root, idx[..3]) == Some(pt)
  {
    hide Shaped, TableAt, WalkFrom, IsTable, Descend, Confined, Good;
    RootTable(st.mem, root);
    assert [] + [idx[0]] == [idx[0]] && [idx[0]] + [idx[1]] == idx[..2] && idx[..2] + [idx[2]] == idx[..3];
    var (st1, pdpt) := Descend(st, root, idx[0]).value;
    DescendKeeps(st, root, [], root, idx);
    var (st2, pd) := Descend(st1, pdpt, idx[1]).value;
    DescendKeeps(st1, root, [idx[0]], pdpt, idx);
    DescendKeeps(st2, root, idx[..2], pd, idx);
    var (st3, pt) := Descend(st2, pd, idx[2]).value;
    KeptTwice(st, st1, st2, root);
    KeptTwice(st, st2, st3, root);
  }

  // ---------- the leaf ----------

  lemma LeafStore(mem: Memory, root: Frame, idx: Path, pt: Frame, e: Entry)
    requires Shaped(mem, root) && |idx| == 4 && TableAt(mem, root, idx[..3]) == Some(pt)
    ensures var mem' := Store(mem, pt, idx[3], e);
            && Shaped(mem', root)
            && (forall b :: IsTable(mem', root, b) <==> IsTable(mem, root, b))
            && (forall other: Path :: |other| == 4 && other != idx ==> WalkFrom(mem', root, other) == WalkFrom(mem, root, other))
            && TableAt(mem', root, idx[..3]) == Some(pt)
            && WalkFrom(mem', root, idx) ==
               Behind(PathFlags(mem', root, idx[..3]), if Present(e) then LeafAt(e, 1) else NotPresent)
  {
    hide TableAt, WalkFrom, Store, NarrowIfTable, Present, LeafAt, EntryAt, PathFlags;
    var mem' := Store(mem, pt, idx[3], e);
    assert idx == idx[..3] + [idx[3]];
    RootTable(mem, root);
    RootTable(mem', root);
    forall q: Path | |q| <= 3 ensures TableAt(mem', root, q) == TableAt(mem, root, q) {
      StoreTableFrom(mem, root, idx[..3], pt, idx[3], e, [], root, q);
    }
    forall other: Path | |other| == 4 && other != idx ensures WalkFrom(mem', root, other) == WalkFrom(mem, root, other) {
      StoreWalkFrom(mem, root, idx[..3], pt, idx[3], e, [], root, other);
    }
    forall q: Path, j: Index | |q| <= 2 && TableAt(mem, root, q).Some?
      ensures NarrowIfTable(EntryAt(mem', TableAt(mem, root, q).value, j))
    {
      assert TableAt(mem, root, q).value != pt;
      StoredEntry(mem, pt, idx[3], e, TableAt(mem, root, q).value, j);
    }
    forall q: Path | |q| <= 3 && TableAt(mem, root, q).Some? ensures TableAt(mem, root, q).value in mem' {
      StoredEntry(mem, pt, idx[3], e, TableAt(mem, root, q).value, idx[3]);
    }
    WalkAlong(mem', root, [], root, idx[..3], pt, [idx[3]]);
    LastStep(mem', pt, idx[3]);
    StoredEntry(mem, pt, idx[3], e, pt, idx[3]);
  }

  lemma LastStep(mem: Memory, pt: Frame, i: Index)
    ensures WalkFrom(mem, pt, [i]) ==
            if pt !in mem then Unbacked else if Present(EntryAt(mem, pt, i)) then LeafAt(EntryAt(mem, pt, i), 1) else NotPresent
  {
    hide Present, LeafAt;
  }

  // The state after the leaf of a prepared path has been stored.
  lemma LeafKeeps(st: State, st1: State, root: Frame, idx: Path, pt: Frame, e: Entry)
    requires Kept(st, st1, root) && |idx| == 4 && TableAt(st1.mem, root, idx[..3]) == Some(pt)
    ensures var st' := State(Store(st1.mem, pt, idx[3], e), st1.free);
            && Good(st', root) && Confined(st, st', root) && TableAt(st'.mem, root, idx[..3]) == Some(pt)
            && OnlyChanged(st.mem, st'.mem, root, idx)
            && WalkFrom(st'.mem, root, idx) ==
               Behind(PathFlags(st'.mem, root, idx[..3]), if Present(e) then LeafAt(e, 1) else NotPresent)
  {
    hide Shaped, TableAt, WalkFrom, IsTable, Present, LeafAt, PathFlags, Store, NoDup, Remains, IsFrame;
    LeafStore(st1.mem, root, idx, pt, e);
    BackedTable(st1.mem, root, idx[..3], pt);
    var st' := State(Store(st1.mem, pt, idx[3], e), st1.free);
    forall b | b in st1.mem && b != pt ensures b in st'.mem && st'.mem[b] == st1.mem[b] {
      StoredElsewhere(st1.mem, pt, idx[3], e, b);
    }
  }

  lemma StoredElsewhere(mem: Memory, table: Frame, i: Index, e: Entry, b: Frame)
    requires b in mem && b != table
    ensures b in Store(mem, table, i, e) && Store(mem, table, i, e)[b] == mem[b]
  {
  }

  // Every other page translates as before.
  ghost predicate OnlyChanged(mem: Memory, mem': Memory, root: Frame, idx: Path) {
    forall other: Path :: |other| == 4 && other != idx ==> WalkFrom(mem', root, other) == WalkFrom(mem, root, other)
  }

  // ---------- the main theorems ----------

  // A 4 KiB page with the requested rights, and the requested frame if that fits the address mask.
  predicate Leads(t: Translation, physical: Frame, flags: bv64) {
    t.Mapped? && t.levels == 1 && t.flags == LeafFlags(flags) && (Frame(t.frame) == physical <==> IsFrame(physical))
  }

  lemma LeafLeads(path: seq<Entry>, physical: Frame, flags: bv64)
    ensures Present(LeafEntry(physical, flags))
    ensures Leads(Behind(path, LeafAt(LeafEntry(physical, flags), 1)), physical, flags)
  {
    hide LeafEntry, LeafFlags, IsFrame;
    LeafFields(physical, flags);
  }

  // Mapping is a point update of the translation: the page gets the requested frame and leaf
  // rights, every other page translates as before, and the tables stay a tree apart from the free
  // pages, although up to three tables may have been created.
  lemma MapCorrect(st: State, root: Frame, physical: Frame, va: Address, flags: bv64)
    requires Good(st, root) && Walk(st.mem, root, va).Small()
    requires Map(st, root, physical, va, flags).Some?
    ensures var st' := Map(st, root, physical, va, flags).value;
            && Leads(Walk(st'.mem, root, va), physical, flags)
            && OnlyChanged(st.mem, st'.mem, root, Indices(va))
            && Good(st', root) && Confined(st, st', root)
  {
    hide Shaped, TableAt, WalkFrom, IsTable, Descend, Confined, Good, LeafEntry, Present, PathFlags, EntryTable, Indices, Store, Leads, LeafAt, Behind;
    var idx := Indices(va);
    EntryTableKeeps(st, root, idx);
    var (st1, pt) := EntryTable(st, root, idx).value;
    LeafKeeps(st, st1, root, idx, pt, LeafEntry(physical, flags));
    LeafLeads(PathFlags(Store(st1.mem, pt, idx[3], LeafEntry(physical, flags)), root, idx[..3]), physical, flags);
  }

  // Unmapping makes one page absent and changes no other.
  lemma UnmapCorrect(st: State, root: Frame, va: Address)
    requires Good(st, root) && Walk(st.mem, root, va).Small()
    requires Unmap(st, root, va).Some?
    ensures var st' := Unmap(st, root, va).value;
            && Walk(st'.mem, root, va) == NotPresent
            && OnlyChanged(st.mem, st'.mem, root, Indices(va))
            && Good(st', root) && Confined(st, st', root)
  {
    hide Shaped, TableAt, WalkFrom, IsTable, Descend, Confined, Good, PathFlags, EntryTable, Indices, Store;
    var idx := Indices(va);
    EntryTableKeeps(st, root, idx);
    var (st1, pt) := EntryTable(st, root, idx).value;
    LeafKeeps(st, st1, root, idx, pt, 0);
  }

  // In terms of virtual addresses: no other canonical page is affected.
  lemma OtherPages(mem: Memory, mem': Memory, root: Frame, va: Address, other: Address)
    requires OnlyChanged(mem, mem', root, Indices(va))
    requires PageAligned(va) && Canonical(va) && PageAligned(other) && Canonical(other) && other != va
    ensures Walk(mem', root, other) == Walk(mem, root, other)
  {
    hide Canonical, PageAligned, Indices, WalkFrom;
    IndicesInjective(va, other);
  }

  // Along existing tables nothing is created.
  lemma ExistingStep(st: State, root: Frame, p: Path, a: Frame, i: Index, t: Frame)
    requires Shaped(st.mem, root) && |p| <= 2 && TableAt(st.mem, root, p) == Some(a)
    requires TableAt(st.mem, root, p + [i]) == Some(t)
    ensures Descend(st, a, i) == Some((st, t))
  {
    hide Shaped, TableAt, Large, AddressOf, TableFrame, Narrow, Present;
    TableAtSnoc(st.mem, root, p, i);
    NarrowEntry(st.mem, root, p, a, i);
    NarrowAddress(EntryAt(st.mem, a, i));
  }

  lemma ExistingTables(st: State, root: Frame, idx: Path, pt: Frame)
    requires Shaped(st.mem, root) && |idx| == 4 && TableAt(st.mem, root, idx[..3]) == Some(pt)
    ensures EntryTable(st, root, idx) == Some((st, pt))
  {
    hide Shaped, TableAt, Descend;
    RootTable(st.mem, root);
    assert idx[..1] == [] + [idx[0]] && idx[..2] == idx[..1] + [idx[1]] && idx[..3] == idx[..2] + [idx[2]];
    TableAtSnoc(st.mem, root, idx[..2], idx[2]);
    TableAtSnoc(st.mem, root, idx[..1], idx[1]);
    ExistingStep(st, root, [], root, idx[0], TableAt(st.mem, root, idx[..1]).value);
    ExistingStep(st, root, idx[..1], TableAt(st.mem, root, idx[..1]).value, idx[1], TableAt(st.mem, root, idx[..2]).value);
    ExistingStep(st, root, idx[..2], TableAt(st.mem, root, idx[..2]).value, idx[2], pt);
  }

  // Mapping an absent page and unmapping it again restores the whole translation; the unmapping
  // cannot run out of pages.
  lemma MapThenUnmap(st: State, root: Frame, physical: Frame, va: Address, flags: bv64)
    requires Good(st, root) && Walk(st.mem, root, va) == NotPresent
    requires Map(st, root, physical, va, flags).Some?
    ensures var st1 := Map(st, root, physical, va, flags).value;
            && Unmap(st1, root, va).Some?
            && Unmap(st1, root, va).value.free == st1.free
            && SameWalks(st.mem, Unmap(st1, root, va).value.mem, root)
  {
    hide Shaped, TableAt, WalkFrom, IsTable, Confined, LeafEntry, PathFlags, IsFrame, EntryTable, Indices, Store, LeafAt, NoDup;
    var idx := Indices(va);
    EntryTableKeeps(st, root, idx);
    var (st0, pt) := EntryTable(st, root, idx).value;
    LeafKeeps(st, st0, root, idx, pt, LeafEntry(physical, flags));
    var st1 := Map(st, root, physical, va, flags).value;
    MapCorrect(st, root, physical, va, flags);
    ExistingTables(st1, root, idx, pt);
    UnmapCorrect(st1, root, va);
  }

  // ---------- large pages ----------

  // The kernel does not look for large pages on the way down.  Below a 2 MiB page, it takes the
  // page itself for a table: a word of the page is overwritten, and if the page does not begin with a
  // table of the root, all translations stay as they were.
  lemma MapUnderLargePage(st: State, root: Frame, physical: Frame, va: Address, flags: bv64, pd: Frame)
    requires Good(st, root) && TableAt(st.mem, root, Indices(va)[..2]) == Some(pd)
    requires var e := EntryAt(st.mem, pd, Indices(va)[2]);
             Present(e) && Large(e)
    ensures var page := AddressOf(EntryAt(st.mem, pd, Indices(va)[2]));
            var r := Map(st, root, physical, va, flags);
            && r.Some?
            && EntryAt(r.value.mem, page, Indices(va)[3]) == LeafEntry(physical, flags)
            && Walk(st.mem, root, va).Mapped? && Walk(st.mem, root, va).levels == 2
            && (!IsTable(st.mem, root, page) ==> SameWalks(st.mem, r.value.mem, root))
  {
    hide Shaped, TableAt, IsTable, Present, Large, LeafEntry, AddressOf, TableFrame, FlagsOf, NoDup, IsFrame, EntryTable, Indices, WalkFrom, Store, EntryAt;
    var idx := Indices(va);
    var page := AddressOf(EntryAt(st.mem, pd, idx[2]));
    LargeDescent(st, root, idx, pd);
    StoredEntry(st.mem, page, idx[3], LeafEntry(physical, flags), page, idx[3]);
    if !IsTable(st.mem, root, page) {
      StoreAside(st.mem, root, page, idx[3], LeafEntry(physical, flags));
    }
    LargeWalk(st.mem, root, idx, pd);
  }

  lemma LargeDescent(st: State, root: Frame, idx: Path, pd: Frame)
    requires Shaped(st.mem, root) && |idx| == 4 && TableAt(st.mem, root, idx[..2]) == Some(pd) && Present(EntryAt(st.mem, pd, idx[2]))
    ensures EntryTable(st, root, idx) == Some((st, AddressOf(EntryAt(st.mem, pd, idx[2]))))
  {
    hide Shaped, TableAt, Present, Large, AddressOf, TableFrame, Narrow;
    RootTable(st.mem, root);
    assert idx[..1] == [] + [idx[0]] && idx[..2] == idx[..1] + [idx[1]];
    TableAtSnoc(st.mem, root, idx[..1], idx[1]);
    ExistingStep(st, root, [], root, idx[0], TableAt(st.mem, root, idx[..1]).value);
    ExistingStep(st, root, idx[..1], TableAt(st.mem, root, idx[..1]).value, idx[1], pd);
  }

  // A store to a page that is no table changes no translation.
  lemma StoreAside(mem: Memory, root: Frame, page: Frame, i: Index, e: Entry)
    requires Shaped(mem, root) && !IsTable(mem, root, page)
    ensures SameWalks(mem, Store(mem, page, i, e), root)
  {
    hide Shaped, IsTable, WalkFrom, Store;
    forall b | IsTable(mem, root, b) && b in mem ensures b in Store(mem, page, i, e) && Store(mem, page, i, e)[b] == mem[b] {
      StoredElsewhere(mem, page, i, e, b);
    }
    FrameShaped(mem, Store(mem, page, i, e), root);
  }

  lemma LargeWalk(mem: Memory, root: Frame, idx: Path, pd: Frame)
    requires Shaped(mem, root) && |idx| == 4 && TableAt(mem, root, idx[..2]) == Some(pd)
    requires Present(EntryAt(mem, pd, idx[2])) && Large(EntryAt(mem, pd, idx[2]))
    ensures WalkFrom(mem, root, idx).Mapped? && WalkFrom(mem, root, idx).levels == 2
  {
    hide Shaped, TableAt, Present, Large, TableFrame, FlagsOf, FrameMask;
    RootTable(mem, root);
    BackedTable(mem, root, idx[..2], pd);
    assert idx == idx[..2] + idx[2..];
    WalkAlong(mem, root, [], root, idx[..2], pd, idx[2..]);
  }

  // ---------- pages used ----------

  // How many tables are missing on a path.
  function MissingTables(mem: Memory, root: Frame, idx: Path): nat
    requires |idx| == 4
  {
    if TableAt(mem, root, idx[..1]).None? then 3
    else if TableAt(mem, root, idx[..2]).None? then 2
    else if TableAt(mem, root, idx[..3]).None? then 1
    else 0
  }

  // One step down takes one page exactly when the table is missing, and then nothing is below it.
  lemma StepCount(st: State, root: Frame, p: Path, a: Frame, idx: Path, j: Index)
    requires Good(st, root) && |idx| == 4 && |p| <= 2 && p <= idx && TableAt(st.mem, root, p) == Some(a)
    requires WalkFrom(st.mem, root, idx).Small()
    ensures var (i, d) := (idx[|p|], Descend(st, a, idx[|p|]));
            && (TableAt(st.mem, root, p + [i]).Some? ==> d == Some((st, TableAt(st.mem, root, p + [i]).value)))
            && (TableAt(st.mem, root, p + [i]).None? ==>
                  && (d.None? <==> st.free == [])
                  && (d.Some? ==> |d.value.0.free| == |st.free| - 1 &&
                                  (|p| <= 1 ==> TableAt(d.value.0.mem, root, p + [i] + [j]).None?)))
  {
    hide Shaped, TableAt, WalkFrom, IsTable, Present, AddressOf, ParentEntry, IsFrame, TableFrame, Large, Narrow, NoDup;
    var i := idx[|p|];
    SmallStep(st.mem, root, p, a, idx);
    TableAtSnoc(st.mem, root, p, i);
    if TableAt(st.mem, root, p + [i]).Some? {
      ExistingStep(st, root, p, a, i, TableAt(st.mem, root, p + [i]).value);
    } else if st.free != [] && |p| <= 1 {
      assert st.free[0] in st.free;
      assert p + [i] <= p + [i] + [j];
      LinkedTables(st.mem, root, p, a, i, st.free[0], p + [i] + [j]);
    }
  }

  // Finding the lowest table takes exactly as many pages as tables are missing, and panics exactly
  // when there are fewer.
  lemma EntryTableCount(st: State, root: Frame, idx: Path)
    requires Good(st, root) && |idx| == 4 && WalkFrom(st.mem, root, idx).Small()
    ensures EntryTable(st, root, idx).None? <==> |st.free| < MissingTables(st.mem, root, idx)
    ensures EntryTable(st, root, idx).Some? ==>
              |EntryTable(st, root, idx).value.0.free| == |st.free| - MissingTables(st.mem, root, idx)
  {
    hide Shaped, TableAt, WalkFrom, IsTable, Descend, Confined, Good;
    RootTable(st.mem, root);
    assert idx[..1] == [] + [idx[0]] && idx[..2] == idx[..1] + [idx[1]] && idx[..3] == idx[..2] + [idx[2]];
    TableAtSnoc(st.mem, root, idx[..1], idx[1]);
    TableAtSnoc(st.mem, root, idx[..2], idx[2]);
    StepCount(st, root, [], root, idx, idx[1]);
    var d1 := Descend(st, root, idx[0]);
    if d1.Some? {
      DescendKeeps(st, root, [], root, idx);
      var (st1, pdpt) := d1.value;
      StepCount(st1, root, idx[..1], pdpt, idx, idx[2]);
      var d2 := Descend(st1, pdpt, idx[1]);
      if d2.Some? {
        DescendKeeps(st1, root, idx[..1], pdpt, idx);
        var (st2, pd) := d2.value;
        StepCount(st2, root, idx[..2], pd, idx, idx[3]);
      }
    }
  }

  // The same, for the two operations.
  lemma PagesUsed(st: State, root: Frame, physical: Frame, va: Address, flags: bv64)
    requires Good(st, root) && Walk(st.mem, root, va).Small()
    ensures var n := MissingTables(st.mem, root, Indices(va));
            && (Map(st, root, physical, va, flags).None? <==> |st.free| < n)
            && (Map(st, root, physical, va, flags).Some? ==> |Map(st, root, physical, va, flags).value.free| == |st.free| - n)
            && (Unmap(st, root, va).None? <==> |st.free| < n)
            && (Unmap(st, root, va).Some? ==> |Unmap(st, root, va).value.free| == |st.free| - n)
  {
    hide MissingTables, EntryTable, Good, WalkFrom, Indices, LeafEntry, Store;
    EntryTableCount(st, root, Indices(va));
  }

  // In numbers: mapping and unmapping panic exactly when one, two or three tables are missing and there
  // are fewer free pages.
  lemma PanicsExactly(st: State, root: Frame, physical: Frame, va: Address, flags: bv64)
    requires Good(st, root) && Walk(st.mem, root, va).Small()
    ensures var (idx, r, u) := (Indices(va), Map(st, root, physical, va, flags), Unmap(st, root, va));
            && (r.None? <==> u.None?)
            && (TableAt(st.mem, root, idx[..3]).Some? ==> r.Some?)
            && (TableAt(st.mem, root, idx[..2]).Some? && TableAt(st.mem, root, idx[..3]).None? ==> (r.None? <==> st.free == []))
            && (TableAt(st.mem, root, idx[..1]).Some? && TableAt(st.mem, root, idx[..2]).None? ==> (r.None? <==> |st.free| < 2))
            && (TableAt(st.mem, root, idx[..1]).None? ==> (r.None? <==> |st.free| < 3))
  {
    hide Map, Unmap, Good, WalkFrom, Indices, TableAt;
    PagesUsed(st, root, physical, va, flags);
    PrefixTables(st.mem, root, Indices(va));
  }

  lemma PrefixTables(mem: Memory, root: Frame, idx: Path)
    requires |idx| == 4
    ensures TableAt(mem, root, idx[..3]).Some? ==> TableAt(mem, root, idx[..2]).Some?
    ensures TableAt(mem, root, idx[..2]).Some? ==> TableAt(mem, root, idx[..1]).Some?
  {
    hide TableAt, Descends;
    assert idx[..3] == idx[..2] + [idx[2]] && idx[..2] == idx[..1] + [idx[1]];
    TableAtSnoc(mem, root, idx[..2], idx[2]);
    TableAtSnoc(mem, root, idx[..1], idx[1]);
  }

  // ---------- runs ----------

  datatype PageOp = MapPage(physical: Frame, va: Address, flags: bv64) | UnmapPage(va: Address)

  function Apply(st: State, root: Frame, op: PageOp): Option<State> {
    match op
    case MapPage(physical, va, flags) => Map(st, root, physical, va, flags)
    case UnmapPage(va) => Unmap(st, root, va)
  }

  function ApplyAll(st: State, root: Frame, ops: seq<PageOp>): Option<State>
    decreases |ops|
  {
    if ops == [] then Some(st)
    else
      var st' :- Apply(st, root, ops[0]);
      ApplyAll(st', root, ops[1..])
  }

  // Two roots share no table.
  ghost predicate Separate(mem: Memory, a: Frame, b: Frame) {
    forall t :: IsTable(mem, a, t) ==> !IsTable(mem, b, t)
  }

  ghost predicate AllSmall(mem: Memory, root: Frame, ops: seq<PageOp>) {
    forall i :: 0 <= i < |ops| ==> Walk(mem, root, ops[i].va).Small()
  }

  lemma ApplyCorrect(st: State, root: Frame, op: PageOp)
    requires Good(st, root) && Walk(st.mem, root, op.va).Small() && Apply(st, root, op).Some?
    ensures var st' := Apply(st, root, op).value;
            && Good(st', root) && Confined(st, st', root)
            && OnlyChanged(st.mem, st'.mem, root, Indices(op.va)) && Walk(st'.mem, root, op.va).Small()
  {
    hide Good, Confined, OnlyChanged, Walk, Map, Unmap;
    match op
    case MapPage(physical, va, flags) => MapCorrect(st, root, physical, va, flags);
    case UnmapPage(va) => UnmapCorrect(st, root, va);
  }

  // Work on one root does not touch the tables of a separate one.
  lemma ConfinedSpares(st: State, st': State, root: Frame, other: Frame)
    requires Good(st, root) && Good(st, other) && Separate(st.mem, other, root)
    requires Good(st', root) && Confined(st, st', root)
    ensures Good(st', other) && Separate(st'.mem, other, root) && SameWalks(st.mem, st'.mem, other)
    ensures forall b :: IsTable(st'.mem, other, b) <==> IsTable(st.mem, other, b)
  {
    hide Shaped, IsTable, WalkFrom, NoDup, IsFrame;
    forall b | IsTable(st.mem, other, b) && b in st.mem ensures b in st'.mem && st'.mem[b] == st.mem[b] {
      assert !IsTable(st.mem, root, b) && b !in st.free;
    }
    FrameShaped(st.mem, st'.mem, other);
    RemainsTwice(st.free, st'.free, st'.free);
  }
}
