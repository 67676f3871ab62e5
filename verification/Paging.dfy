/**
  The kernel's page-table code as it updates physical memory: finding or creating the tables for an
  address, mapping, unmapping, and cloning a whole tree of tables in place.

  A method that returns `ok == false` stands for the kernel's panic for want of a physical page.
  Physical pages are named by their address; the constant offset at which the kernel sees them is a
  bijection and does not appear.
 */
module Paging {
  import opened Options
  import opened Sequences
  import opened Amd64
  import opened PageTables
  import opened PageMap
  import opened PageClone
  import opened PageRuns

  // The pages taken when the free pages went from `a` to `b`.
  ghost function Taken(a: seq<Frame>, b: seq<Frame>): set<Frame> {
    if |b| <= |a| then Elements(a[..|a| - |b|]) else {}
  }

  lemma TakenNone(a: seq<Frame>)
    ensures Taken(a, a) == {} && Remains(a, a)
  {
  }

  lemma TakenOne(a: seq<Frame>)
    requires a != [] && NoDup(a)
    ensures Taken(a, a[1..]) == {a[0]} && Remains(a, a[1..]) && NoDup(a[1..]) && a[0] !in a[1..]
  {
    assert a[..1] == [a[0]];
  }

  lemma TakenSplit(a: seq<Frame>, b: seq<Frame>, c: seq<Frame>)
    requires Remains(a, b) && Remains(b, c) && NoDup(a)
    ensures Remains(a, c) && NoDup(b) && NoDup(c)
    ensures Taken(a, c) == Taken(a, b) + Taken(b, c) && Taken(a, b) !! Taken(b, c)
    ensures forall x :: x in c ==> x in b && x !in Taken(b, c) && x !in Taken(a, b)
    ensures forall x :: x in b ==> x in a && x !in Taken(a, b)
    ensures forall x :: x in Taken(a, c) ==> x in a
  {
    hide NoDup;
    var (x, y) := (a[..|a| - |b|], b[..|b| - |c|]);
    assert a == x + b && b == y + c && a == x + y + c;
    assert a[..|a| - |c|] == x + y;
    DistinctThirds(x, y, c);
  }

  lemma DistinctThirds(x: seq<Frame>, y: seq<Frame>, c: seq<Frame>)
    requires NoDup(x + y + c)
    ensures NoDup(y + c) && NoDup(c)
    ensures Elements(x + y) == Elements(x) + Elements(y) && Elements(x) !! Elements(y)
    ensures forall z :: z in c ==> z !in x && z !in y
    ensures forall z :: z in y ==> z !in x
  {
    var a := x + y + c;
    assert forall i :: 0 <= i < |x| ==> a[i] == x[i];
    assert forall i :: 0 <= i < |y| ==> a[|x| + i] == y[i];
    assert forall i :: 0 <= i < |c| ==> a[|x| + |y| + i] == c[i];
  }

  // Outside the pages in `area`, the memory is still the one the cloning started from.
  ghost predicate Intact(m0: Memory, m: Memory, area: set<Frame>) {
    forall b :: b in m0 && b !in area ==> b in m && m[b] == m0[b]
  }

  lemma ClonableBelow(m: Memory, s: Frame, n: nat, avoid: set<Frame>, i: Index)
    requires n > 1 && Clonable(m, s, n, avoid) && Copied(EntryAt(m, s, i), n)
    ensures Narrow(EntryAt(m, s, i)) && Clonable(m, TableFrame(EntryAt(m, s, i)), n - 1, avoid)
    ensures TableFrame(EntryAt(m, s, i)) in m && TableFrame(EntryAt(m, s, i)) !in avoid
  {
  }

  // Everything a cloning loop relies on: the table `c` is one of the pages of `area`, which hold
  // the clone and the free pages, while the source is intact outside them.
  ghost predicate Cloning(mem: Memory, free: seq<Frame>, c: Frame, n: nat, m0: Memory, s: Frame, area: set<Frame>) {
    && Clonable(m0, s, n, area) && Intact(m0, mem, area)
    && c in area && c in mem && c !in free
    && NoDup(free) && (forall f :: f in free ==> f in area && IsFrame(f))
  }

  // The pages written since `m1`, when the free pages were `free1`: the table `c` and those taken.
  ghost predicate Touched(m1: Memory, free1: seq<Frame>, mem: Memory, free: seq<Frame>, c: Frame) {
    && Remains(free1, free)
    && (forall b :: b in m1 && b != c && b !in Taken(free1, free) ==> b in mem && mem[b] == m1[b])
  }

  // One entry of `c` has been dealt with.
  ghost predicate Branched(m1: Memory, free1: seq<Frame>, mem: Memory, free: seq<Frame>, c: Frame, n: nat, x: Index,
                           m0: Memory, s: Frame, area: set<Frame>)
    requires n > 1
  {
    && Cloning(mem, free, c, n, m0, s, area) && Touched(m1, free1, mem, free, c)
    && (forall j: Index :: j != x ==> EntryAt(mem, c, j) == EntryAt(m1, c, j))
    && BranchOk(m0, EntryAt(m0, s, x), mem, EntryAt(mem, c, x), n, Taken(free1, free))
  }

  // The table `c` has become a deep copy.
  ghost predicate Cloned(m1: Memory, free1: seq<Frame>, mem: Memory, free: seq<Frame>, c: Frame, n: nat,
                         m0: Memory, s: Frame, area: set<Frame>) {
    && Cloning(mem, free, c, n, m0, s, area) && Touched(m1, free1, mem, free, c)
    && Same(m0, s, mem, c, n) && Within(mem, c, n, Taken(free1, free) + {c}) && Inj(mem, c, n)
  }

  lemma TouchedNone(mem: Memory, free: seq<Frame>, c: Frame)
    ensures Touched(mem, free, mem, free, c)
  {
    TakenNone(free);
  }

  // The entry that the loop looks at is still the source's.
  lemma RawEntry(mem: Memory, free: seq<Frame>, c: Frame, n: nat, m0: Memory, s: Frame, area: set<Frame>, i: bv64, own: set<Frame>)
    requires n > 1 && Cloning(mem, free, c, n, m0, s, area) && i < 512 && Progress(m0, s, mem, c, n, i, own)
    ensures var x := Index(i as bv9);
            EntryAt(mem, c, x) == EntryAt(m0, s, x)
  {
    hide Present, Large, EntryAt, BranchOk, Done, Intact, NoDup, Cross, TableFrame;
    DoneNext(Index(i as bv9), i);
  }

  // After the page behind an entry has been copied and the entry redirected.
  lemma EntryCopied(mem: Memory, free: seq<Frame>, c: Frame, n: nat, x: Index, m0: Memory, s: Frame, area: set<Frame>)
    requires 2 <= n <= 4 && Cloning(mem, free, c, n, m0, s, area) && free != []
    requires EntryAt(mem, c, x) == EntryAt(m0, s, x) && Copied(EntryAt(m0, s, x), n)
    ensures var (e, f) := (EntryAt(m0, s, x), free[0]);
            var page := AddressOf(e);
            var copied := mem[f := if page in mem then mem[page] else map[]];
            var mem' := Store(copied, c, x, UpdateAddress(EntryAt(copied, c, x), f));
            && page == TableFrame(e) && page in m0 && f in mem' && mem'[f] == m0[page] && f != c
            && EntryAt(mem', c, x) == UpdateAddress(e, f) && TableFrame(EntryAt(mem', c, x)) == f
            && Redirected(e, EntryAt(mem', c, x))
            && (forall j: Index :: j != x ==> EntryAt(mem', c, j) == EntryAt(mem, c, j))
            && Cloning(mem', free[1..], c, n, m0, s, area) && Cloning(mem', free[1..], f, n - 1, m0, page, area)
            && (forall b :: b in mem && b != c && b != f ==> b in mem' && mem'[b] == mem[b])
            && Taken(free, free[1..]) == {f} && Remains(free, free[1..]) && NoDup(free)
  {
    hide Copied, Same, UpdateAddress, IsFrame, Narrow, AddressOf, TableFrame, Taken, Remains, NoDup;
    var (e, f) := (EntryAt(m0, s, x), free[0]);
    ClonableBelow(m0, s, n, area, x);
    NarrowAddress(e);
    TakenOne(free);
    assert f in free;
    UpdateFields(e, f);
    var page := AddressOf(e);
    var copied := mem[f := if page in mem then mem[page] else map[]];
    var mem' := Store(copied, c, x, UpdateAddress(EntryAt(copied, c, x), f));
    assert EntryAt(copied, c, x) == e;
    forall j: Index ensures EntryAt(mem', c, j) == if j == x then UpdateAddress(e, f) else EntryAt(mem, c, j) {
      StoredEntry(copied, c, x, UpdateAddress(e, f), c, j);
    }
  }

  lemma LeafCopied(m0: Memory, page: Frame, mem: Memory, free: seq<Frame>, f: Frame)
    requires page in m0 && f in mem && mem[f] == m0[page]
    ensures Same(m0, page, mem, f, 1) && Within(mem, f, 1, Taken(free, free) + {f}) && Inj(mem, f, 1)
    ensures Touched(mem, free, mem, free, f)
  {
    TakenNone(free);
  }

  // After the copied page has become a deep copy.
  lemma BranchFinished(m1: Memory, free1: seq<Frame>, m2: Memory, free2: seq<Frame>, mem: Memory, free: seq<Frame>,
                       c: Frame, n: nat, x: Index, m0: Memory, s: Frame, area: set<Frame>)
    requires n > 1 && free1 != [] && free2 == free1[1..] && NoDup(free1)
    requires Cloning(m2, free2, c, n, m0, s, area)
    requires var (e, f) := (EntryAt(m0, s, x), free1[0]);
             && Copied(e, n) && f != c && f in area
             && Redirected(e, EntryAt(m2, c, x)) && TableFrame(EntryAt(m2, c, x)) == f
             && (forall j: Index :: j != x ==> EntryAt(m2, c, j) == EntryAt(m1, c, j))
             && (forall b :: b in m1 && b != c && b != f ==> b in m2 && m2[b] == m1[b])
             && Intact(m0, mem, area) && Touched(m2, free2, mem, free, f)
             && Same(m0, TableFrame(e), mem, f, n - 1) && Within(mem, f, n - 1, Taken(free2, free) + {f}) && Inj(mem, f, n - 1)
    ensures Branched(m1, free1, mem, free, c, n, x, m0, s, area)
  {
    hide Descends, Same, Within, Inj, Redirected, TableFrame, Remains, NoDup, IsFrame, Clonable, Intact, Taken;
    TakenOne(free1);
    TakenNone(free1);
    TakenSplit(free1, free2, free);
    TakenNone(free);
    TakenSplit(free2, free, free);
    assert c in mem && mem[c] == m2[c];
    assert Taken(free2, free) + {free1[0]} == Taken(free1, free);
    forall j: Index ensures EntryAt(mem, c, j) == EntryAt(m2, c, j) {
    }
  }

  // The new branch joins the finished ones.
  lemma BranchJoins(m1: Memory, free1: seq<Frame>, m2: Memory, free2: seq<Frame>, mem: Memory, free: seq<Frame>,
                    c: Frame, n: nat, i: bv64, m0: Memory, s: Frame, area: set<Frame>)
    requires n > 1 && i < 512 && Touched(m1, free1, m2, free2, c) && NoDup(free1) && c !in free1
    requires Progress(m0, s, m2, c, n, i, Taken(free1, free2))
    requires Branched(m2, free2, mem, free, c, n, Index(i as bv9), m0, s, area)
    ensures Touched(m1, free1, mem, free, c)
    ensures Progress(m0, s, mem, c, n, i + 1, Taken(free1, free))
  {
    hide Descends, Same, Within, Inj, Redirected, TableFrame, Remains, NoDup, Clonable, Intact, Taken, Progress, BranchOk, EntryAt;
    TakenSplit(free1, free2, free);
    ProgressBranch(m0, s, m2, mem, c, n, i, Taken(free1, free2), Taken(free2, free));
  }

  lemma FilledNone(m0: Memory, s: Frame, m: Memory, c: Frame, n: nat)
    requires n > 1
    ensures Filled(m0, s, m, c, n, 0, {})
  {
  }

  // The pages taken for a branch are its tables.
  lemma BranchFull(m1: Memory, free0: seq<Frame>, free1: seq<Frame>, mem: Memory, free: seq<Frame>, f: Frame, n: nat)
    requires 2 <= n <= 4 && free0 != [] && f == free0[0] && free1 == free0[1..] && NoDup(free0) && Touched(m1, free1, mem, free, f)
    requires if n > 2 then Full(mem, f, n - 1, Taken(free1, free)) else free == free1
    ensures forall b :: b in Taken(free0, free) ==> TableBelow(mem, f, n - 1, b)
  {
    hide NoDup, Remains, Taken, Full, TableBelow;
    TakenOne(free0);
    TakenNone(free1);
    TakenNone(free);
    TakenSplit(free0, free1, free);
    SelfBelow(mem, f, n - 1);
    if n > 2 {
      FullIsBelow(mem, f, n - 1, Taken(free1, free));
    }
  }

  // The entry still points to the copy.
  lemma BranchPointer(m1: Memory, free1: seq<Frame>, mem: Memory, free: seq<Frame>, c: Frame, n: nat, x: Index, f: Frame,
                      m0: Memory, s: Frame, area: set<Frame>)
    requires Cloning(m1, free1, c, n, m0, s, area) && Touched(m1, free1, mem, free, f) && c != f && TableFrame(EntryAt(m1, c, x)) == f
    ensures TableFrame(EntryAt(mem, c, x)) == f
  {
    hide TableFrame, Remains, Intact, Clonable, NoDup, IsFrame, Taken;
    TakenNone(free1);
    TakenNone(free);
    TakenSplit(free1, free, free);
    assert c in mem && mem[c] == m1[c];
  }

  lemma BranchFills(m1: Memory, free1: seq<Frame>, m2: Memory, free2: seq<Frame>, mem: Memory, free: seq<Frame>,
                    c: Frame, n: nat, i: bv64, m0: Memory, s: Frame, area: set<Frame>)
    requires n > 1 && i < 512 && Touched(m1, free1, m2, free2, c) && NoDup(free1) && c !in free1
    requires Progress(m0, s, m2, c, n, i, Taken(free1, free2)) && Filled(m0, s, m2, c, n, i, Taken(free1, free2))
    requires Copied(EntryAt(m0, s, Index(i as bv9)), n)
    requires Branched(m2, free2, mem, free, c, n, Index(i as bv9), m0, s, area)
    requires forall b :: b in Taken(free2, free) ==> TableBelow(mem, TableFrame(EntryAt(mem, c, Index(i as bv9))), n - 1, b)
    ensures Filled(m0, s, mem, c, n, i + 1, Taken(free1, free))
  {
    hide Copied, Same, Within, Inj, Redirected, TableFrame, Remains, NoDup, Clonable, Intact, Taken, Progress, BranchOk, EntryAt, TableBelow, Filled;
    TakenSplit(free1, free2, free);
    ProgressApart(m0, s, m2, c, n, i, Taken(free1, free2));
    FilledBranch(m0, s, m2, mem, c, n, i, Taken(free1, free2), Taken(free2, free));
  }

  lemma ProgressApart(m0: Memory, s: Frame, m: Memory, c: Frame, n: nat, i: bv64, own: set<Frame>)
    requires n > 1 && Progress(m0, s, m, c, n, i, own)
    ensures c !in own
  {
  }

  // After the top table has been copied.
  lemma RootCopied(mem: Memory, free: seq<Frame>, table: Frame)
    requires NoDup(free) && free != [] && (forall f :: f in free ==> IsFrame(f)) && Clonable(mem, table, 4, Elements(free))
    ensures var (f, mem') := (free[0], mem[free[0] := if table in mem then mem[table] else map[]]);
            && table in mem && f in mem' && mem'[f] == mem[table]
            && Cloning(mem', free[1..], f, 4, mem, table, Elements(free))
            && Intact(mem, mem', Elements(free))
            && Taken(free, free[1..]) == {f} && Remains(free, free[1..])
  {
    hide IsFrame, Taken, Remains;
    TakenOne(free);
  }

  // What the finished clone means.
  lemma CloneFinished(m0: Memory, free0: seq<Frame>, m1: Memory, free1: seq<Frame>, mem: Memory, free: seq<Frame>,
                      c: Frame, table: Frame)
    requires NoDup(free0) && Remains(free0, free1) && Taken(free0, free1) == {c}
    requires Cloned(m1, free1, mem, free, c, 4, m0, table, Elements(free0))
    ensures forall idx: Path :: |idx| == 4 ==> WalkFrom(mem, c, idx) == WalkFrom(m0, table, idx)
    ensures Remains(free0, free) && Good(State(mem, free), c)
    ensures forall b :: IsTable(mem, c, b) ==> b in Taken(free0, free)
  {
    hide Same, Inj, NoDup, Remains, Taken, WalkFrom, Shaped, Clonable, Intact, TableAt, IsFrame, Elements;
    TakenSplit(free0, free1, free);
    forall idx: Path | |idx| == 4 ensures WalkFrom(mem, c, idx) == WalkFrom(m0, table, idx) {
      SameWalk(m0, table, mem, c, idx);
    }
    CopyShaped(m0, table, mem, c);
  }

  // A page that the kernel reaches behind a top-level entry with the reserved bit.
  ghost predicate BehindReserved(m: Memory, c: Frame, b: Frame) {
    exists j: Index :: Present(EntryAt(m, c, j)) && Large(EntryAt(m, c, j)) && TableBelow(m, TableFrame(EntryAt(m, c, j)), 3, b)
  }

  // Every page taken is a table of the clone, or a copy of what is behind a reserved bit.
  lemma CloneWastesNothing(free0: seq<Frame>, free1: seq<Frame>, mem: Memory, free: seq<Frame>, c: Frame)
    requires NoDup(free0) && Remains(free0, free1) && Remains(free1, free) && Taken(free0, free1) == {c}
    requires Full(mem, c, 4, Taken(free1, free))
    ensures forall b :: b in Taken(free0, free) ==> IsTable(mem, c, b) || BehindReserved(mem, c, b)
  {
    hide NoDup, Remains, Taken, IsTable, EntryAt, Present, Large, TableFrame, TableBelow;
    TakenSplit(free0, free1, free);
    forall b | b in Taken(free0, free) ensures IsTable(mem, c, b) || BehindReserved(mem, c, b) {
      if b == c {
        RootReached(mem, c);
      } else {
        var j: Index :| Copied(EntryAt(mem, c, j), 4) && TableBelow(mem, TableFrame(EntryAt(mem, c, j)), 3, b);
        if !Large(EntryAt(mem, c, j)) {
          BelowIsTable(mem, c, j, b);
        }
      }
    }
  }

  lemma CloneRepoints(m0: Memory, s: Frame, mem: Memory, c: Frame, free0: seq<Frame>, free1: seq<Frame>, free: seq<Frame>)
    requires NoDup(free0) && Remains(free0, free1) && Remains(free1, free) && Repointed(m0, s, mem, c, 4, Taken(free1, free))
    ensures forall j: Index :: Present(EntryAt(m0, s, j)) ==> TableFrame(EntryAt(mem, c, j)) in Taken(free0, free)
  {
    hide NoDup, Remains, Taken, EntryAt, Present, Large, TableFrame;
    TakenSplit(free0, free1, free);
  }

  lemma RootReached(mem: Memory, c: Frame)
    ensures IsTable(mem, c, c)
  {
    RootTable(mem, c);
  }

  lemma BelowIsTable(mem: Memory, c: Frame, j: Index, b: Frame)
    requires Descends(EntryAt(mem, c, j)) && TableBelow(mem, TableFrame(EntryAt(mem, c, j)), 3, b)
    ensures IsTable(mem, c, b)
  {
    hide Present, Large, TableFrame, EntryAt;
    var p: Path :| |p| < 3 && TableAt(mem, TableFrame(EntryAt(mem, c, j)), p) == Some(b);
    assert ([j] + p)[1..] == p;
    assert TableAt(mem, c, [j] + p) == Some(b);
  }

  // A copy whose tables are not shared has the shape that mapping and unmapping need.
  lemma CopyShaped(m0: Memory, s: Frame, m: Memory, c: Frame)
    requires Same(m0, s, m, c, 4) && Inj(m, c, 4)
    ensures Shaped(m, c)
  {
    hide Same, TableAt, EntryAt, NarrowIfTable;
    forall p: Path | |p| <= 3 && TableAt(m, c, p).Some?
      ensures TableAt(m, c, p).value in m
      ensures |p| <= 2 ==> forall i: Index :: NarrowIfTable(EntryAt(m, TableAt(m, c, p).value, i))
    {
      CopyTable(m0, s, m, c, 4, p);
    }
  }

  lemma {:induction false} CopyTable(m0: Memory, s: Frame, m: Memory, c: Frame, n: nat, p: Path)
    requires Same(m0, s, m, c, n) && |p| < n && TableAt(m, c, p).Some?
    ensures TableAt(m, c, p).value in m
    ensures |p| + 1 < n ==> forall i: Index :: NarrowIfTable(EntryAt(m, TableAt(m, c, p).value, i))
    decreases |p|
  {
    hide Present, Large, TableFrame, EntryAt, Redirected, Narrow;
    if p == [] {
      forall i: Index ensures n > 1 ==> NarrowIfTable(EntryAt(m, c, i)) {
        assert SameEntry(m0, EntryAt(m0, s, i), m, EntryAt(m, c, i), n);
        if n > 1 {
          SourceDescends(m0, EntryAt(m0, s, i), m, EntryAt(m, c, i), n);
          if Descends(EntryAt(m0, s, i)) {
            RedirectedFields(EntryAt(m0, s, i), EntryAt(m, c, i));
          }
        }
      }
    } else {
      var (e0, e) := (EntryAt(m0, s, p[0]), EntryAt(m, c, p[0]));
      assert SameEntry(m0, e0, m, e, n);
      SourceDescends(m0, e0, m, e, n);
      CopyTable(m0, TableFrame(e0), m, TableFrame(e), n - 1, p[1..]);
    }
  }

  // ---------- a clone and its source ----------

  // What the kernel takes for tables behind top-level entries with the reserved bit can be copied, too.
  ghost predicate ReservedCopied(m: Memory, root: Frame, avoid: set<Frame>) {
    forall i: Index :: Present(EntryAt(m, root, i)) && Large(EntryAt(m, root, i)) ==>
      Narrow(EntryAt(m, root, i)) && Clonable(m, TableFrame(EntryAt(m, root, i)), 3, avoid)
  }

  // A well-shaped tree apart from the free pages can be cloned exactly then; without a reserved bit at
  // the top there is nothing to ask.
  lemma GoodCanBeCloned(st: State, root: Frame)
    requires Good(st, root)
    ensures Clonable(st.mem, root, 4, Elements(st.free)) <==> ReservedCopied(st.mem, root, Elements(st.free))
  {
    hide Present, Large, Shaped, IsTable, IsFrame, NoDup, TableFrame, Narrow, EntryAt;
    RootTable(st.mem, root);
    BackedTable(st.mem, root, [], root);
    forall i: Index | Descends(EntryAt(st.mem, root, i))
      ensures Narrow(EntryAt(st.mem, root, i)) && Clonable(st.mem, TableFrame(EntryAt(st.mem, root, i)), 3, Elements(st.free))
    {
      ClonableBehind(st, root, [], root, i);
    }
  }

  lemma ClonableBehind(st: State, root: Frame, u: Path, s: Frame, i: Index)
    requires Good(st, root) && |u| <= 2 && TableAt(st.mem, root, u) == Some(s) && Descends(EntryAt(st.mem, s, i))
    ensures Narrow(EntryAt(st.mem, s, i)) && Clonable(st.mem, TableFrame(EntryAt(st.mem, s, i)), 3 - |u|, Elements(st.free))
    decreases 3 - |u|, 1
  {
    hide Shaped, Clonable, Present, Large, TableFrame, Narrow, EntryAt;
    TableAtSnoc(st.mem, root, u, i);
    NarrowEntry(st.mem, root, u, s, i);
    ClonableFrom(st, root, u + [i], TableFrame(EntryAt(st.mem, s, i)));
  }

  lemma {:induction false} ClonableFrom(st: State, root: Frame, u: Path, s: Frame)
    requires Good(st, root) && 1 <= |u| <= 3 && TableAt(st.mem, root, u) == Some(s)
    ensures Clonable(st.mem, s, 4 - |u|, Elements(st.free))
    decreases 4 - |u|, 0
  {
    hide Present, Large, Shaped, IsTable, IsFrame, NoDup, TableFrame, Narrow, EntryAt;
    BackedTable(st.mem, root, u, s);
    if |u| < 3 {
      forall i: Index | Descends(EntryAt(st.mem, s, i))
        ensures Narrow(EntryAt(st.mem, s, i)) && Clonable(st.mem, TableFrame(EntryAt(st.mem, s, i)), 3 - |u|, Elements(st.free))
      {
        ClonableBehind(st, root, u, s, i);
      }
    }
  }

  // What CloneTable promises of a source that was well-shaped: both trees are, they share no table,
  // and the source translates as before.
  lemma CloneIsSeparate(st0: State, st: State, table: Frame, c: Frame)
    requires Good(st0, table) && Good(st, c) && Remains(st0.free, st.free)
    requires Intact(st0.mem, st.mem, Elements(st0.free))
    requires forall b :: IsTable(st.mem, c, b) ==> b in Taken(st0.free, st.free)
    ensures Good(st, table) && Separate(st.mem, table, c) && SameWalks(st0.mem, st.mem, table)
  {
    hide Shaped, IsTable, WalkFrom, Remains, Taken, IsFrame, NoDup;
    TakenNone(st0.free);
    TakenNone(st.free);
    TakenSplit(st0.free, st.free, st.free);
    FrameShaped(st0.mem, st.mem, table);
  }

  // Whatever is then mapped and unmapped in the clone without harm, the source translates as it did
  // before it was cloned.
  lemma CloneThenRun(st0: State, st: State, table: Frame, c: Frame, ops: seq<PageOp>)
    requires Good(st0, table) && Good(st, c) && Remains(st0.free, st.free)
    requires Intact(st0.mem, st.mem, Elements(st0.free))
    requires forall b :: IsTable(st.mem, c, b) ==> b in Taken(st0.free, st.free)
    requires HarmlessRun(st, c, ops, table) && ApplyAll(st, c, ops).Some?
    ensures SameWalks(st0.mem, ApplyAll(st, c, ops).value.mem, table)
  {
    hide Good, Intact, IsTable, WalkFrom, Remains, Taken, ApplyAll, HarmlessRun, Separate;
    CloneIsSeparate(st0, st, table, c);
    RunSparesOther(st, c, ops, table);
  }

  class PageTableMemory {
    var mem: Memory
    var free: seq<Frame>

    ghost function Now(): State
      reads this
    {
      State(mem, free)
    }

    // ---------- mapping ----------

    // A zeroed physical page.
    method NewPhysical() returns (f: Option<Frame>)
      modifies this
      ensures f.None? <==> old(free) == []
      ensures f.None? ==> unchanged(this)
      ensures f.Some? ==> f.value == old(free[0]) && free == old(free[1..]) && mem == old(mem)[f.value := map[]]
    {
      if free == [] {
        return None;
      }
      f := Some(free[0]);
      free := free[1..];
      mem := mem[f.value := map[]];
    }

    // Follow one entry of a table, creating the next table if it is not present.
    method NextLevel(table: Frame, i: Index) returns (next: Option<Frame>)
      modifies this
      ensures next.Some? <==> Descend(old(Now()), table, i).Some?
      ensures next.Some? ==> Descend(old(Now()), table, i).value == (Now(), next.value)
    {
      if !Present(EntryAt(mem, table, i)) {
        var f := NewPhysical();
        if f.None? {
          return None;
        }
        mem := Store(mem, table, i, ParentEntry(f.value));
        StoredEntry(old(mem)[f.value := map[]], table, i, ParentEntry(f.value), table, i);
      }
      next := Some(AddressOf(EntryAt(mem, table, i)));
    }

    // The table that holds the lowest-level entry of an address.
    method Entry(table: Frame, va: Address) returns (pt: Option<Frame>)
      requires PageAligned(va)
      modifies this
      ensures pt.Some? <==> EntryTable(old(Now()), table, Indices(va)).Some?
      ensures pt.Some? ==> EntryTable(old(Now()), table, Indices(va)).value == (Now(), pt.value)
    {
      hide Descend;
      var pdpt := NextLevel(table, IndexAt(va, 39));
      if pdpt.None? {
        return None;
      }
      var pd := NextLevel(pdpt.value, IndexAt(va, 30));
      if pd.None? {
        return None;
      }
      pt := NextLevel(pd.value, IndexAt(va, 21));
    }

    method MapPage(table: Frame, physical: Frame, va: Address, flags: bv64) returns (ok: bool)
      requires PageAligned(va) && PageAligned(physical.address)
      modifies this
      ensures ok <==> Map(old(Now()), table, physical, va, flags).Some?
      ensures ok ==> Now() == Map(old(Now()), table, physical, va, flags).value
    {
      var converted := ConvertFlags(flags);
      var pt := Entry(table, va);
      if pt.None? {
        return false;
      }
      mem := Store(mem, pt.value, IndexAt(va, 12), MakeEntry(physical, converted | FLAG_P));
      ok := true;
    }

    method UnmapPage(table: Frame, va: Address) returns (ok: bool)
      requires PageAligned(va)
      modifies this
      ensures ok <==> Unmap(old(Now()), table, va).Some?
      ensures ok ==> Now() == Unmap(old(Now()), table, va).value
    {
      var pt := Entry(table, va);
      if pt.None? {
        return false;
      }
      mem := Store(mem, pt.value, IndexAt(va, 12), 0);
      ok := true;
    }

    // ---------- cloning ----------

    // A physical page with the contents of another one.
    method ClonePage(page: Frame) returns (f: Option<Frame>)
      modifies this
      ensures f.None? <==> old(free) == []
      ensures f.None? ==> free == []
      ensures f.Some? ==>
                && f.value == old(free[0]) && free == old(free[1..])
                && mem == old(mem)[f.value := if page in old(mem) then old(mem)[page] else map[]]
    {
      if free == [] {
        return None;
      }
      f := Some(free[0]);
      free := free[1..];
      mem := mem[f.value := if page in mem then mem[page] else map[]];
    }

    // Clone the page behind an entry and redirect the entry to the clone.
    method CloneEntryPage(table: Frame, i: Index) returns (f: Option<Frame>)
      modifies this
      ensures f.None? <==> old(free) == []
      ensures f.None? ==> free == []
      ensures f.Some? ==>
                && f.value == old(free[0]) && free == old(free[1..])
                && var page := AddressOf(EntryAt(old(mem), table, i));
                   var copied := old(mem)[f.value := if page in old(mem) then old(mem)[page] else map[]];
                   mem == Store(copied, table, i, UpdateAddress(EntryAt(copied, table, i), f.value))
    {
      var page := AddressOf(EntryAt(mem, table, i));
      f := ClonePage(page);
      if f.Some? {
        mem := Store(mem, table, i, UpdateAddress(EntryAt(mem, table, i), f.value));
      }
    }

    // Clone the table behind one entry of `c`, and what is below it.
    method CloneBranch(c: Frame, n: nat, x: Index, ghost m0: Memory, ghost s: Frame, ghost area: set<Frame>)
      returns (ok: bool)
      requires Cloning(mem, free, c, n, m0, s, area) && 2 <= n <= 4
      requires EntryAt(mem, c, x) == EntryAt(m0, s, x) && Copied(EntryAt(m0, s, x), n)
      modifies this
      ensures ok ==> Branched(old(mem), old(free), mem, free, c, n, x, m0, s, area)
      ensures ok ==> forall b :: b in Taken(old(free), free) ==> TableBelow(mem, TableFrame(EntryAt(mem, c, x)), n - 1, b)
      ensures !ok ==> free == []
      ensures ok <==> |old(free)| >= TablesBehind(m0, EntryAt(m0, s, x), n)
      ensures ok ==> |free| == |old(free)| - TablesBehind(m0, EntryAt(m0, s, x), n)
      decreases n, 0
    {
      hide TablesBelow, Clonable, Intact, NoDup, Remains, Taken, Copied, Descends, EntryAt, BranchOk, Same, Within, Inj, Full, Repointed, TableBelow, Store, AddressOf, TableFrame, UpdateAddress, Touched, Branched;
      ghost var page := TableFrame(EntryAt(m0, s, x));
      var f := CloneEntryPage(c, x);
      if f.None? {
        return false;
      }
      ghost var m1, free1 := mem, free;
      EntryCopied(old(mem), old(free), c, n, x, m0, s, area);
      if n > 2 {
        ok := CloneEntries(f.value, n - 1, m0, page, area);
        if !ok {
          return;
        }
      } else {
        LeafCopied(m0, page, mem, free, f.value);
      }
      BranchFinished(old(mem), old(free), m1, free1, mem, free, c, n, x, m0, s, area);
      BranchFull(m1, old(free), free1, mem, free, f.value, n);
      BranchPointer(m1, free1, mem, free, c, n, x, f.value, m0, s, area);
      ok := true;
    }

    // Rewrite the entries of `c`, a raw copy of `s`, so that it becomes a deep copy.  The three
    // nested loops of `system_paging_table_clone` are this loop at levels 4, 3 and 2; at level 1 a page
    // of leaf entries is only copied.
    method CloneEntries(c: Frame, n: nat, ghost m0: Memory, ghost s: Frame, ghost area: set<Frame>) returns (ok: bool)
      requires 2 <= n <= 4 && Cloning(mem, free, c, n, m0, s, area) && c in mem && s in m0 && mem[c] == m0[s]
      modifies this
      ensures ok ==> Cloned(old(mem), old(free), mem, free, c, n, m0, s, area)
      ensures ok ==> Full(mem, c, n, Taken(old(free), free)) && Repointed(m0, s, mem, c, n, Taken(old(free), free))
      ensures !ok ==> free == []
      ensures ok <==> |old(free)| >= TablesBelow(m0, s, n, 512)
      ensures ok ==> |free| == |old(free)| - TablesBelow(m0, s, n, 512)
      decreases n, 1
    {
      hide TablesBelow, TablesBehind, Clonable, Intact, NoDup, Remains, Taken, Present, Large, EntryAt, Progress, BranchOk, Same, Within, Inj, Full, Filled, Repointed, TableBelow, Touched;
      ProgressStart(m0, s, mem, c, n);
      TakenNone(free);
      TouchedNone(mem, free, c);
      TablesNone(m0, s, n);
      FilledNone(m0, s, mem, c, n);
      var i: bv64 := 0;
      while i < 512
        invariant i <= 512
        invariant Cloning(mem, free, c, n, m0, s, area) && Touched(old(mem), old(free), mem, free, c)
        invariant Progress(m0, s, mem, c, n, i, Taken(old(free), free))
        invariant |free| == |old(free)| - TablesBelow(m0, s, n, i)
        invariant Filled(m0, s, mem, c, n, i, Taken(old(free), free))
        decreases 512 - i
      {
        var x := Index(i as bv9);
        ghost var m1, free1 := mem, free;
        RawEntry(mem, free, c, n, m0, s, area, i, Taken(old(free), free));
        TablesNext(m0, s, n, i);
        TablesGrow(m0, s, n, i + 1);
        if Copied(EntryAt(mem, c, x), n) {
          ok := CloneBranch(c, n, x, m0, s, area);
          if !ok {
            return;
          }
          BranchFills(old(mem), old(free), m1, free1, mem, free, c, n, i, m0, s, area);
          BranchJoins(old(mem), old(free), m1, free1, mem, free, c, n, i, m0, s, area);
        } else {
          ProgressSkip(m0, s, mem, c, n, i, Taken(old(free), free));
          NoneBehind(m0, EntryAt(m0, s, x), n);
          FilledSkip(m0, s, mem, c, n, i, Taken(old(free), free));
        }
        i := i + 1;
      }
      ProgressEnd(m0, s, mem, c, n, Taken(old(free), free));
      FilledEnd(m0, s, mem, c, n, Taken(old(free), free));
      EndRepointed(m0, s, mem, c, n, Taken(old(free), free));
      ok := true;
    }

    // Clone a whole tree of tables.
    method CloneTable(table: Frame) returns (c: Frame, ok: bool)
      requires NoDup(free) && (forall f :: f in free ==> IsFrame(f)) && Clonable(mem, table, 4, Elements(free))
      modifies this
      // it fails only when no page is left, and every page that it takes is a table of the clone, or a copy
      // of what the kernel finds behind a reserved bit
      ensures !ok ==> free == []
      ensures ok ==> forall b :: b in Taken(old(free), free) ==> IsTable(mem, c, b) || BehindReserved(mem, c, b)
      // every present top-level entry, with the reserved bit or without, points to a page just taken
      ensures ok ==> forall j: Index :: Present(EntryAt(old(mem), table, j)) ==> TableFrame(EntryAt(mem, c, j)) in Taken(old(free), free)
      // so it succeeds exactly when there are enough pages
      ensures ok <==> |old(free)| >= Tables(old(mem), table, 4)
      ensures ok ==> |free| == |old(free)| - Tables(old(mem), table, 4)
      // the clone translates every address as the source did, rights included
      ensures ok ==> forall idx: Path :: |idx| == 4 ==> WalkFrom(mem, c, idx) == WalkFrom(old(mem), table, idx)
      // nothing but formerly free pages was written, so the source is as it was
      ensures ok ==> Remains(old(free), free) && Intact(old(mem), mem, Elements(old(free)))
      // every table of the clone is one of the pages taken, and the clone is a tree
      ensures ok ==> Good(Now(), c) && forall b :: IsTable(mem, c, b) ==> b in Taken(old(free), free)
    {
      hide TablesBelow, Clonable, Intact, NoDup, Remains, Taken, WalkFrom, Same, Within, Inj, Full, Repointed, Present, EntryAt, TableFrame, BehindReserved, IsFrame, Shaped, IsTable, Good;
      c := table;
      var f := ClonePage(table);
      if f.None? {
        return c, false;
      }
      c := f.value;
      ghost var m1, free1 := mem, free;
      RootCopied(old(mem), old(free), table);
      ok := CloneEntries(c, 4, old(mem), table, Elements(old(free)));
      if ok {
        CloneFinished(old(mem), old(free), m1, free1, mem, free, c, table);
        CloneWastesNothing(old(free), free1, mem, free, c);
        CloneRepoints(old(mem), table, mem, c, old(free), free1, free);
      }
    }

    // Clone a tree of tables that mapping and unmapping have kept good, to go on with the clone: both
    // trees are good and share no table, and whatever harmless run is then made in the clone, the
    // source translates as it did before it was cloned.
    method CloneForUse(table: Frame) returns (c: Frame, ok: bool)
      requires Good(Now(), table) && ReservedCopied(mem, table, Elements(free))
      modifies this
      ensures !ok ==> free == []
      ensures ok ==> forall b :: b in Taken(old(free), free) ==> IsTable(mem, c, b) || BehindReserved(mem, c, b)
      ensures ok <==> |old(free)| >= Tables(old(mem), table, 4)
      ensures ok ==> Good(Now(), c) && Good(Now(), table) && Separate(mem, table, c)
      ensures ok ==> forall idx: Path :: |idx| == 4 ==> WalkFrom(mem, c, idx) == WalkFrom(old(mem), table, idx)
      ensures ok ==> forall ops: seq<PageOp> :: HarmlessRun(Now(), c, ops, table) && ApplyAll(Now(), c, ops).Some? ==>
                       SameWalks(old(mem), ApplyAll(Now(), c, ops).value.mem, table)
    {
      hide Intact, Remains, Taken, WalkFrom, IsTable, Shaped, Tables, BehindReserved, HarmlessRun, ApplyAll, SameWalks, Separate, NoDup, IsFrame, EntryAt, ReservedCopied, Clonable;
      GoodCanBeCloned(Now(), table);
      ghost var st0 := Now();
      c, ok := CloneTable(table);
      if ok {
        CloneIsSeparate(st0, Now(), table, c);
        forall ops: seq<PageOp> | HarmlessRun(Now(), c, ops, table) && ApplyAll(Now(), c, ops).Some?
          ensures SameWalks(st0.mem, ApplyAll(Now(), c, ops).value.mem, table)
        {
          CloneThenRun(st0, Now(), table, c, ops);
        }
      }
    }
  }
}
