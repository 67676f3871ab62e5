/**
  Mapping below a large page: the kernel's descent does not look at the page-size bit, so it takes the
  large page for a table.  This gives the exact condition under which mapping and unmapping work, and
  says what they leave alone when they do not.
 */
module LargePages {
  import opened Options
  import opened Sequences
  import opened Amd64
  import opened PageTables
  import opened PageMap

  // Where the kernel's descent arrives without creating anything.
  function KernelTable(mem: Memory, table: Frame, path: Path): Option<Frame>
    decreases |path|
  {
    if path == [] then Some(table)
    else
      var e := EntryAt(mem, table, path[0]);
      if Present(e) then KernelTable(mem, AddressOf(e), path[1..]) else None
  }

  // Whatever the descent through `root` wrongly takes for a table, below a large page, is no table of
  // `other`.
  ghost predicate StraysApart(mem: Memory, root: Frame, idx: Path, other: Frame)
    requires |idx| == 4
  {
    forall k: nat :: k <= 3 && TableAt(mem, root, idx[..k]).None? && KernelTable(mem, root, idx[..k]).Some? ==>
      !IsTable(mem, other, KernelTable(mem, root, idx[..k]).value)
  }

  lemma {:induction false} KernelSnoc(mem: Memory, t: Frame, p: Path, i: Index)
    ensures KernelTable(mem, t, p + [i]) ==
            match KernelTable(mem, t, p)
            case None => None
            case Some(a) => if Present(EntryAt(mem, a, i)) then Some(AddressOf(EntryAt(mem, a, i))) else None
    decreases |p|
  {
    hide Present, AddressOf;
    if p == [] {
      assert p + [i] == [i] && [i][1..] == [];
    } else {
      assert (p + [i])[1..] == p[1..] + [i];
      var e := EntryAt(mem, t, p[0]);
      if Present(e) {
        KernelSnoc(mem, AddressOf(e), p[1..], i);
      }
    }
  }

  // Above large pages, the descent follows the tables.
  lemma {:induction false} KernelFollows(mem: Memory, root: Frame, p: Path, a: Frame)
    requires Shaped(mem, root) && |p| <= 3 && TableAt(mem, root, p) == Some(a)
    ensures KernelTable(mem, root, p) == Some(a)
    decreases |p|
  {
    hide Shaped, Present, Large, AddressOf, TableFrame, Narrow;
    if p != [] {
      var (front, i) := (p[..|p| - 1], p[|p| - 1]);
      assert p == front + [i];
      TableAtSnoc(mem, root, front, i);
      var b := TableAt(mem, root, front).value;
      KernelFollows(mem, root, front, b);
      KernelSnoc(mem, root, front, i);
      NarrowEntry(mem, root, front, b, i);
      NarrowAddress(EntryAt(mem, b, i));
    }
  }

  // The walk of an address that is not small meets a large entry.
  lemma {:induction false} WhereLarge(mem: Memory, root: Frame, p: Path, a: Frame, s: Path) returns (k: nat)
    requires Shaped(mem, root) && |p| + |s| == 4 && |s| >= 1 && TableAt(mem, root, p) == Some(a)
    requires !WalkFrom(mem, a, s).Small()
    ensures |p| <= k <= 2 && TableAt(mem, root, (p + s)[..k]).Some?
    ensures var e := EntryAt(mem, TableAt(mem, root, (p + s)[..k]).value, (p + s)[k]); Present(e) && Large(e)
    decreases |s|
  {
    hide Shaped, Present, Large, TableFrame, FlagsOf, EntryAt, TableAt, FrameMask;
    BackedTable(mem, root, p, a);
    assert (p + s)[..|p|] == p;
    var e := EntryAt(mem, a, s[0]);
    if |s| > 1 && Present(e) && !Large(e) {
      TableAtSnoc(mem, root, p, s[0]);
      assert (p + [s[0]]) + s[1..] == p + s;
      k := WhereLarge(mem, root, p + [s[0]], TableFrame(e), s[1..]);
    } else {
      k := |p|;
    }
  }

  // ---------- steps below a large page ----------

  ghost predicate NoTables(m0: Memory, root: Frame, free: seq<Frame>) {
    forall f :: f in free ==> IsFrame(f) && !IsTable(m0, root, f)
  }

  ghost predicate SelfOnly(mem: Memory, b: Frame) {
    forall j: Index :: Present(EntryAt(mem, b, j)) ==> AddressOf(EntryAt(mem, b, j)) == b
  }

  // A step from a page that is no table writes no table.
  lemma StrayStep(m0: Memory, st: State, root: Frame, a: Frame, i: Index)
    requires SameTables(m0, st.mem, root) && NoTables(m0, root, st.free) && !IsTable(m0, root, a)
    requires Descend(st, a, i).Some?
    ensures var (st', b) := Descend(st, a, i).value;
            && SameTables(m0, st'.mem, root) && NoTables(m0, root, st'.free) && Remains(st.free, st'.free)
            && (Present(EntryAt(st.mem, a, i)) ==> st' == st && b == AddressOf(EntryAt(st.mem, a, i)))
            && (!Present(EntryAt(st.mem, a, i)) ==> !IsTable(m0, root, b) && SelfOnly(st'.mem, b))
  {
    hide IsTable, AddressOf, IsFrame, ParentEntry, Present;
    if !Present(EntryAt(st.mem, a, i)) {
      var f := st.free[0];
      assert f in st.free;
      ParentFields(f);
      var zeroed := st.mem[f := map[]];
      var mem' := Store(zeroed, a, i, ParentEntry(f));
      forall j: Index | Present(EntryAt(mem', f, j)) ensures AddressOf(EntryAt(mem', f, j)) == f {
        StoredEntry(zeroed, a, i, ParentEntry(f), f, j);
        ZeroAbsent();
      }
      forall b | IsTable(m0, root, b) && b in m0 ensures b in mem' && mem'[b] == m0[b] {
        StoredElsewhere(zeroed, a, i, ParentEntry(f), b);
      }
    }
  }

  lemma ZeroAbsent()
    ensures !Present(0)
  {
  }

  // The last store, into a page that is no table.
  lemma StrayStore(m0: Memory, mem: Memory, root: Frame, b: Frame, i: Index, e: Entry)
    requires Shaped(m0, root) && SameTables(m0, mem, root) && !IsTable(m0, root, b)
    ensures SameWalks(m0, Store(mem, b, i, e), root) && Shaped(Store(mem, b, i, e), root)
    ensures forall t :: IsTable(Store(mem, b, i, e), root, t) <==> IsTable(m0, root, t)
  {
    hide Shaped, IsTable, WalkFrom;
    var mem' := Store(mem, b, i, e);
    forall t | IsTable(m0, root, t) && t in m0 ensures t in mem' && mem'[t] == m0[t] {
      StoredElsewhere(mem, b, i, e, t);
    }
    FrameShaped(m0, mem', root);
  }

  // ---------- whole descents ----------

  function DescendAlong(st: State, a: Frame, path: Path): Option<(State, Frame)>
    decreases |path|
  {
    if path == [] then Some((st, a))
    else
      var (st1, b) :- Descend(st, a, path[0]);
      DescendAlong(st1, b, path[1..])
  }

  lemma EntryTableIsDescent(st: State, root: Frame, idx: Path)
    requires |idx| == 4
    ensures EntryTable(st, root, idx) == DescendAlong(st, root, idx[..3])
  {
    hide Descend;
    var p := idx[..3];
    assert p[1..][0] == idx[1] && p[1..][1..][0] == idx[2] && p[1..][1..][1..] == [];
    if Descend(st, root, idx[0]).Some? {
      var (st1, b) := Descend(st, root, idx[0]).value;
      assert DescendAlong(st, root, p) == DescendAlong(st1, b, p[1..]);
      if Descend(st1, b, idx[1]).Some? {
        var (st2, c) := Descend(st1, b, idx[1]).value;
        assert DescendAlong(st1, b, p[1..]) == DescendAlong(st2, c, p[1..][1..]);
        if Descend(st2, c, idx[2]).Some? {
          var (st3, d) := Descend(st2, c, idx[2]).value;
          assert DescendAlong(st2, c, p[1..][1..]) == DescendAlong(st3, d, []);
        }
      }
    }
  }

  // As far as entries are present, the descent is a mere lookup.
  lemma {:induction false} DescentFollows(st: State, a: Frame, p: Path, b: Frame, q: Path)
    requires KernelTable(st.mem, a, p) == Some(b)
    ensures DescendAlong(st, a, p + q) == DescendAlong(st, b, q)
    ensures KernelTable(st.mem, a, p + q) == KernelTable(st.mem, b, q)
    decreases |p|
  {
    hide Present, AddressOf, EntryAt;
    if p == [] {
      assert p + q == q;
    } else {
      assert (p + q)[1..] == p[1..] + q;
      DescentFollows(st, AddressOf(EntryAt(st.mem, a, p[0])), p[1..], b, q);
    }
  }

  // Where the descent goes from `b` is no table: nothing has been written yet and lookups lead to
  // no table, or `b` is a new page.
  ghost predicate Astray(m0: Memory, st: State, root: Frame, b: Frame, path: Path) {
    || (st.mem == m0 && forall j: nat :: j <= |path| && KernelTable(m0, b, path[..j]).Some? ==>
          !IsTable(m0, root, KernelTable(m0, b, path[..j]).value))
    || SelfOnly(st.mem, b)
  }

  lemma {:induction false} StrayDescent(m0: Memory, st: State, root: Frame, b: Frame, path: Path)
    requires SameTables(m0, st.mem, root) && NoTables(m0, root, st.free) && !IsTable(m0, root, b)
    requires Astray(m0, st, root, b, path) && DescendAlong(st, b, path).Some?
    ensures var (st', c) := DescendAlong(st, b, path).value;
            SameTables(m0, st'.mem, root) && !IsTable(m0, root, c) && Remains(st.free, st'.free)
    decreases |path|
  {
    hide IsTable, AddressOf, Present, Descend, SameTables, NoTables, EntryAt, Remains;
    if path != [] {
      StrayStep(m0, st, root, b, path[0]);
      var (st1, c) := Descend(st, b, path[0]).value;
      var e := EntryAt(st.mem, b, path[0]);
      if Present(e) {
        StrayNext(m0, st, root, b, path);
      }
      StrayDescent(m0, st1, root, c, path[1..]);
      RemainsTwice(st.free, st1.free, DescendAlong(st1, c, path[1..]).value.0.free);
    } else {
      RemainsAll(st.free);
    }
  }

  lemma RemainsAll<T>(free: seq<T>)
    ensures Remains(free, free)
  {
  }

  lemma StrayNext(m0: Memory, st: State, root: Frame, b: Frame, path: Path)
    requires Astray(m0, st, root, b, path) && path != [] && !IsTable(m0, root, b)
    requires Present(EntryAt(st.mem, b, path[0]))
    ensures var c := AddressOf(EntryAt(st.mem, b, path[0])); !IsTable(m0, root, c) && Astray(m0, st, root, c, path[1..])
  {
    hide IsTable, AddressOf, Present, EntryAt;
    var c := AddressOf(EntryAt(st.mem, b, path[0]));
    if !SelfOnly(st.mem, b) {
      forall j: nat | j <= |path[1..]| && KernelTable(m0, c, path[1..][..j]).Some?
        ensures !IsTable(m0, root, KernelTable(m0, c, path[1..][..j]).value)
      {
        assert path[..j + 1][1..] == path[1..][..j];
        assert KernelTable(m0, b, path[..j + 1]) == KernelTable(m0, c, path[1..][..j]);
      }
      assert path[1..][..0] == [];
      assert KernelTable(m0, c, []) == Some(c);
    }
  }

  // The descent for an address below a large page leaves it at a page that is no table of `other`.
  lemma DescentGoesAstray(st: State, root: Frame, idx: Path, k: nat, other: Frame)
    requires Shaped(st.mem, root) && |idx| == 4 && k <= 2 && TableAt(st.mem, root, idx[..k]).Some?
    requires var e := EntryAt(st.mem, TableAt(st.mem, root, idx[..k]).value, idx[k]); Present(e) && Large(e)
    requires StraysApart(st.mem, root, idx, other) && NoTables(st.mem, other, st.free) && EntryTable(st, root, idx).Some?
    ensures var (st', b) := EntryTable(st, root, idx).value;
            SameTables(st.mem, st'.mem, other) && !IsTable(st.mem, other, b) && Remains(st.free, st'.free)
  {
    hide Shaped, IsTable, AddressOf, Present, Large, EntryAt, EntryTable, IsFrame, TableAt, KernelTable, TableFrame, DescendAlong, SelfOnly, Remains;
    var a := TableAt(st.mem, root, idx[..k]).value;
    var page := AddressOf(EntryAt(st.mem, a, idx[k]));
    var (front, rest) := (idx[..k + 1], idx[k + 1..3]);
    assert front == idx[..k] + [idx[k]] && front + rest == idx[..3];
    KernelFollows(st.mem, root, idx[..k], a);
    KernelSnoc(st.mem, root, idx[..k], idx[k]);
    TableAtSnoc(st.mem, root, idx[..k], idx[k]);
    forall j: nat | j <= |rest| && KernelTable(st.mem, page, rest[..j]).Some?
      ensures !IsTable(st.mem, other, KernelTable(st.mem, page, rest[..j]).value)
    {
      assert front + rest[..j] == idx[..k + 1 + j];
      DescentFollows(st, root, front, page, rest[..j]);
      TableAtAppend(st.mem, root, front, rest[..j]);
    }
    assert front + [] == front && idx[..k + 1] == front;
    EntryTableIsDescent(st, root, idx);
    DescentFollows(st, root, front, page, rest);
    StrayDescent(st.mem, st, other, page, rest);
  }

  // Below a large page, mapping and unmapping write no table of a root that the strays avoid, and
  // change none of its translations.
  lemma UnderLargePage(st: State, root: Frame, va: Address, e: Entry, other: Frame)
    requires Good(st, root) && Good(st, other) && !Walk(st.mem, root, va).Small()
    requires StraysApart(st.mem, root, Indices(va), other) && EntryTable(st, root, Indices(va)).Some?
    ensures var (st1, pt) := EntryTable(st, root, Indices(va)).value;
            var st' := State(Store(st1.mem, pt, Indices(va)[3], e), st1.free);
            && !IsTable(st.mem, other, pt) && SameWalks(st.mem, st'.mem, other) && Good(st', other)
            && forall b :: IsTable(st'.mem, other, b) <==> IsTable(st.mem, other, b)
  {
    hide Shaped, IsTable, EntryTable, NoDup, IsFrame, TableAt, WalkFrom, StraysApart, EntryAt, Present, Large, SameTables, Remains, Store;
    var idx := Indices(va);
    RootTable(st.mem, root);
    assert [] + idx == idx;
    var k := WhereLarge(st.mem, root, [], root, idx);
    DescentGoesAstray(st, root, idx, k, other);
    var (st1, pt) := EntryTable(st, root, idx).value;
    StrayStore(st.mem, st1.mem, other, pt, idx[3], e);
    RemainsPart(st.free, st1.free);
  }

  lemma RemainsPart<T>(free: seq<T>, free': seq<T>)
    requires Remains(free, free')
    ensures (forall x :: x in free' ==> x in free) && (NoDup(free) ==> NoDup(free'))
  {
  }

  // ---------- the page's own path ----------

  // The present words that the walk of a path reads in `m0` are the same in `mem`.
  ghost predicate KeptWords(m0: Memory, mem: Memory, t: Frame, p: Path)
    decreases |p|
  {
    && t in m0 && t in mem
    && (p != [] && Present(EntryAt(m0, t, p[0])) ==>
          && EntryAt(mem, t, p[0]) == EntryAt(m0, t, p[0])
          && (Descends(EntryAt(m0, t, p[0])) ==> KeptWords(m0, mem, TableFrame(EntryAt(m0, t, p[0])), p[1..])))
  }

  lemma {:induction false} WordsAtFirst(m0: Memory, root: Frame, u: Path, t: Frame, p: Path)
    requires Shaped(m0, root) && |u| + |p| <= 3 && TableAt(m0, root, u) == Some(t)
    ensures KeptWords(m0, m0, t, p)
    decreases |p|
  {
    hide Shaped, Present, Large, TableFrame, EntryAt, TableAt;
    BackedTable(m0, root, u, t);
    if p != [] && Descends(EntryAt(m0, t, p[0])) {
      TableAtSnoc(m0, root, u, p[0]);
      WordsAtFirst(m0, root, u + [p[0]], TableFrame(EntryAt(m0, t, p[0])), p[1..]);
    }
  }

  // Creating a table where none is present overwrites no present word.
  lemma {:induction false} LinkKeepsWords(m0: Memory, mem: Memory, root: Frame, u: Path, t: Frame, p: Path, a: Frame, i: Index, f: Frame, e: Entry)
    requires Shaped(m0, root) && |u| + |p| <= 3 && TableAt(m0, root, u) == Some(t) && KeptWords(m0, mem, t, p)
    requires !IsTable(m0, root, f) && !Present(EntryAt(mem, a, i))
    ensures KeptWords(m0, Store(mem[f := map[]], a, i, e), t, p)
    decreases |p|
  {
    hide Shaped, Present, Large, TableFrame, TableAt, IsTable, EntryAt, Store;
    BackedTable(m0, root, u, t);
    LinkedWord(mem, a, i, f, e, t, if p == [] then i else p[0]);
    if p != [] && Descends(EntryAt(m0, t, p[0])) {
      TableAtSnoc(m0, root, u, p[0]);
      LinkKeepsWords(m0, mem, root, u + [p[0]], TableFrame(EntryAt(m0, t, p[0])), p[1..], a, i, f, e);
    }
  }

  lemma LinkedWord(mem: Memory, a: Frame, i: Index, f: Frame, e: Entry, t: Frame, j: Index)
    requires t in mem && t != f && !Present(EntryAt(mem, a, i))
    ensures var mem' := Store(mem[f := map[]], a, i, e);
            t in mem' && (Present(EntryAt(mem, t, j)) ==> EntryAt(mem', t, j) == EntryAt(mem, t, j))
  {
    hide Present;
    StoredEntry(mem[f := map[]], a, i, e, t, j);
  }

  lemma DescendKeepsWords(m0: Memory, st: State, root: Frame, p: Path, a: Frame, i: Index)
    requires Shaped(m0, root) && |p| <= 3 && KeptWords(m0, st.mem, root, p) && NoTables(m0, root, st.free)
    requires Descend(st, a, i).Some?
    ensures var st' := Descend(st, a, i).value.0; KeptWords(m0, st'.mem, root, p) && NoTables(m0, root, st'.free)
  {
    hide Shaped, KeptWords, IsTable, Present, Store, ParentEntry, AddressOf, IsFrame;
    if !Present(EntryAt(st.mem, a, i)) {
      RootTable(m0, root);
      assert st.free[0] in st.free;
      LinkKeepsWords(m0, st.mem, root, [], root, p, a, i, st.free[0], ParentEntry(st.free[0]));
    }
  }

  lemma EntryTableKeepsWords(st: State, root: Frame, idx: Path)
    requires Good(st, root) && |idx| == 4 && EntryTable(st, root, idx).Some?
    ensures KeptWords(st.mem, EntryTable(st, root, idx).value.0.mem, root, idx[..3])
  {
    hide Shaped, KeptWords, IsTable, Descend, NoDup, IsFrame;
    RootTable(st.mem, root);
    WordsAtFirst(st.mem, root, [], root, idx[..3]);
    DescendKeepsWords(st.mem, st, root, idx[..3], root, idx[0]);
    var (st1, pdpt) := Descend(st, root, idx[0]).value;
    DescendKeepsWords(st.mem, st1, root, idx[..3], pdpt, idx[1]);
    var (st2, pd) := Descend(st1, pdpt, idx[1]).value;
    DescendKeepsWords(st.mem, st2, root, idx[..3], pd, idx[2]);
  }

  // The word `i` of page `pt` is one of the present words that the walk reads.
  predicate Hits(m0: Memory, t: Frame, p: Path, pt: Frame, i: Index)
    decreases |p|
  {
    && p != [] && Present(EntryAt(m0, t, p[0]))
    && ((t == pt && p[0] == i) || (Descends(EntryAt(m0, t, p[0])) && Hits(m0, TableFrame(EntryAt(m0, t, p[0])), p[1..], pt, i)))
  }

  // What is left of the walk behind that word.
  function HitRest(m0: Memory, t: Frame, s: Path, pt: Frame, i: Index): (rest: Path)
    requires 1 <= |s| <= 4 && Hits(m0, t, s[..|s| - 1], pt, i)
    ensures 1 <= |rest| < |s|
    decreases |s|
  {
    assert s[..|s| - 1][1..] == s[1..][..|s| - 2];
    if t == pt && s[0] == i then s[1..] else HitRest(m0, TableFrame(EntryAt(m0, t, s[0])), s[1..], pt, i)
  }

  // Two translations are alike up to the flags of the entries above.
  predicate Alike(a: Translation, b: Translation) {
    if a.Mapped? && b.Mapped? then a.(path := []) == b.(path := []) else a == b
  }

  // A store to such a word takes the walk elsewhere.
  lemma {:induction false} HitWalk(m0: Memory, mem: Memory, t: Frame, s: Path, pt: Frame, i: Index, e: Entry)
    requires 1 <= |s| <= 4 && KeptWords(m0, mem, t, s[..|s| - 1]) && Hits(m0, t, s[..|s| - 1], pt, i)
    ensures var mem' := Store(mem, pt, i, e);
            && (!Present(e) ==> WalkFrom(mem', t, s) == NotPresent)
            && (Descends(e) ==> Alike(WalkFrom(mem', t, s), WalkFrom(mem', TableFrame(e), HitRest(m0, t, s, pt, i))))
    decreases |s|
  {
    hide Present, Large, TableFrame, FlagsOf, LeafAt, EntryAt, Store;
    var mem' := Store(mem, pt, i, e);
    StoredEntry(mem, pt, i, e, t, s[0]);
    assert s[..|s| - 1][1..] == s[1..][..|s| - 2];
    if !(t == pt && s[0] == i) {
      HitWalk(m0, mem, TableFrame(EntryAt(m0, t, s[0])), s[1..], pt, i, e);
    }
  }

  // A store to any other word does not.
  lemma {:induction false} MissKeepsWords(m0: Memory, mem: Memory, t: Frame, p: Path, pt: Frame, i: Index, e: Entry)
    requires KeptWords(m0, mem, t, p) && !Hits(m0, t, p, pt, i)
    ensures KeptWords(m0, Store(mem, pt, i, e), t, p)
    decreases |p|
  {
    hide Present, Large, TableFrame, EntryAt, Store;
    StoredEntry(mem, pt, i, e, t, if p == [] then i else p[0]);
    if p != [] && Descends(EntryAt(m0, t, p[0])) {
      MissKeepsWords(m0, mem, TableFrame(EntryAt(m0, t, p[0])), p[1..], pt, i, e);
    }
  }

  // A walk that meets a large page reads only those words.
  lemma {:induction false} LargeWalkKept(m0: Memory, mem: Memory, root: Frame, u: Path, t: Frame, s: Path)
    requires Shaped(m0, root) && |u| + |s| == 4 && |s| >= 1 && TableAt(m0, root, u) == Some(t)
    requires KeptWords(m0, mem, t, s[..|s| - 1]) && !WalkFrom(m0, t, s).Small()
    ensures WalkFrom(mem, t, s) == WalkFrom(m0, t, s)
    decreases |s|
  {
    hide Shaped, Present, Large, TableFrame, FlagsOf, EntryAt, TableAt, FrameMask;
    BackedTable(m0, root, u, t);
    var e := EntryAt(m0, t, s[0]);
    if |s| > 1 && Descends(e) {
      assert s[..|s| - 1][1..] == s[1..][..|s| - 2];
      TableAtSnoc(m0, root, u, s[0]);
      LargeWalkKept(m0, mem, root, u + [s[0]], TableFrame(e), s[1..]);
    }
  }

  // ---------- the exact conditions ----------

  // The descent ends on the page's own path, at the very word by which the walk goes on.
  predicate OwnHit(st: State, root: Frame, va: Address) {
    var d := EntryTable(st, root, Indices(va));
    d.Some? && Hits(st.mem, root, Indices(va)[..3], d.value.1, Indices(va)[3])
  }

  // The indices behind that word.
  function OwnRest(st: State, root: Frame, va: Address): (rest: Path)
    requires OwnHit(st, root, va)
    ensures 1 <= |rest| < 4
  {
    var idx := Indices(va);
    assert idx[..|idx| - 1] == idx[..3];
    HitRest(st.mem, root, idx, EntryTable(st, root, idx).value.1, idx[3])
  }

  // What a store at the end of the descent does to a walk that is not small.
  lemma StoreUnderLarge(st: State, root: Frame, va: Address, e: Entry)
    requires Good(st, root) && !Walk(st.mem, root, va).Small() && EntryTable(st, root, Indices(va)).Some?
    ensures var (st1, pt) := EntryTable(st, root, Indices(va)).value;
            var mem' := Store(st1.mem, pt, Indices(va)[3], e);
            && (!OwnHit(st, root, va) ==> Walk(mem', root, va) == Walk(st.mem, root, va))
            && (OwnHit(st, root, va) && !Present(e) ==> Walk(mem', root, va) == NotPresent)
            && (OwnHit(st, root, va) && Descends(e) ==>
                  Alike(Walk(mem', root, va), WalkFrom(mem', TableFrame(e), OwnRest(st, root, va))))
  {
    hide Shaped, KeptWords, Hits, HitRest, Indices, EntryTable, WalkFrom, TableAt, IsTable, NoDup, IsFrame, Present, Large, TableFrame, Alike, Store;
    var (st1, pt) := EntryTable(st, root, Indices(va)).value;
    var idx := Indices(va);
    RootTable(st.mem, root);
    EntryTableKeepsWords(st, root, idx);
    assert idx[..|idx| - 1] == idx[..3];
    if OwnHit(st, root, va) {
      HitWalk(st.mem, st1.mem, root, idx, pt, idx[3], e);
    } else {
      MissKeepsWords(st.mem, st1.mem, root, idx[..3], pt, idx[3], e);
      LargeWalkKept(st.mem, Store(st1.mem, pt, idx[3], e), root, [], root, idx);
    }
  }

  // Two paths that are equal up to the last index both meet a large page or both do not.
  lemma {:induction false} SmallTogether(mem: Memory, table: Frame, s: Path, j: Index)
    requires 1 <= |s| <= 4
    ensures WalkFrom(mem, table, s).Small() <==> WalkFrom(mem, table, s[..|s| - 1] + [j]).Small()
    decreases |s|
  {
    hide Present, Large, TableFrame, FlagsOf, EntryAt, FrameMask;
    var other := s[..|s| - 1] + [j];
    if |s| > 1 {
      assert other[1..] == s[1..][..|s| - 2] + [j];
      SmallTogether(mem, TableFrame(EntryAt(mem, table, s[0])), s[1..], j);
    }
  }

  // If nothing but a page's translation changed, and that is small now, it was small before: a
  // neighbour behind the same tables tells.
  lemma PointUpdateWasSmall(mem: Memory, mem': Memory, root: Frame, idx: Path)
    requires |idx| == 4 && OnlyChanged(mem, mem', root, idx) && WalkFrom(mem', root, idx).Small()
    ensures WalkFrom(mem, root, idx).Small()
  {
    hide WalkFrom;
    var j := Index(idx[3].bits ^ 1);
    var neighbour := idx[..3] + [j];
    assert neighbour[3] != idx[3];
    SmallTogether(mem', root, idx, j);
    SmallTogether(mem, root, idx, j);
  }

  // Mapping is a point update exactly when the walk meets no large page and no reserved bit.
  lemma MapExactly(st: State, root: Frame, physical: Frame, va: Address, flags: bv64)
    requires Good(st, root) && Map(st, root, physical, va, flags).Some?
    ensures var st' := Map(st, root, physical, va, flags).value;
            (Leads(Walk(st'.mem, root, va), physical, flags) && OnlyChanged(st.mem, st'.mem, root, Indices(va)))
            <==> Walk(st.mem, root, va).Small()
  {
    hide Good, Map, WalkFrom, LeafFlags, IsFrame, OnlyChanged, Confined, Indices;
    var st' := Map(st, root, physical, va, flags).value;
    if Walk(st.mem, root, va).Small() {
      MapCorrect(st, root, physical, va, flags);
    } else if Leads(Walk(st'.mem, root, va), physical, flags) && OnlyChanged(st.mem, st'.mem, root, Indices(va)) {
      PointUpdateWasSmall(st.mem, st'.mem, root, Indices(va));
    }
  }

  // So is unmapping.
  lemma UnmapExactly(st: State, root: Frame, va: Address)
    requires Good(st, root) && Unmap(st, root, va).Some?
    ensures var st' := Unmap(st, root, va).value;
            (Walk(st'.mem, root, va) == NotPresent && OnlyChanged(st.mem, st'.mem, root, Indices(va)))
            <==> Walk(st.mem, root, va).Small()
  {
    hide Good, Unmap, WalkFrom, OnlyChanged, Confined, Indices;
    var st' := Unmap(st, root, va).value;
    if Walk(st.mem, root, va).Small() {
      UnmapCorrect(st, root, va);
    } else if Walk(st'.mem, root, va) == NotPresent && OnlyChanged(st.mem, st'.mem, root, Indices(va)) {
      PointUpdateWasSmall(st.mem, st'.mem, root, Indices(va));
    }
  }

  // ---------- examples ----------

  const ROOT := Frame(0x1000)
  const PDPT := Frame(0x2000)
  const FIRST := Index(0)

  // Three tables in a row, each the first entry of the one before.
  ghost predicate Row(mem: Memory, root: Frame, pdpt: Frame, pd: Frame) {
    && root in mem && pdpt in mem && pd in mem && root != pdpt && pd != root && pd != pdpt
    && (forall i: Index :: NextTable(mem, Some(root), i) == if i == FIRST then Some(pdpt) else None)
    && (forall i: Index :: NextTable(mem, Some(pdpt), i) == if i == FIRST then Some(pd) else None)
    && (forall i: Index :: NextTable(mem, Some(pd), i) == None)
    && (forall i: Index :: NarrowIfTable(EntryAt(mem, root, i)) && NarrowIfTable(EntryAt(mem, pdpt, i)) && NarrowIfTable(EntryAt(mem, pd, i)))
  }

  function RowTable(root: Frame, pdpt: Frame, pd: Frame, p: Path): Option<Frame> {
    if p == [] then Some(root)
    else if p == [FIRST] then Some(pdpt)
    else if p == [FIRST, FIRST] then Some(pd)
    else None
  }

  lemma {:induction false} RowTables(mem: Memory, root: Frame, pdpt: Frame, pd: Frame, p: Path)
    requires Row(mem, root, pdpt, pd)
    ensures TableAt(mem, root, p) == RowTable(root, pdpt, pd, p)
    decreases |p|
  {
    hide Descends, TableFrame, EntryAt, NarrowIfTable;
    if p != [] {
      var (front, i) := (p[..|p| - 1], p[|p| - 1]);
      assert p == front + [i];
      RowTables(mem, root, pdpt, pd, front);
      TableAtSnoc(mem, root, front, i);
    }
  }

  lemma RowGood(mem: Memory, root: Frame, pdpt: Frame, pd: Frame)
    requires Row(mem, root, pdpt, pd)
    ensures Good(State(mem, []), root) && TableAt(mem, root, [FIRST, FIRST]) == Some(pd)
    ensures forall b :: IsTable(mem, root, b) <==> b in {root, pdpt, pd}
  {
    hide TableAt, NarrowIfTable, EntryAt;
    forall p: Path | true ensures TableAt(mem, root, p) == RowTable(root, pdpt, pd, p) {
      RowTables(mem, root, pdpt, pd, p);
    }
    assert RowTable(root, pdpt, pd, []).Some? && RowTable(root, pdpt, pd, [FIRST]).Some? && RowTable(root, pdpt, pd, [FIRST, FIRST]).Some?;
  }

  // The lowest 2 MiB, mapped to the 2 MiB page at 0x200000.
  const EXAMPLE: Memory := map[ROOT := map[FIRST := 0x2003], PDPT := map[FIRST := 0x3003], Frame(0x3000) := map[FIRST := 0x20_0083]]

  lemma ExampleRow()
    ensures Row(EXAMPLE, ROOT, PDPT, Frame(0x3000))
  {
    hide NextTable, NarrowIfTable;
    forall t: Frame, i: Index | true
      ensures NextTable(EXAMPLE, Some(t), i) ==
              if i == FIRST && t == ROOT then Some(PDPT) else if i == FIRST && t == PDPT then Some(Frame(0x3000)) else None
      ensures NarrowIfTable(EntryAt(EXAMPLE, t, i))
    {
      ExampleSteps(t, i);
    }
  }

  lemma ExampleSteps(t: Frame, i: Index)
    ensures NextTable(EXAMPLE, Some(t), i) ==
            if i == FIRST && t == ROOT then Some(PDPT) else if i == FIRST && t == PDPT then Some(Frame(0x3000)) else None
    ensures NarrowIfTable(EntryAt(EXAMPLE, t, i))
  {
    var e := EntryAt(EXAMPLE, t, i);
    assert e == 0 || e == 0x2003 || e == 0x3003 || e == 0x20_0083;
  }

  // Mapping the page at 0x5000 there does not fail, but has no effect on its translation.
  lemma LargePageExample(physical: Frame, flags: bv64)
    ensures var r := Map(State(EXAMPLE, []), ROOT, physical, 0x5000, flags);
            && Good(State(EXAMPLE, []), ROOT) && r.Some?
            && Walk(r.value.mem, ROOT, 0x5000) == Walk(EXAMPLE, ROOT, 0x5000)
            && Walk(r.value.mem, ROOT, 0x5000).Mapped? && Walk(r.value.mem, ROOT, 0x5000).frame == 0x20_0000
  {
    hide Map, TableAt, IsTable, Good, WalkFrom, Indices, EntryAt, Present, Large, AddressOf, LeafEntry, Row;
    ExampleRow();
    RowGood(EXAMPLE, ROOT, PDPT, Frame(0x3000));
    ExampleIndices();
    MapUnderLargePage(State(EXAMPLE, []), ROOT, physical, 0x5000, flags, Frame(0x3000));
  }

  lemma ExampleIndices()
    ensures Indices(0x5000) == [FIRST, FIRST, FIRST, Index(5)] && Indices(0x5000)[..2] == [FIRST, FIRST]
    ensures var e := EntryAt(EXAMPLE, Frame(0x3000), FIRST); Present(e) && Large(e) && AddressOf(e) == Frame(0x20_0000)
    ensures Walk(EXAMPLE, ROOT, 0x5000).Mapped? && Walk(EXAMPLE, ROOT, 0x5000).frame == 0x20_0000
  {
  }

  // The lowest 2 MiB, mapped to a 2 MiB page that begins with the very table that maps it; the page at
  // 0x7000 holds an entry for itself.
  const SELF: Memory := map[ROOT := map[FIRST := 0x2003], PDPT := map[FIRST := 0x20_0003],
                            Frame(0x20_0000) := map[FIRST := 0x20_0083], Frame(0x7000) := map[FIRST := 0x7003]]

  lemma SelfSteps(t: Frame, i: Index)
    requires t != Frame(0x7000)
    ensures NextTable(SELF, Some(t), i) ==
            if i == FIRST && t == ROOT then Some(PDPT) else if i == FIRST && t == PDPT then Some(Frame(0x20_0000)) else None
    ensures NarrowIfTable(EntryAt(SELF, t, i))
  {
    var e := EntryAt(SELF, t, i);
    assert e == 0 || e == 0x2003 || e == 0x20_0003 || e == 0x20_0083;
  }

  lemma SelfRow()
    ensures Row(SELF, ROOT, PDPT, Frame(0x20_0000))
  {
    hide NextTable, NarrowIfTable;
    forall t: Frame, i: Index | t != Frame(0x7000)
      ensures NextTable(SELF, Some(t), i) ==
              if i == FIRST && t == ROOT then Some(PDPT) else if i == FIRST && t == PDPT then Some(Frame(0x20_0000)) else None
      ensures NarrowIfTable(EntryAt(SELF, t, i))
    {
      SelfSteps(t, i);
    }
  }

  // The walk of page 0 meets a large page, and still mapping it to 0x7000 changes its translation, even
  // to what was requested, and unmapping it makes it absent.  But that is no point update: the pages
  // around it change, too.
  lemma SelfExample()
    ensures Good(State(SELF, []), ROOT) && !Walk(SELF, ROOT, 0).Small()
    ensures var r := Map(State(SELF, []), ROOT, Frame(0x7000), 0, WRITE | EXEC);
            r.Some? && Leads(Walk(r.value.mem, ROOT, 0), Frame(0x7000), WRITE | EXEC)
    ensures var r := Unmap(State(SELF, []), ROOT, 0); r.Some? && Walk(r.value.mem, ROOT, 0) == NotPresent
  {
    hide Good, Row;
    SelfRow();
    RowGood(SELF, ROOT, PDPT, Frame(0x20_0000));
    SelfDescent();
  }

  lemma SelfDescent()
    ensures Indices(0) == [FIRST, FIRST, FIRST, FIRST]
    ensures EntryTable(State(SELF, []), ROOT, Indices(0)) == Some((State(SELF, []), Frame(0x20_0000)))
  {
  }
}
