/**
  Whole runs of mappings and unmappings through one root, against the obvious specification: a page
  translates as its last operation says.
 */
module PageRuns {
  import opened Options
  import opened Sequences
  import opened Amd64
  import opened PageTables
  import opened PageMap
  import opened OtherRoots

  // The last operation of a run on a page.
  function LastOn(ops: seq<PageOp>, va: Address): (r: Option<PageOp>)
    ensures r.None? <==> forall op :: op in ops ==> op.va != va
    ensures r.Some? ==> r.value in ops && r.value.va == va
  {
    if ops == [] then None
    else
      var later := LastOn(ops[1..], va);
      if later.Some? then later else if ops[0].va == va then Some(ops[0]) else None
  }

  // What a page translates to after an operation on it.
  ghost predicate Effect(t: Translation, op: PageOp) {
    match op
    case MapPage(physical, _, flags) => Leads(t, physical, flags)
    case UnmapPage(_) => t == NotPresent
  }

  ghost predicate IsPage(va: Address) {
    PageAligned(va) && Canonical(va)
  }

  lemma ApplyEffect(st: State, root: Frame, op: PageOp)
    requires Good(st, root) && Walk(st.mem, root, op.va).Small() && Apply(st, root, op).Some?
    ensures Effect(Walk(Apply(st, root, op).value.mem, root, op.va), op)
  {
    hide Good, Confined, OnlyChanged, Walk, Map, Unmap, Leads;
    match op
    case MapPage(physical, va, flags) => MapCorrect(st, root, physical, va, flags);
    case UnmapPage(va) => UnmapCorrect(st, root, va);
  }

  lemma Untouched(st: State, st': State, root: Frame, va: Address, other: Address)
    requires OnlyChanged(st.mem, st'.mem, root, Indices(va)) && IsPage(va) && IsPage(other) && va != other
    ensures Walk(st'.mem, root, other) == Walk(st.mem, root, other)
  {
    hide OnlyChanged, Indices, WalkFrom;
    OtherPages(st.mem, st'.mem, root, va, other);
  }

  lemma StillSmall(st: State, st': State, root: Frame, ops: seq<PageOp>)
    requires ops != [] && AllSmall(st.mem, root, ops)
    requires OnlyChanged(st.mem, st'.mem, root, Indices(ops[0].va)) && Walk(st'.mem, root, ops[0].va).Small()
    ensures AllSmall(st'.mem, root, ops[1..])
  {
    hide WalkFrom, Indices;
    forall i | 0 <= i < |ops[1..]| ensures Walk(st'.mem, root, ops[1..][i].va).Small() {
      assert ops[1..][i] == ops[i + 1];
      assert Walk(st.mem, root, ops[i + 1].va).Small();
    }
  }

  // ---------- the same root ----------

  // The entry that an operation stores.
  function EntryOf(op: PageOp): Entry {
    match op
    case MapPage(physical, _, flags) => LeafEntry(physical, flags)
    case UnmapPage(_) => 0
  }

  lemma ApplyStores(st: State, root: Frame, op: PageOp)
    requires Apply(st, root, op).Some?
    ensures EntryTable(st, root, Indices(op.va)).Some?
    ensures Apply(st, root, op).value == StoreAt(st, root, op.va, EntryOf(op))
  {
    hide EntryTable, Store, Indices, LeafEntry;
  }

  // No large page covers the page, or an operation on it changes no translation whatever it stores.
  ghost predicate Tame(st: State, root: Frame, va: Address) {
    Walk(st.mem, root, va).Small() || Harmless(st, root, va, root)
  }

  // Every operation of a run is tame when its turn comes.
  ghost predicate TameRun(st: State, root: Frame, ops: seq<PageOp>)
    decreases |ops|
  {
    ops != [] ==>
      && Tame(st, root, ops[0].va)
      && (Apply(st, root, ops[0]).Some? ==> TameRun(Apply(st, root, ops[0]).value, root, ops[1..]))
  }

  // One tame operation: it has its effect if its page is small, and no effect at all otherwise; other
  // pages translate as before.
  lemma TameEffect(st: State, root: Frame, op: PageOp, va: Address)
    requires Good(st, root) && Tame(st, root, op.va) && Apply(st, root, op).Some? && IsPage(op.va) && IsPage(va)
    ensures var st' := Apply(st, root, op).value;
            && Good(st', root)
            && (va != op.va || !Walk(st.mem, root, va).Small() ==> Walk(st'.mem, root, va) == Walk(st.mem, root, va))
            && (va == op.va && Walk(st.mem, root, va).Small() ==> Effect(Walk(st'.mem, root, va), op) && Walk(st'.mem, root, va).Small())
  {
    hide Good, WalkFrom, Apply, Confined, OnlyChanged, Harmless, StoreAt, EntryTable, Indices, Effect, IsPage;
    var st' := Apply(st, root, op).value;
    if Walk(st.mem, root, op.va).Small() {
      ApplyCorrect(st, root, op);
      ApplyEffect(st, root, op);
      if va != op.va {
        Untouched(st, st', root, op.va, va);
      }
    } else {
      ApplyStores(st, root, op);
      SparedStaysGood(st, root, op.va, EntryOf(op), root);
    }
  }

  // After any tame run, every page that no large page covers translates as the last operation on it
  // says, and as before if there was none; a page under a large page translates as before.
  lemma {:induction false} RunRefines(st: State, root: Frame, ops: seq<PageOp>, va: Address)
    requires Good(st, root) && TameRun(st, root, ops) && ApplyAll(st, root, ops).Some?
    requires IsPage(va) && forall op :: op in ops ==> IsPage(op.va)
    ensures var st' := ApplyAll(st, root, ops).value;
            && Good(st', root)
            && match if Walk(st.mem, root, va).Small() then LastOn(ops, va) else None
               case None => Walk(st'.mem, root, va) == Walk(st.mem, root, va)
               case Some(op) => Effect(Walk(st'.mem, root, va), op)
    decreases |ops|
  {
    hide Good, Walk, Apply, Effect, IsPage, Tame;
    if ops != [] {
      assert ops[0] in ops;
      TameEffect(st, root, ops[0], va);
      RunRefines(Apply(st, root, ops[0]).value, root, ops[1..], va);
    }
  }

  // ---------- other roots ----------

  // Every operation of a run spares `other` when its turn comes.
  ghost predicate HarmlessRun(st: State, root: Frame, ops: seq<PageOp>, other: Frame)
    decreases |ops|
  {
    ops != [] ==>
      && Harmless(st, root, ops[0].va, other)
      && (Apply(st, root, ops[0]).Some? ==> HarmlessRun(Apply(st, root, ops[0]).value, root, ops[1..], other))
  }

  // Any such sequence of mappings and unmappings through one root leaves every translation of the
  // other one as it was.
  lemma {:induction false} RunSparesOther(st: State, root: Frame, ops: seq<PageOp>, other: Frame)
    requires Good(st, other) && HarmlessRun(st, root, ops, other) && ApplyAll(st, root, ops).Some?
    ensures var st' := ApplyAll(st, root, ops).value; Good(st', other) && SameWalks(st.mem, st'.mem, other)
    decreases |ops|
  {
    hide Good, WalkFrom, Apply, Harmless, StoreAt;
    if ops != [] {
      ApplyStores(st, root, ops[0]);
      SparedStaysGood(st, root, ops[0].va, EntryOf(ops[0]), other);
      RunSparesOther(Apply(st, root, ops[0]).value, root, ops[1..], other);
    }
  }

  // A run through a good root that meets no large page spares every root that shares no table with it.
  lemma {:induction false} SmallRunIsHarmless(st: State, root: Frame, ops: seq<PageOp>, other: Frame)
    requires Good(st, root) && Good(st, other) && Separate(st.mem, other, root) && AllSmall(st.mem, root, ops)
    ensures HarmlessRun(st, root, ops, other) && TameRun(st, root, ops)
    decreases |ops|
  {
    hide Good, Walk, Apply, Confined, OnlyChanged, Harmless, Separate, SameWalks;
    if ops != [] {
      SmallIsHarmless(st, root, ops[0].va, other);
      if Apply(st, root, ops[0]).Some? {
        var st1 := Apply(st, root, ops[0]).value;
        ApplyCorrect(st, root, ops[0]);
        ConfinedSpares(st, st1, root, other);
        StillSmall(st, st1, root, ops);
        SmallRunIsHarmless(st1, root, ops[1..], other);
      }
    }
  }

  // An empty root is where such runs start: everything is absent, and three pages are enough to map
  // any address, but no fewer.
  lemma FreshRoot(root: Frame, free: seq<Frame>, physical: Frame, va: Address, flags: bv64)
    requires NoDup(free) && forall f :: f in free ==> IsFrame(f) && f != root
    ensures var st := State(map[root := map[]], free);
            && Good(st, root) && Walk(st.mem, root, va) == NotPresent
            && (Map(st, root, physical, va, flags).Some? <==> |free| >= 3)
  {
    hide WalkFrom, TableAt, Map, Indices, IsFrame, NoDup;
    var st := State(map[root := map[]], free);
    forall p: Path | true ensures TableAt(st.mem, root, p) == if p == [] then Some(root) else None {
      EmptyTable(st.mem, root, p);
    }
    forall i: Index | true ensures NarrowIfTable(EntryAt(st.mem, root, i)) {
      assert EntryAt(st.mem, root, i) == 0;
    }
    EmptyTable(st.mem, root, Indices(va));
    PagesUsed(st, root, physical, va, flags);
  }
}
