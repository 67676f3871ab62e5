/**
  The page tables on top of the zones: tables are made of pages that the zones hand out.  In every
  state that a run from boot reaches, every table of every root is an outstanding page, and so neither
  free nor metadata; that the tables are apart from the free pages is derived here, not assumed.
 */
module KernelRuns {
  import opened Options
  import opened Sequences
  import opened Amd64
  import opened PageTables
  import opened PageMap
  import opened LargePages
  import opened PageRuns
  import opened Paging
  import opened PhysicalAllocator
  import opened AllocatorRuns
  import opened Zones
  import opened ZoneRuns

  // The address of a page as a number.
  function Place(f: Frame): nat {
    f.address as nat
  }

  // The zones with what they have handed out, the memory, and the roots of page tables in use.
  datatype Kernel = Kernel(h: Holdings, mem: Memory, roots: set<Frame>)

  // ---------- taking pages ----------

  // Normal requests hand out the given pages, one after the other.
  ghost predicate Took(h: Holdings, frames: seq<Frame>, h': Holdings)
    decreases |frames|
  {
    if frames == [] then h' == h
    else
      && Sound(h.zones) && InBounds(Order(h.zones, Normal), |h.zones.regions|) && IsFrame(frames[0])
      && Request(h.zones, Normal).0 == Got(Place(frames[0]))
      && Took(After(h, Ask(Normal)), frames[1..], h')
  }

  // They are distinct, were not outstanding before, and are now.
  ghost predicate Supplied(h: Holdings, frames: seq<Frame>, h': Holdings) {
    && Kempt(h') && h.out <= h'.out && NoDup(frames)
    && forall f :: f in frames ==> IsFrame(f) && Place(f) !in h.out && Place(f) in h'.out
  }

  lemma {:induction false} TookSupplies(h: Holdings, frames: seq<Frame>, h': Holdings)
    requires Kempt(h) && Took(h, frames, h')
    ensures Supplied(h, frames, h')
    decreases |frames|
  {
    hide Kempt, Request, Order, IsFrame, Sound;
    if frames != [] {
      AskStep(h, Normal);
      var h1 := After(h, Ask(Normal));
      TookSupplies(h1, frames[1..], h');
      assert frames == [frames[0]] + frames[1..];
      assert frames[0] !in frames[1..];
    }
  }

  // ---------- the invariant ----------

  // The tables behind a root form a tree of outstanding pages.
  ghost predicate Held(k: Kernel, root: Frame) {
    Shaped(k.mem, root) && forall b :: IsTable(k.mem, root, b) ==> Place(b) in k.h.out
  }

  ghost predicate RootsApart(k: Kernel) {
    forall r, s :: r in k.roots && s in k.roots && r != s ==> Separate(k.mem, r, s)
  }

  ghost predicate Consistent(k: Kernel) {
    Kempt(k.h) && (forall r :: r in k.roots ==> Held(k, r)) && RootsApart(k)
  }

  // No table of a root in use is among the pages that the zones hand out next.
  lemma SupplyIsGood(k: Kernel, frames: seq<Frame>, h': Holdings, root: Frame)
    requires Consistent(k) && Took(k.h, frames, h') && root in k.roots
    ensures Good(State(k.mem, frames), root)
  {
    hide Kempt, Took, Shaped, IsTable, IsFrame, NoDup;
    TookSupplies(k.h, frames, h');
    assert Held(k, root);
  }

  // The same tree of tables in the next state.
  ghost predicate Unmoved(k: Kernel, k': Kernel, root: Frame) {
    Shaped(k'.mem, root) && forall b :: IsTable(k'.mem, root, b) <==> IsTable(k.mem, root, b)
  }

  lemma AllUnmoved(k: Kernel, k': Kernel)
    requires Consistent(k) && Kempt(k'.h) && k'.roots == k.roots && forall r :: r in k.roots ==> Unmoved(k, k', r)
    requires forall r, b :: r in k.roots && IsTable(k.mem, r, b) ==> Place(b) in k'.h.out
    ensures Consistent(k')
  {
    hide Kempt, Shaped, IsTable;
    forall r | r in k.roots ensures Held(k', r) {
      assert Unmoved(k, k', r);
    }
    forall r, s | r in k.roots && s in k.roots && r != s ensures Separate(k'.mem, r, s) {
      assert Unmoved(k, k', r) && Unmoved(k, k', s) && Separate(k.mem, r, s);
    }
  }

  // ---------- steps ----------

  datatype KernelOp =
    | Demand(kind: Kind)                                    // a page for any other use
    | GiveBack(frame: Frame)                                // the return of such a page
    | Fill(frame: Frame, contents: Table)                   // any use of such a page
    | NewRoot(frame: Frame)                                 // an empty table
    | Operate(root: Frame, op: PageOp, frames: seq<Frame>)  // mapping or unmapping
    | Clone(copy: Frame, frames: seq<Frame>)                // a clone of any tree of tables

  // An outstanding page that is no table.
  ghost predicate InUse(k: Kernel, f: Frame) {
    Place(f) in k.h.out && forall r :: r in k.roots ==> !IsTable(k.mem, r, f)
  }

  // What an operation meets: no large page, or below one no table of any root.
  ghost predicate Unobstructed(k: Kernel, root: Frame, va: Address) {
    Walk(k.mem, root, va).Small() || forall r :: r in k.roots ==> StraysApart(k.mem, root, Indices(va), r)
  }

  // What cloning promises of the copy, when it takes the given pages.
  ghost predicate CopyMade(mem: Memory, mem': Memory, copy: Frame, frames: seq<Frame>) {
    && Good(State(mem', []), copy) && Intact(mem, mem', Elements(frames))
    && forall b :: IsTable(mem', copy, b) ==> b in frames
  }

  ghost predicate KernelStep(k: Kernel, op: KernelOp, k': Kernel) {
    match op
    case Demand(kind) => Sound(k.h.zones) && k' == k.(h := After(k.h, Ask(kind)))
    case GiveBack(f) => InUse(k, f) && Sound(k.h.zones) && k' == k.(h := After(k.h, GiveUp(Place(f))))
    case Fill(f, contents) => InUse(k, f) && k' == k.(mem := k.mem[f := contents])
    case NewRoot(f) => Took(k.h, [f], k'.h) && k' == Kernel(k'.h, k.mem[f := map[]], k.roots + {f})
    case Operate(root, pageOp, frames) =>
      && root in k.roots && Took(k.h, frames, k'.h) && Unobstructed(k, root, pageOp.va)
      && Apply(State(k.mem, frames), root, pageOp) == Some(State(k'.mem, [])) && k'.roots == k.roots
    case Clone(copy, frames) =>
      Took(k.h, frames, k'.h) && CopyMade(k.mem, k'.mem, copy, frames) && k'.roots == k.roots + {copy}
  }

  lemma StepKeeps(k: Kernel, op: KernelOp, k': Kernel)
    requires Consistent(k) && KernelStep(k, op, k')
    ensures Consistent(k')
  {
    hide Consistent, Took, Apply, CopyMade, Unobstructed, Sound, After;
    match op
    case Demand(kind) => DemandKeeps(k, kind);
    case GiveBack(f) => GiveBackKeeps(k, f);
    case Fill(f, contents) => FillKeeps(k, f, contents);
    case NewRoot(f) => NewRootKeeps(k, f, k'.h);
    case Operate(root, pageOp, frames) => OperateKeeps(k, root, pageOp, frames, k');
    case Clone(copy, frames) => CloneKeeps(k, copy, frames, k');
  }

  lemma DemandKeeps(k: Kernel, kind: Kind)
    requires Consistent(k)
    ensures Sound(k.h.zones) && Consistent(k.(h := After(k.h, Ask(kind))))
  {
    hide Shaped, IsTable, Request, Order, Accounted, Sound;
    AskStep(k.h, kind);
    var k' := k.(h := After(k.h, Ask(kind)));
    forall r | r in k.roots ensures Unmoved(k, k', r) {
      assert Held(k, r);
    }
    forall r, b | r in k.roots && IsTable(k.mem, r, b) ensures Place(b) in k'.h.out {
      assert Held(k, r);
    }
    AllUnmoved(k, k');
  }

  lemma GiveBackKeeps(k: Kernel, f: Frame)
    requires Consistent(k) && InUse(k, f)
    ensures Sound(k.h.zones) && Consistent(k.(h := After(k.h, GiveUp(Place(f)))))
  {
    hide Shaped, IsTable, Release, Accounted, Sound;
    GiveUpStep(k.h, Place(f));
    var k' := k.(h := After(k.h, GiveUp(Place(f))));
    forall r | r in k.roots ensures Unmoved(k, k', r) {
      assert Held(k, r);
    }
    forall r, b | r in k.roots && IsTable(k.mem, r, b) ensures Place(b) in k'.h.out {
      assert Held(k, r);
      if Place(b) == Place(f) {
        PlaceInjective(b, f);
      }
    }
    AllUnmoved(k, k');
  }

  lemma PlaceInjective(f: Frame, g: Frame)
    requires Place(f) == Place(g)
    ensures f == g
  {
    hide Place;
    PlaceBack(f);
    PlaceBack(g);
  }

  lemma PlaceBack(f: Frame)
    ensures Place(f) < 0x1_0000_0000_0000_0000 && Place(f) as bv64 == f.address
  {
  }

  lemma FillKeeps(k: Kernel, f: Frame, contents: Table)
    requires Consistent(k) && InUse(k, f)
    ensures Consistent(k.(mem := k.mem[f := contents]))
  {
    hide Shaped, IsTable, Kempt, WalkFrom;
    var k' := k.(mem := k.mem[f := contents]);
    forall r | r in k.roots ensures Unmoved(k, k', r) {
      assert Held(k, r);
      FrameShaped(k.mem, k'.mem, r);
    }
    forall r, b | r in k.roots && IsTable(k.mem, r, b) ensures Place(b) in k'.h.out {
      assert Held(k, r);
    }
    AllUnmoved(k, k');
  }

  // One more root joins those in use.
  lemma RootJoins(k: Kernel, k': Kernel, root: Frame, frames: seq<Frame>)
    requires Consistent(k) && Supplied(k.h, frames, k'.h) && k'.roots == k.roots + {root}
    requires forall r :: r in k.roots ==> Unmoved(k, k', r)
    requires Shaped(k'.mem, root) && forall b :: IsTable(k'.mem, root, b) ==> b in frames
    ensures Consistent(k')
  {
    hide Kempt, Shaped, IsTable, IsFrame;
    RootTable(k'.mem, root);
    RootIsTable(k'.mem, root);
    forall r | r in k'.roots ensures Held(k', r) {
      if r in k.roots {
        assert Held(k, r) && Unmoved(k, k', r);
      }
    }
    forall r | r in k.roots ensures Separate(k'.mem, r, root) && Separate(k'.mem, root, r) && r != root {
      assert Held(k, r) && Unmoved(k, k', r);
      RootIsTable(k.mem, r);
    }
    forall r, s | r in k'.roots && s in k'.roots && r != s ensures Separate(k'.mem, r, s) {
      if r in k.roots && s in k.roots {
        assert Unmoved(k, k', r) && Unmoved(k, k', s) && Separate(k.mem, r, s);
      }
    }
  }

  lemma RootIsTable(mem: Memory, root: Frame)
    ensures IsTable(mem, root, root)
  {
    RootTable(mem, root);
  }

  lemma NewRootKeeps(k: Kernel, f: Frame, h': Holdings)
    requires Consistent(k) && Took(k.h, [f], h')
    ensures Consistent(Kernel(h', k.mem[f := map[]], k.roots + {f}))
  {
    hide Kempt, Took, Shaped, IsTable, IsFrame, WalkFrom, TableAt;
    TookSupplies(k.h, [f], h');
    var k' := Kernel(h', k.mem[f := map[]], k.roots + {f});
    forall r | r in k.roots ensures Unmoved(k, k', r) {
      assert Held(k, r);
      assert f in [f];
      ZeroedKeeps(k.mem, r, f);
    }
    EmptyRoot(k'.mem, f);
    RootJoins(k, k', f, [f]);
  }

  lemma EmptyRoot(mem: Memory, f: Frame)
    requires f in mem && mem[f] == map[]
    ensures Shaped(mem, f) && forall b :: IsTable(mem, f, b) ==> b in [f]
  {
    hide TableAt;
    forall p: Path | true ensures TableAt(mem, f, p) == if p == [] then Some(f) else None {
      EmptyTable(mem, f, p);
    }
    forall i: Index | true ensures NarrowIfTable(EntryAt(mem, f, i)) {
      assert EntryAt(mem, f, i) == 0;
    }
  }

  lemma OperateKeeps(k: Kernel, root: Frame, op: PageOp, frames: seq<Frame>, k': Kernel)
    requires Consistent(k) && KernelStep(k, Operate(root, op, frames), k')
    ensures Consistent(k')
  {
    hide Kempt, Took, Shaped, IsTable, WalkFrom, Apply, StraysApart, Confined, OnlyChanged, Good, Separate, Indices;
    TookSupplies(k.h, frames, k'.h);
    SupplyIsGood(k, frames, k'.h, root);
    if Walk(k.mem, root, op.va).Small() {
      OperateSmall(k, root, op, frames, k');
    } else {
      forall r | r in k.roots ensures Unmoved(k, k', r) {
        OperateStray(k, root, op, frames, k', r);
      }
      forall r, b | r in k.roots && IsTable(k.mem, r, b) ensures Place(b) in k'.h.out {
        assert Held(k, r);
      }
      AllUnmoved(k, k');
    }
  }

  lemma OperateStray(k: Kernel, root: Frame, op: PageOp, frames: seq<Frame>, k': Kernel, r: Frame)
    requires Consistent(k) && KernelStep(k, Operate(root, op, frames), k') && r in k.roots && !Walk(k.mem, root, op.va).Small()
    ensures Unmoved(k, k', r)
  {
    hide Kempt, Took, Shaped, IsTable, WalkFrom, Apply, StraysApart, Separate, Indices, EntryTable, Store, Consistent, NoDup, IsFrame;
    SupplyIsGood(k, frames, k'.h, root);
    SupplyIsGood(k, frames, k'.h, r);
    ApplyStores(State(k.mem, frames), root, op);
    UnderLargePage(State(k.mem, frames), root, op.va, EntryOf(op), r);
  }

  lemma OperateSmall(k: Kernel, root: Frame, op: PageOp, frames: seq<Frame>, k': Kernel)
    requires Consistent(k) && KernelStep(k, Operate(root, op, frames), k') && Walk(k.mem, root, op.va).Small()
    requires Supplied(k.h, frames, k'.h) && Good(State(k.mem, frames), root)
    ensures Consistent(k')
  {
    hide Kempt, Took, Shaped, IsTable, WalkFrom, Apply, StraysApart, OnlyChanged, Separate, Indices, NoDup, IsFrame;
    var (st, st') := (State(k.mem, frames), State(k'.mem, []));
    ApplyCorrect(st, root, op);
    assert Held(k, root);
    forall r | r in k.roots && r != root ensures Unmoved(k, k', r) && Held(k', r) && Separate(k'.mem, r, root) && Separate(k'.mem, root, r) {
      SupplyIsGood(k, frames, k'.h, r);
      assert Separate(k.mem, r, root) && Held(k, r);
      ConfinedSpares(st, st', root, r);
      SeparateBack(k'.mem, r, root);
    }
    forall r, s | r in k'.roots && s in k'.roots && r != s ensures Separate(k'.mem, r, s) {
      if r != root && s != root {
        assert Unmoved(k, k', r) && Unmoved(k, k', s) && Separate(k.mem, r, s);
        SameSeparate(k, k', r, s);
      }
    }
  }

  lemma SeparateBack(mem: Memory, r: Frame, s: Frame)
    requires Separate(mem, r, s)
    ensures Separate(mem, s, r)
  {
    hide IsTable;
  }

  lemma SameSeparate(k: Kernel, k': Kernel, r: Frame, s: Frame)
    requires Unmoved(k, k', r) && Unmoved(k, k', s) && Separate(k.mem, r, s)
    ensures Separate(k'.mem, r, s)
  {
    hide IsTable, Shaped;
  }

  lemma CloneKeeps(k: Kernel, copy: Frame, frames: seq<Frame>, k': Kernel)
    requires Consistent(k) && KernelStep(k, Clone(copy, frames), k')
    ensures Consistent(k')
  {
    hide Kempt, Took, Shaped, IsTable, WalkFrom, NoDup, IsFrame;
    TookSupplies(k.h, frames, k'.h);
    forall r | r in k.roots ensures Unmoved(k, k', r) {
      assert Held(k, r);
      FrameShaped(k.mem, k'.mem, r);
    }
    RootJoins(k, k', copy, frames);
  }

  // ---------- runs ----------

  ghost predicate Ran(k: Kernel, ops: seq<KernelOp>, k': Kernel)
    decreases |ops|
  {
    if ops == [] then k' == k
    else exists k1: Kernel :: KernelStep(k, ops[0], k1) && Ran(k1, ops[1..], k')
  }

  lemma {:induction false} RunStaysConsistent(k: Kernel, ops: seq<KernelOp>, k': Kernel)
    requires Consistent(k) && Ran(k, ops, k')
    ensures Consistent(k')
    decreases |ops|
  {
    hide Consistent, KernelStep;
    if ops != [] {
      var k1: Kernel :| KernelStep(k, ops[0], k1) && Ran(k1, ops[1..], k');
      StepKeeps(k, ops[0], k1);
      RunStaysConsistent(k1, ops[1..], k');
    }
  }

  // An outstanding page behind the metadata of its region, which is not free and which no request
  // returns.
  ghost predicate Engaged(h: Holdings, a: nat) {
    && a in h.out && (exists j: nat :: PageAt(h.zones, j, a))
    && (forall j: nat, page: nat :: j < |h.zones.regions| && page in h.zones.regions[j].free ==> a != Exact(h.zones.regions[j], page))
    && forall kind :: !Returns(h.zones, kind, a)
  }

  ghost predicate Returns(s: ZoneState, kind: Kind, a: nat) {
    s.start <= |s.regions| && InBounds(Order(s, kind), |s.regions|) && Request(s, kind).0 == Got(a)
  }

  // Every table of a root in use is such a page, and belongs to no other root.
  ghost predicate TablesHeld(k: Kernel) {
    forall r, b :: r in k.roots && IsTable(k.mem, r, b) ==>
      Engaged(k.h, Place(b)) && forall s :: s in k.roots && IsTable(k.mem, s, b) ==> s == r
  }

  // So it is in every state that a run from boot reaches, with regions of at most 2^20 pages.
  lemma TablesStayHeld(entries: seq<MapEntry>, h: Holdings, mem: Memory, ops: seq<KernelOp>, k: Kernel)
    requires Booted(entries, h) && AllExactable(entries) && Ran(Kernel(h, mem, {}), ops, k)
    ensures TablesHeld(k)
    ensures forall r, frames, h' :: r in k.roots && Took(k.h, frames, h') ==> Good(State(k.mem, frames), r)
  {
    hide Booted, AllExactable, Ran, Took, Kempt, IsTable, Shaped, Good, Engaged;
    BootKempt(entries, h);
    RunStaysConsistent(Kernel(h, mem, {}), ops, k);
    forall r, b | r in k.roots && IsTable(k.mem, r, b)
      ensures Engaged(k.h, Place(b)) && forall s :: s in k.roots && IsTable(k.mem, s, b) ==> s == r
    {
      assert Held(k, r);
      OutIsEngaged(k.h, Place(b));
      assert forall s :: s in k.roots && s != r ==> Separate(k.mem, r, s);
    }
    forall r, frames, h' | r in k.roots && Took(k.h, frames, h') ensures Good(State(k.mem, frames), r) {
      SupplyIsGood(k, frames, h', r);
    }
  }

  lemma OutIsEngaged(h: Holdings, a: nat)
    requires Kempt(h) && a in h.out
    ensures Engaged(h, a)
  {
    hide Sound, PageAt, Request, Order, Accounted;
    OutIsPage(h, a);
    FreeIsNotOut(h);
    forall kind ensures !Returns(h.zones, kind, a) {
      AskStep(h, kind);
    }
  }

  lemma FreeIsNotOut(h: Holdings)
    requires Kempt(h)
    ensures forall j: nat, page: nat :: j < |h.zones.regions| && page in h.zones.regions[j].free ==> Exact(h.zones.regions[j], page) !in h.out
  {
    hide Sound;
  }

  lemma OutIsPage(h: Holdings, a: nat)
    requires Kempt(h) && a in h.out
    ensures exists j: nat :: PageAt(h.zones, j, a)
  {
    hide Sound;
    var b := BankOf(h);
    var j: nat, page: nat :| Usable(b, j, page) && a == Exact(b.regions[j], page);
    assert PageAt(h.zones, j, a);
  }

  // ---------- beyond 2^20 pages ----------

  // Requests of the zones alone, as a run of the kernel.
  function Demands(n: nat): seq<KernelOp> {
    seq(n, _ => Demand(Normal))
  }

  lemma {:induction false} DemandsRun(h: Holdings, ops: seq<ZoneOp>, h': Holdings, mem: Memory)
    requires Reaches(h, ops, h') && forall op :: op in ops ==> op == Ask(Normal)
    ensures Ran(Kernel(h, mem, {}), Demands(|ops|), Kernel(h', mem, {}))
    decreases |ops|
  {
    hide Sound, After;
    if ops != [] {
      var h1 := After(h, Ask(Normal));
      assert ops[0] in ops && ops == [ops[0]] + ops[1..];
      assert forall op :: op in ops[1..] ==> op in ops;
      DemandsRun(h1, ops[1..], h', mem);
      assert Demands(|ops|)[1..] == Demands(|ops| - 1);
      assert KernelStep(Kernel(h, mem, {}), Demands(|ops|)[0], Kernel(h1, mem, {}));
    }
  }

  // With a larger region, a run reaches a state in which the next page that is taken is metadata: a
  // new root at that address is a table in the allocator's own memory.
  lemma TablesDoNotStayHeld(entries: seq<MapEntry>, h: Holdings, mem: Memory) returns (ops: seq<KernelOp>, k: Kernel, a: nat)
    requires Booted(entries, h) && !AllExactable(entries)
    ensures Ran(Kernel(h, mem, {}), ops, k)
    ensures forall f :: IsFrame(f) && Place(f) == a ==> exists k': Kernel :: KernelStep(k, NewRoot(f), k') && !TablesHeld(k')
  {
    hide Reaches, Sound, Ran, Order, FirstFree, IsFrame, Booted, AllExactable, Request, PageAt;
    var zoneOps, h' := BigEntry(entries, h);
    DemandsRun(h, zoneOps, h', mem);
    ops, k := Demands(|zoneOps|), Kernel(h', mem, {});
    a := Request(h'.zones, Normal).0.address;
    forall f | IsFrame(f) && Place(f) == a ensures exists k': Kernel :: KernelStep(k, NewRoot(f), k') && !TablesHeld(k') {
      var h1 := After(h', Ask(Normal));
      var k' := Kernel(h1, mem[f := map[]], {f});
      assert Took(h', [f], h1);
      RequestKeepsPages(h', a);
      RootIsTable(k'.mem, f);
      assert KernelStep(k, NewRoot(f), k') && !TablesHeld(k');
    }
  }

  lemma RequestKeepsPages(h: Holdings, a: nat)
    requires Sound(h.zones)
    requires forall j: nat :: !PageAt(h.zones, j, a)
    ensures forall j: nat :: !PageAt(After(h, Ask(Normal)).zones, j, a)
  {
    hide Sound, Request, Alloc, Order;
    RequestCorrect(h.zones, Normal);
    if Request(h.zones, Normal).0.Got? {
      var i: nat :| Serves(h.zones, Normal, i) && ServedBy(h.zones, Normal, i);
      AllocShape(h.zones.regions[i]);
      forall j: nat ensures !PageAt(After(h, Ask(Normal)).zones, j, a) {
        assert !PageAt(h.zones, j, a);
      }
    }
  }
}
