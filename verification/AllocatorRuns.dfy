/**
  Runs of allocation and deallocation over several physical regions: no page is ever outstanding
  twice, none is lost, and the metadata pages are never handed out.
 */
module AllocatorRuns {
  import opened Options
  import opened Sequences
  import opened PhysicalAllocator

  // Freeing what was just allocated restores the region exactly when the page is below 2^20, where
  // the 32-bit product of the address computation is exact.
  lemma AllocThenFree(r: Region)
    requires Fits(r.base, r.size) && StackOk(r.size, r.free) && r.free != []
    ensures Alloc(r).0.Some?
    ensures Free(Alloc(r).1, Alloc(r).0.value) == Some(r) <==> r.free[|r.free| - 1] < 0x10_0000
  {
    var (page, rest) := (r.free[|r.free| - 1], r.free[..|r.free| - 1]);
    assert page in r.free && r.free == rest + [page] && page !in rest;
    AddressOfPage(r.base, r.size, page);
    if page >= 0x10_0000 {
      var other := page % 0x10_0000;
      assert (rest + [other])[|rest|] == other;
    }
  }

  // The first allocation in a fresh region already goes wrong when the region has more than 2^20
  // pages: it returns the address of another page.
  lemma FirstAllocation(base: nat, pages: nat)
    requires Fits(base, pages) && 2 <= pages
    ensures MetadataPages(pages) < pages
    ensures var r := Region(base, pages, InitialFree(MetadataPages(pages), pages));
            && Alloc(r).0.Some?
            && (Alloc(r).0 == Some(base + (pages - 1) * PAGE_SIZE) <==> pages <= 0x10_0000)
  {
    MetadataFits(pages, 0);
    AddressOfPage(base, pages, pages - 1);
  }

  // With one page too many, that is the first page of the region, which holds the allocator itself.
  lemma OnePageTooMany(base: nat)
    requires Fits(base, 0x10_0001)
    ensures MetadataPages(0x10_0001) < 0x10_0001
    ensures Alloc(Region(base, 0x10_0001, InitialFree(MetadataPages(0x10_0001), 0x10_0001))).0 == Some(base)
  {
    MetadataFits(0x10_0001, 0);
    WrappedProduct(0x10_0000);
  }

  // ---------- several regions ----------

  // Regions, the number of metadata pages of each, and the addresses handed out and not yet freed.
  datatype Bank = Bank(regions: seq<Region>, meta: seq<nat>, out: set<nat>)

  ghost predicate RegionsApart(r: Region, q: Region) {
    r.base + r.size * PAGE_SIZE <= q.base || q.base + q.size * PAGE_SIZE <= r.base
  }

  // Regions that do not overlap.
  ghost predicate Placed(b: Bank) {
    && |b.meta| == |b.regions|
    && (forall k :: 0 <= k < |b.regions| ==> Fits(b.regions[k].base, b.regions[k].size))
    && (forall k, l :: 0 <= k < l < |b.regions| ==> RegionsApart(b.regions[k], b.regions[l]))
  }

  // Regions small enough for the 32-bit product to be exact.
  ghost predicate Exactable(b: Bank) {
    forall k :: 0 <= k < |b.regions| ==> b.regions[k].size <= 0x10_0000
  }

  ghost predicate Layout(b: Bank) {
    Placed(b) && Exactable(b)
  }

  ghost predicate Usable(b: Bank, k: nat, page: nat)
    requires |b.meta| == |b.regions|
  {
    k < |b.regions| && b.meta[k] <= page < b.regions[k].size
  }

  function Exact(r: Region, page: nat): nat {
    r.base + page * PAGE_SIZE
  }

  // Every usable page is either free or outstanding under its own address; nothing else is
  // outstanding, and nothing else is free.
  ghost predicate Accounted(b: Bank) {
    && Layout(b)
    && (forall k :: 0 <= k < |b.regions| ==> NoDup(b.regions[k].free))
    && (forall k: nat, page: nat :: 0 <= k < |b.regions| && page in b.regions[k].free ==> Usable(b, k, page))
    && (forall k: nat, page: nat :: Usable(b, k, page) ==> (page in b.regions[k].free <==> Exact(b.regions[k], page) !in b.out))
    && (forall a :: a in b.out ==> exists k: nat, page: nat :: Usable(b, k, page) && a == Exact(b.regions[k], page))
  }

  // Two usable pages never have the same address.
  lemma ExactInjective(b: Bank, k: nat, page: nat, l: nat, other: nat)
    requires Layout(b) && Usable(b, k, page) && Usable(b, l, other)
    requires Exact(b.regions[k], page) == Exact(b.regions[l], other)
    ensures k == l && page == other
  {
    assert k < l ==> RegionsApart(b.regions[k], b.regions[l]);
    assert l < k ==> RegionsApart(b.regions[l], b.regions[k]);
  }

  function TakeFrom(b: Bank, k: nat): Bank
    requires k < |b.regions|
  {
    var (a, r) := Alloc(b.regions[k]);
    Bank(b.regions[k := r], b.meta, if a.Some? then b.out + {a.value} else b.out)
  }

  function GiveBack(b: Bank, k: nat, address: nat): Option<Bank>
    requires k < |b.regions|
  {
    var r :- Free(b.regions[k], address);
    Some(Bank(b.regions[k := r], b.meta, b.out - {address}))
  }

  // An allocation hands out an address that is not outstanding, of a page that is not metadata.
  lemma TakeKeeps(b: Bank, k: nat)
    requires Accounted(b) && k < |b.regions|
    ensures Accounted(TakeFrom(b, k))
    ensures var a := Alloc(b.regions[k]).0;
            a.Some? ==> a.value !in b.out && exists page: nat :: Usable(b, k, page) && a.value == Exact(b.regions[k], page)
  {
    hide PageAddress, Accounted, Usable, Exact;
    var r := b.regions[k];
    if r.free != [] {
      var (page, rest) := (r.free[|r.free| - 1], r.free[..|r.free| - 1]);
      LastFree(b, k);
      TakeAccounted(b, TakeFrom(b, k), k, page, rest);
    } else {
      assert b.regions[k := r] == b.regions;
    }
  }

  // The last free page of a region goes out under its own address, which is not outstanding.
  lemma LastFree(b: Bank, k: nat)
    requires Accounted(b) && k < |b.regions| && b.regions[k].free != []
    ensures |b.meta| == |b.regions|
    ensures var r := b.regions[k];
            var (page, rest) := (r.free[|r.free| - 1], r.free[..|r.free| - 1]);
            && r.free == rest + [page] && page !in rest && Usable(b, k, page)
            && PageAddress(r.base, page) == Exact(r, page) && Exact(r, page) !in b.out
  {
    hide PageAddress, Fits, RegionsApart;
    var r := b.regions[k];
    var page := r.free[|r.free| - 1];
    assert page in r.free && Usable(b, k, page);
    AddressOfPage(r.base, r.size, page);
  }

  lemma TakeAccounted(b: Bank, b': Bank, k: nat, page: nat, rest: seq<nat>)
    requires Accounted(b) && Usable(b, k, page) && b.regions[k].free == rest + [page] && page !in rest
    requires b' == Bank(b.regions[k := b.regions[k].(free := rest)], b.meta, b.out + {Exact(b.regions[k], page)})
    ensures Accounted(b')
  {
    hide Fits, RegionsApart, Exact;
    TakeLayout(b, b', k);
    assert forall q :: q in rest ==> q in b.regions[k].free;
    assert forall i :: 0 <= i < |rest| ==> rest[i] == b.regions[k].free[i];
    SamePlaces(b, b', k);
    forall l: nat, other: nat | Usable(b', l, other)
      ensures other in b'.regions[l].free <==> Exact(b'.regions[l], other) !in b'.out
    {
      if Exact(b.regions[l], other) == Exact(b.regions[k], page) {
        ExactInjective(b, l, other, k, page);
      }
    }
    forall a | a in b'.out ensures exists l: nat, other: nat :: Usable(b', l, other) && a == Exact(b'.regions[l], other) {
      var l: nat, other: nat :| Usable(b, l, other) && a == Exact(b.regions[l], other);
      assert Usable(b', l, other) && a == Exact(b'.regions[l], other);
    }
  }

  // Usable pages and their addresses do not depend on what is free.
  lemma SamePlaces(b: Bank, b': Bank, k: nat)
    requires k < |b.regions| == |b'.regions| && b'.meta == b.meta && |b.meta| == |b.regions|
    requires b'.regions[k].base == b.regions[k].base && b'.regions[k].size == b.regions[k].size
    requires forall l :: 0 <= l < |b.regions| && l != k ==> b'.regions[l] == b.regions[l]
    ensures forall l: nat, other: nat :: Usable(b', l, other) <==> Usable(b, l, other)
    ensures forall l: nat, other: nat :: l < |b.regions| ==> Exact(b'.regions[l], other) == Exact(b.regions[l], other)
  {
  }

  lemma TakeLayout(b: Bank, b': Bank, k: nat)
    requires Layout(b) && k < |b.regions| == |b'.regions| && b'.meta == b.meta
    requires b'.regions[k].base == b.regions[k].base && b'.regions[k].size == b.regions[k].size
    requires forall l :: 0 <= l < |b.regions| && l != k ==> b'.regions[l] == b.regions[l]
    ensures Layout(b')
  {
    forall l, m | 0 <= l < m < |b.regions| ensures RegionsApart(b'.regions[l], b'.regions[m]) {
      assert RegionsApart(b.regions[l], b.regions[m]);
    }
  }

  // An outstanding address belongs to exactly one region, whose allocator takes it back.
  lemma GiveKeeps(b: Bank, k: nat, address: nat)
    requires Accounted(b) && k < |b.regions| && address in b.out
    ensures GiveBack(b, k, address).Some? <==> InRegion(b.regions[k].base, b.regions[k].size, address)
    ensures GiveBack(b, k, address).Some? ==> Accounted(GiveBack(b, k, address).value)
  {
    var l: nat, page: nat :| Usable(b, l, page) && address == Exact(b.regions[l], page);
    var r := b.regions[l];
    assert PageOf(r.base, address) == page;
    assert page !in r.free;
    if l != k {
      if k < l { assert RegionsApart(b.regions[k], b.regions[l]); } else { assert RegionsApart(b.regions[l], b.regions[k]); }
    } else {
      var b' := GiveBack(b, k, address).value;
      GiveAccounted(b, b', k, page);
    }
  }

  lemma GiveAccounted(b: Bank, b': Bank, k: nat, page: nat)
    requires Accounted(b) && Usable(b, k, page) && page !in b.regions[k].free
    requires b' == Bank(b.regions[k := b.regions[k].(free := b.regions[k].free + [page])], b.meta,
                        b.out - {Exact(b.regions[k], page)})
    ensures Accounted(b')
  {
    hide Fits, RegionsApart, Exact;
    TakeLayout(b, b', k);
    SamePlaces(b, b', k);
    forall l: nat, other: nat | Usable(b', l, other)
      ensures other in b'.regions[l].free <==> Exact(b'.regions[l], other) !in b'.out
    {
      if Exact(b.regions[l], other) == Exact(b.regions[k], page) {
        ExactInjective(b, l, other, k, page);
      }
    }
    forall a | a in b'.out ensures exists l: nat, other: nat :: Usable(b', l, other) && a == Exact(b'.regions[l], other) {
      var l: nat, other: nat :| Usable(b, l, other) && a == Exact(b.regions[l], other);
      assert Usable(b', l, other) && a == Exact(b'.regions[l], other);
    }
  }

  // ---------- runs ----------

  // Allocate in a region, or free an outstanding address through the region that contains it.
  datatype Op = Take(k: nat) | Give(k: nat, address: nat)

  // The operations that the callers are entitled to.
  predicate Allowed(b: Bank, op: Op) {
    && op.k < |b.regions|
    && (op.Give? ==> op.address in b.out && InRegion(b.regions[op.k].base, b.regions[op.k].size, op.address))
  }

  function Step(b: Bank, op: Op): Bank
    requires op.k < |b.regions|
  {
    match op
    case Take(k) => TakeFrom(b, k)
    case Give(k, address) => var r := GiveBack(b, k, address); if r.Some? then r.value else b
  }

  // A run in which only outstanding addresses are freed.
  ghost predicate Runs(b: Bank, ops: seq<Op>, b': Bank)
    decreases |ops|
  {
    if ops == [] then b' == b
    else Allowed(b, ops[0]) && Runs(Step(b, ops[0]), ops[1..], b')
  }

  lemma {:induction false} RunKeepsAccounts(b: Bank, ops: seq<Op>, b': Bank)
    requires Accounted(b) && Runs(b, ops, b')
    ensures Accounted(b')
    decreases |ops|
  {
    hide Accounted, TakeFrom, GiveBack;
    if ops != [] {
      match ops[0] {
        case Take(k) => TakeKeeps(b, k);
        case Give(k, address) => GiveKeeps(b, k, address);
      }
      RunKeepsAccounts(Step(b, ops[0]), ops[1..], b');
    }
  }

  // The regions as they are set up.
  ghost predicate Fresh(b: Bank) {
    && Placed(b) && b.out == {}
    && forall k :: 0 <= k < |b.regions| ==>
         b.meta[k] == MetadataPages(b.regions[k].size) && b.regions[k].free == FreshFree(b.regions[k].size)
  }

  function FreshFree(size: nat): seq<nat> {
    if MetadataPages(size) <= size then InitialFree(MetadataPages(size), size) else []
  }

  lemma FreshAccounted(b: Bank)
    requires Fresh(b) && Exactable(b)
    ensures Accounted(b)
  {
    forall k | 0 <= k < |b.regions|
      ensures NoDup(b.regions[k].free)
      ensures forall page: nat :: page in b.regions[k].free <==> Usable(b, k, page)
    {
      var size := b.regions[k].size;
      MetadataFits(size, 0);
      InitialFreeOk(MetadataPages(size), size);
    }
  }

  // What the next allocation in a region returns is the address of a page that is not outstanding, in
  // range, page-aligned from the base of the region, and not a metadata page.
  ghost predicate WellGiven(b: Bank, k: nat)
    requires k < |b.regions| == |b.meta|
  {
    var (r, a) := (b.regions[k], Alloc(b.regions[k]).0);
    a.Some? ==>
      && a.value !in b.out && InRegion(r.base, r.size, a.value)
      && (a.value - r.base) % PAGE_SIZE == 0 && a.value >= r.base + b.meta[k] * PAGE_SIZE
  }

  lemma NoPageTwice(b: Bank, ops: seq<Op>, b': Bank, k: nat)
    requires Fresh(b) && Exactable(b) && Runs(b, ops, b') && k < |b'.regions|
    ensures |b'.meta| == |b'.regions| && WellGiven(b', k)
  {
    hide Fresh, Runs, Alloc, PageAddress;
    FreshAccounted(b);
    RunKeepsAccounts(b, ops, b');
    TakeKeeps(b', k);
  }

  // ---------- the exact bound ----------

  // In every run from `b`, every allocation is well given.
  ghost predicate NeverShares(b: Bank) {
    forall ops: seq<Op>, b': Bank, k: nat ::
      Runs(b, ops, b') && k < |b'.regions| == |b'.meta| ==> WellGiven(b', k)
  }

  // A page that a region of more than 2^20 pages hands out under the address of a metadata page.
  function BadPage(pages: nat): nat {
    if MetadataPages(pages) <= 0x10_0000 then 0x10_0000 else pages - 1
  }

  // The words of the bitmap and the stack reach into the last metadata page at least.
  lemma BooksFill(pages: nat)
    ensures (MetadataPages(pages) - 1) * PAGE_SIZE <= RequiredSize(pages) < MetadataPages(pages) * PAGE_SIZE && RequiredSize(pages) > 0
  {
  }

  lemma BadPageIsBad(base: nat, pages: nat)
    requires Fits(base, pages) && pages > 0x10_0000
    ensures 0 < MetadataPages(pages) <= BadPage(pages) < pages
    ensures base <= PageAddress(base, BadPage(pages)) < base + RequiredSize(pages) < base + MetadataPages(pages) * PAGE_SIZE
    ensures InRegion(base, pages, PageAddress(base, BadPage(pages)))
  {
    hide PageAddress, MetadataPages;
    MetadataFits(pages, 0);
    AddressOfPage(base, pages, BadPage(pages));
    BooksFill(pages);
    assert BadPage(pages) % 0x10_0000 < MetadataPages(pages);
  }

  // The last free page, once the free pages end there, goes out under such an address.
  lemma BadPageGivenOut(r: Region, meta: nat)
    requires Fits(r.base, r.size) && r.size > 0x10_0000 && meta == MetadataPages(r.size)
    requires meta <= BadPage(r.size) < r.size && r.free == InitialFree(meta, r.size)[..BadPage(r.size) - meta + 1]
    ensures Alloc(r).0.Some? && InRegion(r.base, r.size, Alloc(r).0.value)
    ensures Alloc(r).0.value < r.base + RequiredSize(r.size) < r.base + meta * PAGE_SIZE
  {
    hide PageAddress, MetadataPages, BadPage;
    BadPageIsBad(r.base, r.size);
    assert r.free[|r.free| - 1] == BadPage(r.size);
  }

  // Allocations in one region take its last free pages.
  lemma {:induction false} Drain(b: Bank, k: nat, n: nat) returns (ops: seq<Op>, b': Bank)
    requires k < |b.regions| && n <= |b.regions[k].free|
    ensures Runs(b, ops, b') && b'.meta == b.meta && |b'.regions| == |b.regions|
    ensures b'.regions[k] == b.regions[k].(free := b.regions[k].free[..|b.regions[k].free| - n])
    decreases n
  {
    hide PageAddress;
    if n == 0 {
      ops, b' := [], b;
    } else {
      var rest;
      var next := TakeFrom(b, k);
      rest, b' := Drain(next, k, n - 1);
      ops := [Take(k)] + rest;
      assert ops[1..] == rest && Step(b, ops[0]) == next;
    }
  }

  // Fresh regions never share a page if and only if none has more than 2^20 pages.
  lemma SharesExactly(b: Bank)
    requires Fresh(b)
    ensures NeverShares(b) <==> Exactable(b)
  {
    hide Runs, WellGiven, Placed;
    if Exactable(b) {
      forall ops: seq<Op>, b': Bank, k: nat | Runs(b, ops, b') && k < |b'.regions| == |b'.meta| ensures WellGiven(b', k) {
        NoPageTwice(b, ops, b', k);
      }
    } else {
      var k: nat :| k < |b.regions| && b.regions[k].size > 0x10_0000;
      var ops, b' := SharingRun(b, k);
    }
  }

  // The run that breaks a region of more than 2^20 pages.
  lemma SharingRun(b: Bank, k: nat) returns (ops: seq<Op>, b': Bank)
    requires Fresh(b) && k < |b.regions| && b.regions[k].size > 0x10_0000
    ensures Runs(b, ops, b') && k < |b'.regions| == |b'.meta| && !WellGiven(b', k)
    ensures b'.regions[k].base == b.regions[k].base && b'.regions[k].size == b.regions[k].size && Alloc(b'.regions[k]).0.Some?
    ensures b.regions[k].base <= Alloc(b'.regions[k]).0.value < b.regions[k].base + RequiredSize(b.regions[k].size)
  {
    hide Runs, PageAddress, MetadataPages, BadPage;
    var r := b.regions[k];
    BadPageIsBad(r.base, r.size);
    ops, b' := Drain(b, k, r.size - 1 - BadPage(r.size));
    BadPageGivenOut(b'.regions[k], b.meta[k]);
  }
}
