/**
  Whole runs of requests and releases over the zones, from the memory map on: no page is outstanding
  twice, every outstanding page can be given back, and a request fails only when it has to.
 */
module ZoneRuns {
  import opened Options
  import opened PhysicalAllocator
  import opened AllocatorRuns
  import opened Zones

  // The zones, and the addresses handed out and not yet given back.
  datatype Holdings = Holdings(zones: ZoneState, out: set<nat>)

  // The same with the number of metadata pages of each region.
  function BankOf(h: Holdings): (b: Bank)
    ensures b.regions == h.zones.regions && b.out == h.out && |b.meta| == |b.regions|
  {
    var regions := h.zones.regions;
    Bank(regions, seq(|regions|, i requires 0 <= i < |regions| => MetadataPages(regions[i].size)), h.out)
  }

  ghost predicate Kempt(h: Holdings) {
    Sound(h.zones) && Accounted(BankOf(h))
  }

  // Address `a` is that of a page of region `k` behind its metadata.
  ghost predicate PageAt(s: ZoneState, k: nat, a: nat) {
    && k < |s.regions|
    && InRegion(s.regions[k].base, s.regions[k].size, a)
    && (a - s.regions[k].base) % PAGE_SIZE == 0
    && PageOf(s.regions[k].base, a) >= MetadataPages(s.regions[k].size)
  }

  datatype ZoneOp = Ask(kind: Kind) | GiveUp(address: nat)

  // Callers give back only what is outstanding.
  predicate Permitted(h: Holdings, op: ZoneOp) {
    op.GiveUp? ==> op.address in h.out
  }

  ghost function After(h: Holdings, op: ZoneOp): Holdings
    requires Sound(h.zones)
  {
    match op
    case Ask(kind) =>
      OrderInBounds(h.zones, kind);
      var (outcome, s) := Request(h.zones, kind);
      Holdings(s, if outcome.Got? then h.out + {outcome.address} else h.out)
    case GiveUp(address) =>
      var (outcome, s) := Release(h.zones, address);
      Holdings(s, if outcome.Returned? then h.out - {address} else h.out)
  }

  // A request is an allocation in one region of those that may serve it, or changes nothing.
  lemma AskStep(h: Holdings, kind: Kind)
    requires Kempt(h)
    ensures Kempt(After(h, Ask(kind)))
    ensures InBounds(Order(h.zones, kind), |h.zones.regions|)
    ensures var outcome := Request(h.zones, kind).0;
            outcome.Got? ==> outcome.address !in h.out && exists k: nat :: Serves(h.zones, kind, k) && PageAt(h.zones, k, outcome.address)
  {
    hide Sound, Accounted, Alloc, Request, Serves;
    RequestCorrect(h.zones, kind);
    var (outcome, s) := Request(h.zones, kind);
    if outcome.Got? {
      var k: nat :| Serves(h.zones, kind, k) && ServedBy(h.zones, kind, k);
      AllocShape(h.zones.regions[k]);
      TakeKeeps(BankOf(h), k);
      SameBank(TakeFrom(BankOf(h), k), After(h, Ask(kind)), BankOf(h));
      UsableIsPageAt(h, k, outcome.address);
    }
  }

  lemma UsableIsPageAt(h: Holdings, k: nat, a: nat)
    requires exists page: nat :: Usable(BankOf(h), k, page) && a == Exact(h.zones.regions[k], page)
    ensures PageAt(h.zones, k, a)
  {
  }

  lemma AllocShape(r: Region)
    ensures Alloc(r).1.size == r.size && Alloc(r).1.base == r.base
  {
  }

  lemma SameBank(b: Bank, h: Holdings, before: Bank)
    requires b.regions == h.zones.regions && b.out == h.out && b.meta == before.meta && |before.meta| == |before.regions| == |b.regions|
    requires forall k :: 0 <= k < |b.regions| ==> before.meta[k] == MetadataPages(b.regions[k].size)
    ensures BankOf(h) == b
  {
    assert BankOf(h).meta == b.meta;
  }

  // A release of an outstanding address always succeeds.
  lemma GiveUpStep(h: Holdings, address: nat)
    requires Kempt(h) && address in h.out
    ensures Release(h.zones, address).0 == Returned
    ensures Kempt(After(h, GiveUp(address)))
  {
    hide Sound, RegionsApart, Fits, Free;
    var b := BankOf(h);
    var k: nat, page: nat :| Usable(b, k, page) && address == Exact(b.regions[k], page);
    ReleaseKeepsSound(h.zones, address);
    var owner := Owner(h.zones.regions, address, 0);
    assert owner.Some?;
    GiveKeeps(b, owner.value, address);
    FreeShape(h.zones.regions[owner.value], address);
    SameBank(GiveBack(b, owner.value, address).value, After(h, GiveUp(address)), b);
  }

  lemma FreeShape(r: Region, address: nat)
    ensures Free(r, address).Some? ==> Free(r, address).value.size == r.size && Free(r, address).value.base == r.base
  {
  }

  ghost predicate Reaches(h: Holdings, ops: seq<ZoneOp>, h': Holdings)
    decreases |ops|
  {
    if ops == [] then h' == h
    else Sound(h.zones) && Permitted(h, ops[0]) && Reaches(After(h, ops[0]), ops[1..], h')
  }

  lemma {:induction false} RunStaysKempt(h: Holdings, ops: seq<ZoneOp>, h': Holdings)
    requires Kempt(h) && Reaches(h, ops, h')
    ensures Kempt(h')
    decreases |ops|
  {
    hide Accounted, Sound, After;
    if ops != [] {
      match ops[0] {
        case Ask(kind) => AskStep(h, kind);
        case GiveUp(address) => GiveUpStep(h, address);
      }
      RunStaysKempt(After(h, ops[0]), ops[1..], h');
    }
  }

  // The zones, just set up from a memory map.
  ghost predicate Booted(entries: seq<MapEntry>, h: Holdings) {
    MapOk(entries) && h == Holdings(Setup(entries), {})
  }

  // No region of more than 2^20 pages.
  ghost predicate AllExactable(entries: seq<MapEntry>) {
    forall e :: e in Chosen(entries) ==> e.length / PAGE_SIZE <= 0x10_0000
  }

  lemma BootKempt(entries: seq<MapEntry>, h: Holdings)
    requires Booted(entries, h) && AllExactable(entries)
    ensures Kempt(h)
  {
    SetupSound(entries);
    var chosen := Chosen(entries);
    assert forall k :: 0 <= k < |chosen| ==> chosen[k] in chosen;
    FreshAccounted(BankOf(h));
  }

  // A request returns an address that is not outstanding, of an aligned page behind the metadata of a
  // region that may serve it, below the limit of its kind; it returns one unless all those pages are
  // outstanding; and every outstanding address is taken back.
  ghost predicate Safe(h: Holdings, kind: Kind)
    requires h.zones.start <= |h.zones.regions| && InBounds(Order(h.zones, kind), |h.zones.regions|)
  {
    var outcome := Request(h.zones, kind).0;
    && (outcome.Got? ==>
          && outcome.address !in h.out && outcome.address < Limit(kind)
          && exists k: nat :: Serves(h.zones, kind, k) && PageAt(h.zones, k, outcome.address))
    && (!outcome.Got? ==>
          forall k: nat, a: nat :: Serves(h.zones, kind, k) && PageAt(h.zones, k, a) ==> a in h.out)
    && (forall a :: a in h.out ==> Release(h.zones, a).0 == Returned)
  }

  lemma ZonesNeverShare(entries: seq<MapEntry>, h: Holdings, ops: seq<ZoneOp>, h': Holdings, kind: Kind)
    requires Booted(entries, h) && AllExactable(entries) && Reaches(h, ops, h')
    ensures Sound(h'.zones) && InBounds(Order(h'.zones, kind), |h'.zones.regions|) && Safe(h', kind)
  {
    hide Booted, Reaches, Request, Accounted, Sound, Serves, PageAt, AllExactable;
    BootKempt(entries, h);
    RunStaysKempt(h, ops, h');
    AskStep(h', kind);
    RequestCorrect(h'.zones, kind);
    if !Request(h'.zones, kind).0.Got? {
      forall k: nat, a: nat | Serves(h'.zones, kind, k) && PageAt(h'.zones, k, a) ensures a in h'.out {
        NothingFree(h', k, a);
      }
    }
    forall a | a in h'.out ensures Release(h'.zones, a).0 == Returned {
      GiveUpStep(h', a);
    }
  }

  // All pages of an exhausted region are outstanding.
  lemma NothingFree(h: Holdings, k: nat, a: nat)
    requires Kempt(h) && PageAt(h.zones, k, a) && h.zones.regions[k].free == []
    ensures a in h.out
  {
    hide Sound, Fits;
    var r := h.zones.regions[k];
    var page := PageOf(r.base, a);
    assert Usable(BankOf(h), k, page) && a == Exact(r, page);
  }

  // ---------- the exact bound ----------

  // Every state that a run reaches is safe.
  ghost predicate AlwaysSafe(h: Holdings) {
    forall ops: seq<ZoneOp>, h': Holdings, kind: Kind ::
      (Reaches(h, ops, h') && h'.zones.start <= |h'.zones.regions| && InBounds(Order(h'.zones, kind), |h'.zones.regions|)) ==>
        Safe(h', kind)
  }

  lemma {:induction false} ReachesTwice(h: Holdings, a: seq<ZoneOp>, h1: Holdings, b: seq<ZoneOp>, h2: Holdings)
    requires Reaches(h, a, h1) && Reaches(h1, b, h2)
    ensures Reaches(h, a + b, h2)
    decreases |a|
  {
    hide Sound, After;
    if a == [] {
      assert a + b == b;
    } else {
      assert (a + b)[1..] == a[1..] + b;
      ReachesTwice(After(h, a[0]), a[1..], h1, b, h2);
    }
  }

  // The regions that a normal request tries before region `j` are exhausted.
  ghost predicate Emptied(s: ZoneState, j: nat)
    requires j <= |s.regions|
  {
    forall i :: s.start <= i < j ==> s.regions[i].free == []
  }

  lemma NextIs(s: ZoneState, j: nat)
    requires Sound(s) && s.start <= j < |s.regions| && Emptied(s, j) && s.regions[j].free != []
    ensures InBounds(Order(s, Normal), |s.regions|) && FirstFree(s.regions, Order(s, Normal)) == Some(j)
  {
    hide Sound, FirstFree;
    OrderInBounds(s, Normal);
    FirstFreeAt(s.regions, Order(s, Normal), j - s.start);
  }

  function Keep(r: Region, m: nat): Region
    requires m <= |r.free|
  {
    r.(free := r.free[..m])
  }

  lemma KeepTwice(regions: seq<Region>, j: nat, m: nat)
    requires j < |regions| && m < |regions[j].free|
    ensures Alloc(regions[j]).1 == Keep(regions[j], |regions[j].free| - 1)
    ensures var next := regions[j := Alloc(regions[j]).1]; next[j := Keep(next[j], m)] == regions[j := Keep(regions[j], m)]
  {
    hide PageAddress;
    var free := regions[j].free;
    assert free[..|free| - 1][..m] == free[..m];
  }

  ghost predicate OnlyAsks(ops: seq<ZoneOp>) {
    forall op :: op in ops ==> op == Ask(Normal)
  }

  // The next normal request returns an address that is not that of a page behind any metadata.
  ghost predicate ReturnsNoPage(h: Holdings)
    requires h.zones.start <= |h.zones.regions| && InBounds(Order(h.zones, Normal), |h.zones.regions|)
  {
    Request(h.zones, Normal).0.Got? && forall j: nat :: !PageAt(h.zones, j, Request(h.zones, Normal).0.address)
  }

  // Normal requests drain one region.
  lemma {:induction false} DrainRegion(h: Holdings, j: nat, m: nat) returns (ops: seq<ZoneOp>, h': Holdings)
    requires Sound(h.zones) && h.zones.start <= j < |h.zones.regions| && Emptied(h.zones, j) && m <= |h.zones.regions[j].free|
    ensures Reaches(h, ops, h') && Sound(h'.zones) && OnlyAsks(ops)
    ensures h'.zones == h.zones.(regions := h.zones.regions[j := Keep(h.zones.regions[j], m)])
    decreases |h.zones.regions[j].free|
  {
    hide Sound, FirstFree, Order;
    var r := h.zones.regions[j];
    if m == |r.free| {
      ops, h' := [], h;
      assert Keep(r, m) == r && h.zones.regions[j := r] == h.zones.regions;
    } else {
      NextIs(h.zones, j);
      RequestCorrect(h.zones, Normal);
      var next := After(h, Ask(Normal));
      KeepTwice(h.zones.regions, j, m);
      assert next.zones == h.zones.(regions := h.zones.regions[j := Alloc(r).1]);
      var rest;
      rest, h' := DrainRegion(next, j, m);
      ops := [Ask(Normal)] + rest;
      assert ops[1..] == rest;
    }
  }

  // Normal requests drain all regions before one.
  lemma {:induction false} DrainBefore(h: Holdings, j: nat) returns (ops: seq<ZoneOp>, h': Holdings)
    requires Sound(h.zones) && h.zones.start <= j <= |h.zones.regions|
    ensures Reaches(h, ops, h') && Sound(h'.zones) && OnlyAsks(ops) && |h'.zones.regions| == |h.zones.regions|
    ensures h'.zones.start == h.zones.start && Emptied(h'.zones, j)
    ensures forall i :: j <= i < |h.zones.regions| ==> h'.zones.regions[i] == h.zones.regions[i]
    decreases j
  {
    hide Sound;
    if j == h.zones.start {
      ops, h' := [], h;
    } else {
      var a, h1 := DrainBefore(h, j - 1);
      var b;
      b, h' := DrainRegion(h1, j - 1, 0);
      ReachesTwice(h, a, h1, b, h');
      ops := a + b;
    }
  }

  // A region of more than 2^20 pages is outside the 16 MB zone, so normal requests get to it.
  lemma BigIsOutside(s: ZoneState, k: nat)
    requires Sound(s) && k < |s.regions| && s.regions[k].size > 0x10_0000
    ensures s.start <= k
  {
  }

  // The run that breaks a region of more than 2^20 pages.
  lemma SharingRequests(entries: seq<MapEntry>, h: Holdings, k: nat) returns (ops: seq<ZoneOp>, h': Holdings)
    requires Booted(entries, h) && k < |h.zones.regions| && h.zones.regions[k].size > 0x10_0000
    ensures Reaches(h, ops, h') && Sound(h'.zones) && InBounds(Order(h'.zones, Normal), |h'.zones.regions|)
    ensures !Safe(h', Normal) && OnlyAsks(ops) && ReturnsNoPage(h')
  {
    hide Sound, Reaches, Setup, Safe, ReturnsNoPage, MetadataPages, BadPage, MapOk;
    SetupSound(entries);
    BigIsOutside(h.zones, k);
    var a, h1 := DrainBefore(h, k);
    var r := h.zones.regions[k];
    BigRegion(entries, h, k);
    var b;
    b, h' := DrainRegion(h1, k, BadPage(r.size) - MetadataPages(r.size) + 1);
    ReachesTwice(h, a, h1, b, h');
    ops := a + b;
    BadRequest(h', k);
  }

  lemma BigRegion(entries: seq<MapEntry>, h: Holdings, k: nat)
    requires Booted(entries, h) && k < |h.zones.regions| && h.zones.regions[k].size > 0x10_0000
    ensures var r := h.zones.regions[k];
            && 0 < MetadataPages(r.size) <= BadPage(r.size) < r.size && r.free == InitialFree(MetadataPages(r.size), r.size)
  {
    hide Sound, MetadataPages, BadPage, MapOk;
    SetupSound(entries);
    SaneRegion(h.zones, k);
    BadPageIsBad(h.zones.regions[k].base, h.zones.regions[k].size);
  }

  lemma SaneRegion(s: ZoneState, k: nat)
    requires Sound(s) && k < |s.regions|
    ensures Fits(s.regions[k].base, s.regions[k].size)
  {
  }

  lemma BadRequest(h: Holdings, k: nat)
    requires Sound(h.zones) && h.zones.start <= k < |h.zones.regions| && Emptied(h.zones, k)
    requires var r := h.zones.regions[k];
             var meta := MetadataPages(r.size);
             && r.size > 0x10_0000 && meta <= BadPage(r.size) < r.size
             && r.free == InitialFree(meta, r.size)[..BadPage(r.size) - meta + 1]
    ensures InBounds(Order(h.zones, Normal), |h.zones.regions|) && !Safe(h, Normal) && ReturnsNoPage(h)
  {
    hide Sound, MetadataPages, BadPage, Order, FirstFree;
    var r := h.zones.regions[k];
    SaneRegion(h.zones, k);
    NextIs(h.zones, k);
    RequestCorrect(h.zones, Normal);
    BadPageGivenOut(r, MetadataPages(r.size));
    var a := Request(h.zones, Normal).0.address;
    assert a == Alloc(r).0.value;
    forall l: nat | PageAt(h.zones, l, a) ensures false {
      assert Owns(h.zones, l, a) && Owns(h.zones, k, a);
      OwnerUnique(h.zones, l, k, a);
    }
  }

  // Runs from boot are safe if and only if no region has more than 2^20 pages.
  lemma ZonesShareExactly(entries: seq<MapEntry>, h: Holdings)
    requires Booted(entries, h)
    ensures AlwaysSafe(h) <==> AllExactable(entries)
  {
    hide Safe, Reaches, Sound, Order, Booted, AllExactable, Request;
    if AllExactable(entries) {
      forall ops: seq<ZoneOp>, h': Holdings, kind: Kind |
        Reaches(h, ops, h') && h'.zones.start <= |h'.zones.regions| && InBounds(Order(h'.zones, kind), |h'.zones.regions|)
        ensures Safe(h', kind)
      {
        ZonesNeverShare(entries, h, ops, h', kind);
      }
    } else {
      var ops, h' := BigEntry(entries, h);
    }
  }

  lemma BigEntry(entries: seq<MapEntry>, h: Holdings) returns (ops: seq<ZoneOp>, h': Holdings)
    requires Booted(entries, h) && !AllExactable(entries)
    ensures Reaches(h, ops, h') && Sound(h'.zones) && h'.zones.start <= |h'.zones.regions|
    ensures InBounds(Order(h'.zones, Normal), |h'.zones.regions|) && !Safe(h', Normal) && OnlyAsks(ops) && ReturnsNoPage(h')
  {
    hide Safe, Reaches, Sound, Order, MapOk, Request, FirstFree, ReturnsNoPage;
    var chosen := Chosen(entries);
    var e :| e in chosen && e.length / PAGE_SIZE > 0x10_0000;
    var k :| 0 <= k < |chosen| && chosen[k] == e;
    ops, h' := SharingRequests(entries, h, k);
    OrderInBounds(h'.zones, Normal);
  }
}
