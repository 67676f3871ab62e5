/**
  The zones over the allocators of all usable regions, as values: which regions a request tries and
  in which order, what it hands out, who takes a page back, and what holds over whole runs.
 */
module Zones {
  import opened Options
  import opened PhysicalAllocator
  import opened AllocatorRuns

  const MB16 := 16 * 1024 * 1024
  const GB4 := 4 * 1024 * 1024 * 1024

  datatype Kind = Normal | Below16MB | Below4GB

  // `NullPointer` is the access through the head of an empty list, which is null.
  datatype Outcome = Got(address: nat) | Exhausted | NullPointer

  // All regions in list order, the position of the first one outside the 16 MB zone, and the
  // positions of the regions of the two zones.
  datatype ZoneState = ZoneState(regions: seq<Region>, start: nat, zone16: seq<nat>, zone4: seq<nat>)

  ghost predicate EndsBelow(r: Region, limit: nat) {
    r.base + r.size * PAGE_SIZE < limit
  }

  ghost predicate Sane(r: Region) {
    Fits(r.base, r.size) && StackOk(r.size, r.free)
  }

  // Regions that do not overlap, and zones that are what their names say.
  ghost predicate Sound(s: ZoneState) {
    && (forall k :: 0 <= k < |s.regions| ==> Sane(s.regions[k]))
    && (forall k, l :: 0 <= k < l < |s.regions| ==> RegionsApart(s.regions[k], s.regions[l]))
    && ZonesSound(s)
  }

  ghost predicate ZonesSound(s: ZoneState) {
    && s.start <= |s.regions|
    && (forall k :: k in s.zone16 ==> k < |s.regions| && EndsBelow(s.regions[k], MB16))
    && (forall k :: k in s.zone4 ==> k < |s.regions| && EndsBelow(s.regions[k], GB4))
    && (forall k: nat :: k < s.start ==> k in s.zone16)
  }

  // ---------- requests ----------

  function Positions(lo: nat, hi: nat): (r: seq<nat>)
    requires lo <= hi
    ensures |r| == hi - lo && forall i :: 0 <= i < |r| ==> r[i] == lo + i
    ensures forall k: nat :: k in r <==> lo <= k < hi
    decreases hi - lo
  {
    if lo == hi then [] else [lo] + Positions(lo + 1, hi)
  }

  // The regions a request tries, in order.
  function Order(s: ZoneState, kind: Kind): (r: seq<nat>)
    requires s.start <= |s.regions|
  {
    match kind
    case Normal => Positions(s.start, |s.regions|) + s.zone16
    case Below16MB => s.zone16
    case Below4GB => s.zone4
  }

  // The last list that a request walks is empty.
  predicate LastListEmpty(s: ZoneState, kind: Kind) {
    if kind == Below4GB then s.zone4 == [] else s.zone16 == []
  }

  ghost predicate InBounds(order: seq<nat>, n: nat) {
    forall i :: 0 <= i < |order| ==> order[i] < n
  }

  // The first region in an order that has a free page.
  function FirstFree(regions: seq<Region>, order: seq<nat>): (r: Option<nat>)
    requires InBounds(order, |regions|)
    ensures r.Some? ==> r.value in order && regions[r.value].free != []
    ensures r.None? <==> forall k :: k in order ==> regions[k].free == []
  {
    if order == [] then None
    else if regions[order[0]].free != [] then Some(order[0])
    else FirstFree(regions, order[1..])
  }

  // A walk that has met only exhausted regions finds its page in the next one.
  lemma {:induction false} FirstFreeAt(regions: seq<Region>, order: seq<nat>, i: nat)
    requires InBounds(order, |regions|) && i < |order| && regions[order[i]].free != []
    requires forall j :: 0 <= j < i ==> regions[order[j]].free == []
    ensures FirstFree(regions, order) == Some(order[i])
  {
    if i > 0 {
      FirstFreeAt(regions, order[1..], i - 1);
    }
  }

  lemma {:induction false} FirstFreeConcat(regions: seq<Region>, a: seq<nat>, b: seq<nat>)
    requires InBounds(a + b, |regions|)
    ensures InBounds(a, |regions|) && InBounds(b, |regions|)
    ensures FirstFree(regions, a + b) == if FirstFree(regions, a).Some? then FirstFree(regions, a) else FirstFree(regions, b)
  {
    assert forall k :: k in a ==> k in a + b;
    assert forall k :: k in b ==> k in a + b;
    if a == [] {
      assert a + b == b;
    } else {
      assert (a + b)[1..] == a[1..] + b;
      assert a[0] in a + b && a + b == [a[0]] + (a[1..] + b);
      FirstFreeConcat(regions, a[1..], b);
    }
  }

  lemma OrderInBounds(s: ZoneState, kind: Kind)
    requires Sound(s)
    ensures s.start <= |s.regions| && InBounds(Order(s, kind), |s.regions|)
  {
    hide Sane, RegionsApart, EndsBelow;
    var order := Order(s, kind);
    assert forall k :: k in order ==> k < |s.regions|;
    assert forall i :: 0 <= i < |order| ==> order[i] in order;
  }

  function Request(s: ZoneState, kind: Kind): (Outcome, ZoneState)
    requires s.start <= |s.regions| && InBounds(Order(s, kind), |s.regions|)
  {
    match FirstFree(s.regions, Order(s, kind))
    case Some(k) =>
      var (a, r) := Alloc(s.regions[k]);
      (Got(a.Extract()), s.(regions := s.regions[k := r]))
    case None => (if LastListEmpty(s, kind) then NullPointer else Exhausted, s)
  }

  function Limit(kind: Kind): nat {
    match kind
    case Normal => 0x1_0000_0000_0000_0000
    case Below16MB => 0x100_0000
    case Below4GB => 0x1_0000_0000
  }

  // The regions that may serve a request: all of them, or those of the zone.
  ghost predicate Serves(s: ZoneState, kind: Kind, k: nat) {
    match kind
    case Normal => k < |s.regions|
    case Below16MB => k in s.zone16
    case Below4GB => k in s.zone4
  }

  // A request succeeds exactly when some region that may serve it has a free page; a normal one
  // therefore fails only when every region is exhausted.  A failing request goes through a null
  // pointer exactly when the last list it walks is empty.  An address is below the zone's limit.
  lemma RequestCorrect(s: ZoneState, kind: Kind)
    requires Sound(s)
    ensures s.start <= |s.regions| && InBounds(Order(s, kind), |s.regions|)
    ensures Request(s, kind).0.Got? <==> exists k: nat :: Serves(s, kind, k) && s.regions[k].free != []
    ensures Request(s, kind).0.NullPointer? <==>
              && (if kind == Below4GB then s.zone4 == [] else s.zone16 == [])
              && (kind == Normal ==> forall k: nat :: k < |s.regions| ==> s.regions[k].free == [])
    ensures Request(s, kind).0.Got? && kind == Below16MB ==> Request(s, kind).0.address < 0x100_0000
    ensures Request(s, kind).0.Got? && kind == Below4GB ==> Request(s, kind).0.address < 0x1_0000_0000
    ensures Request(s, kind).0.Got? ==> Request(s, kind).0.address < 0x1_0000_0000_0000_0000
    ensures Request(s, kind).0.Got? ==> exists k: nat :: Serves(s, kind, k) && ServedBy(s, kind, k)
    ensures !Request(s, kind).0.Got? ==> Request(s, kind).1 == s
    ensures Sound(Request(s, kind).1)
  {
    OrderInBounds(s, kind);
    OrderServes(s, kind);
    var first := FirstFree(s.regions, Order(s, kind));
    if first.Some? {
      var k := first.value;
      AllocSane(s.regions[k]);
      assert Serves(s, kind, k) && ServedBy(s, kind, k);
      ReplaceSound(s, k, Alloc(s.regions[k]).1);
    }
  }

  // A position of a list holds the first region on it with a free page.
  ghost predicate FirstOn(s: ZoneState, list: seq<nat>, i: nat) {
    && i < |list| && list[i] < |s.regions| && s.regions[list[i]].free != []
    && forall j :: 0 <= j < i && list[j] < |s.regions| ==> s.regions[list[j]].free == []
  }

  // Requests for a zone take the last free page of the first region on the zone's list that has one.
  // A normal request takes it from the first such region at or behind `start`, and only if there is
  // none, from the first one of the 16 MB zone.
  lemma RequestTakesFirst(s: ZoneState, kind: Kind)
    requires Sound(s)
    ensures s.start <= |s.regions| && InBounds(Order(s, kind), |s.regions|)
    ensures forall i: nat :: kind == Below16MB && FirstOn(s, s.zone16, i) ==> ServedBy(s, kind, s.zone16[i])
    ensures forall i: nat :: kind == Below4GB && FirstOn(s, s.zone4, i) ==> ServedBy(s, kind, s.zone4[i])
    ensures forall k: nat :: kind == Normal && FirstBehind(s, k) ==> ServedBy(s, kind, k)
    ensures forall i: nat :: kind == Normal && NoneBehind(s) && FirstOn(s, s.zone16, i) ==> ServedBy(s, kind, s.zone16[i])
  {
    hide Sane, RegionsApart, EndsBelow, Sound, FirstFree, ServedBy;
    OrderInBounds(s, kind);
    var order := Order(s, kind);
    forall i: nat | i < |order| && FirstOn(s, order, i) ensures ServedBy(s, kind, order[i]) {
      FirstFreeAt(s.regions, order, i);
      ServedByFirst(s, kind, order[i]);
    }
    if kind == Normal {
      NormalOrder(s);
    }
  }

  ghost predicate FirstBehind(s: ZoneState, k: nat) {
    s.start <= k < |s.regions| && s.regions[k].free != [] && forall j :: s.start <= j < k ==> s.regions[j].free == []
  }

  ghost predicate NoneBehind(s: ZoneState) {
    forall j :: s.start <= j < |s.regions| ==> s.regions[j].free == []
  }

  lemma NormalOrder(s: ZoneState)
    requires s.start <= |s.regions| && InBounds(Order(s, Normal), |s.regions|)
    ensures forall k: nat :: FirstBehind(s, k) ==> k - s.start < |Order(s, Normal)| && Order(s, Normal)[k - s.start] == k && FirstOn(s, Order(s, Normal), k - s.start)
    ensures forall i: nat :: NoneBehind(s) && FirstOn(s, s.zone16, i) ==>
              var n := |s.regions| - s.start + i;
              n < |Order(s, Normal)| && Order(s, Normal)[n] == s.zone16[i] && FirstOn(s, Order(s, Normal), n)
  {
    var n := |s.regions| - s.start;
    var order := Order(s, Normal);
    assert |order| == n + |s.zone16|;
    assert forall j :: 0 <= j < n ==> order[j] == s.start + j;
    assert forall j :: 0 <= j < |s.zone16| ==> order[n + j] == s.zone16[j];
    forall i: nat | NoneBehind(s) && FirstOn(s, s.zone16, i) ensures FirstOn(s, order, n + i) {
      forall j | 0 <= j < n + i && order[j] < |s.regions| ensures s.regions[order[j]].free == [] {
        if j >= n {
          assert order[j] == s.zone16[j - n];
        }
      }
    }
  }

  lemma ServedByFirst(s: ZoneState, kind: Kind, k: nat)
    requires Sound(s) && InBounds(Order(s, kind), |s.regions|) && FirstFree(s.regions, Order(s, kind)) == Some(k)
    ensures ServedBy(s, kind, k)
  {
    hide Sane, RegionsApart, EndsBelow;
    AllocShapes(s.regions[k]);
  }

  lemma AllocShapes(r: Region)
    ensures r.free != [] ==> Alloc(r).0.Some?
  {
  }

  // The outcome is a page of region `k`, and only that region changes.
  ghost predicate ServedBy(s: ZoneState, kind: Kind, k: nat)
    requires Sound(s)
    requires InBounds(Order(s, kind), |s.regions|)
  {
    && k < |s.regions|
    && var (a, r) := Alloc(s.regions[k]);
       a.Some? && Request(s, kind) == (Got(a.value), s.(regions := s.regions[k := r]))
  }

  lemma OrderServes(s: ZoneState, kind: Kind)
    requires Sound(s)
    ensures forall k: nat :: k in Order(s, kind) <==> Serves(s, kind, k)
  {
    hide Sane, RegionsApart, EndsBelow;
  }

  lemma AllocSane(r: Region)
    requires Sane(r) && r.free != []
    ensures Alloc(r).0.Some? && Sane(Alloc(r).1) && InRegion(r.base, r.size, Alloc(r).0.value)
  {
    assert r.free[|r.free| - 1] in r.free;
    var rest := r.free[..|r.free| - 1];
    assert forall page :: page in rest ==> page in r.free;
    assert StackOk(r.size, rest);
    AddressOfPage(r.base, r.size, r.free[|r.free| - 1]);
  }

  lemma ReplaceSound(s: ZoneState, k: nat, r: Region)
    requires Sound(s) && k < |s.regions| && Sane(r)
    requires r.base == s.regions[k].base && r.size == s.regions[k].size
    ensures Sound(s.(regions := s.regions[k := r]))
  {
    hide Sane;
    var regions := s.regions[k := r];
    forall i, j | 0 <= i < j < |regions| ensures RegionsApart(regions[i], regions[j]) {
      assert RegionsApart(s.regions[i], s.regions[j]);
    }
  }

  // ---------- returns ----------

  // Some region contains the address, and its page is not free there.
  ghost predicate Returnable(s: ZoneState, k: nat, address: nat) {
    && k < |s.regions| && s.regions[k].base <= address < s.regions[k].base + s.regions[k].size * 4096
    && (address - s.regions[k].base) / 4096 !in s.regions[k].free
  }

  // A release succeeds exactly then; the page becomes the top of that region's free pages, and nothing
  // else changes.  Otherwise nothing changes at all.
  ghost predicate Released(s: ZoneState, address: nat, outcome: FreeOutcome, s': ZoneState) {
    && (outcome == NullAccess <==> s.regions == [])
    && (outcome == Returned <==> exists k: nat :: Returnable(s, k, address))
    && (outcome != Returned ==> s' == s)
    && forall k: nat :: Returnable(s, k, address) ==>
         var r := s.regions[k]; s' == s.(regions := s.regions[k := r.(free := r.free + [(address - r.base) / 4096])])
  }

  lemma ReleaseExactly(s: ZoneState, address: nat)
    requires Sound(s)
    ensures Released(s, address, Release(s, address).0, Release(s, address).1)
  {
    hide Sound, Sane, RegionsApart;
    forall k: nat | Returnable(s, k, address) ensures Owner(s.regions, address, 0) == Some(k) {
      var owner := Owner(s.regions, address, 0);
      assert owner.Some?;
      assert Owns(s, k, address) && Owns(s, owner.value, address);
      OwnerUnique(s, k, owner.value, address);
    }
    if Release(s, address).0 == Returned {
      assert Returnable(s, Owner(s.regions, address, 0).value, address);
    }
  }

  // `Panicked` also stands for a failed assertion of the allocator.
  datatype FreeOutcome = Returned | Panicked | NullAccess

  ghost predicate Owns(s: ZoneState, k: nat, address: nat) {
    k < |s.regions| && InRegion(s.regions[k].base, s.regions[k].size, address)
  }

  // At most one region contains an address.
  lemma OwnerUnique(s: ZoneState, k: nat, l: nat, address: nat)
    requires Sound(s) && Owns(s, k, address) && Owns(s, l, address)
    ensures k == l
  {
    assert k < l ==> RegionsApart(s.regions[k], s.regions[l]);
    assert l < k ==> RegionsApart(s.regions[l], s.regions[k]);
  }

  // The first region that contains an address.
  function Owner(regions: seq<Region>, address: nat, from: nat): (r: Option<nat>)
    requires from <= |regions|
    ensures r.Some? ==> from <= r.value < |regions| && InRegion(regions[r.value].base, regions[r.value].size, address)
    ensures r.None? <==> forall k :: from <= k < |regions| ==> !InRegion(regions[k].base, regions[k].size, address)
    decreases |regions| - from
  {
    if from == |regions| then None
    else if InRegion(regions[from].base, regions[from].size, address) then Some(from)
    else Owner(regions, address, from + 1)
  }

  function Release(s: ZoneState, address: nat): (FreeOutcome, ZoneState) {
    if s.regions == [] then (NullAccess, s)
    else
      match Owner(s.regions, address, 0)
      case None => (Panicked, s)
      case Some(k) =>
        match Free(s.regions[k], address)
        case None => (Panicked, s)
        case Some(r) => (Returned, s.(regions := s.regions[k := r]))
  }

  // A release by way of the owner.
  lemma ReleaseSteps(s: ZoneState, address: nat)
    ensures s.regions == [] ==> Release(s, address) == (NullAccess, s)
    ensures s.regions != [] && Owner(s.regions, address, 0).None? ==> Release(s, address) == (Panicked, s)
    ensures Owner(s.regions, address, 0).Some? ==>
              var k := Owner(s.regions, address, 0).value;
              var r := Free(s.regions[k], address);
              Release(s, address) == if r.Some? then (Returned, s.(regions := s.regions[k := r.value])) else (Panicked, s)
  {
    hide Free;
  }

  lemma ReleaseKeepsSound(s: ZoneState, address: nat)
    requires Sound(s)
    ensures Sound(Release(s, address).1)
  {
    if Release(s, address).0.Returned? {
      var k := Owner(s.regions, address, 0).value;
      var r := s.regions[k];
      assert PageOf(r.base, address) < r.size;
      ReplaceSound(s, k, Free(r, address).value);
    }
  }

  // What a request handed out, the release gives back to the region it came from: the state is as
  // before exactly when the page is below 2^20.
  lemma RequestThenRelease(s: ZoneState, kind: Kind, k: nat)
    requires Sound(s) && InBounds(Order(s, kind), |s.regions|)
    requires FirstFree(s.regions, Order(s, kind)) == Some(k)
    ensures Request(s, kind).0.Got?
    ensures Release(Request(s, kind).1, Request(s, kind).0.address) == (Returned, s)
            <==> s.regions[k].free[|s.regions[k].free| - 1] < 0x10_0000
  {
    var (outcome, s') := Request(s, kind);
    var r := s.regions[k];
    AllocSane(r);
    AllocThenFree(r);
    ReplaceSound(s, k, Alloc(r).1);
    var l := Owner(s'.regions, outcome.address, 0);
    assert Owns(s', k, outcome.address);
    if l.Some? {
      assert Owns(s', l.value, outcome.address);
      OwnerUnique(s', k, l.value, outcome.address);
    }
    var back := Free(Alloc(r).1, outcome.address);
    if back == Some(r) {
      assert s'.regions[k := r] == s.regions;
    } else if back.Some? {
      assert s'.regions[k := back.value][k] != s.regions[k];
    }
  }

  // ---------- setup ----------

  datatype MapEntry = MapEntry(base: nat, length: nat, usable: bool)

  predicate Wanted(e: MapEntry) {
    e.usable && e.length > PAGE_SIZE
  }

  // What the memory map promises of the entries that are used.
  ghost predicate EntryOk(e: MapEntry) {
    e.length / 4096 <= 0xFFFF_FFFF && e.base + e.length < 0x1_0000_0000_0000_0000
  }

  ghost predicate EntriesApart(e: MapEntry, f: MapEntry) {
    e.base + e.length <= f.base || f.base + f.length <= e.base
  }

  ghost predicate MapOk(entries: seq<MapEntry>) {
    && (forall i :: 0 <= i < |entries| && entries[i].usable && entries[i].length > 4096 ==> EntryOk(entries[i]))
    && (forall i, j :: 0 <= i < j < |entries| && entries[i].usable && entries[i].length > 4096 && entries[j].usable && entries[j].length > 4096 ==>
          EntriesApart(entries[i], entries[j]))
  }

  // The entries that get an allocator.
  function Chosen(entries: seq<MapEntry>): (chosen: seq<MapEntry>)
    ensures forall e :: e in chosen <==> e in entries && Wanted(e)
  {
    if entries == [] then []
    else
      var last := entries[|entries| - 1];
      Chosen(entries[..|entries| - 1]) + if Wanted(last) then [last] else []
  }

  function FreshRegion(e: MapEntry): Region {
    Region(e.base, e.length / PAGE_SIZE, FreshFree(e.length / PAGE_SIZE))
  }

  predicate InZone(e: MapEntry, limit: nat) {
    e.base < limit && e.base + e.length < limit
  }

  // The positions of the entries of a zone.
  function Zone(chosen: seq<MapEntry>, limit: nat): (r: seq<nat>)
    ensures forall k: nat :: k in r <==> k < |chosen| && InZone(chosen[k], limit)
  {
    if chosen == [] then []
    else
      var n := |chosen| - 1;
      Zone(chosen[..n], limit) + if InZone(chosen[n], limit) then [n] else []
  }

  // The position of the first entry outside a zone.
  function FirstOutside(chosen: seq<MapEntry>, limit: nat): (r: nat)
    ensures r <= |chosen| && (forall k :: 0 <= k < r ==> InZone(chosen[k], limit))
    ensures r < |chosen| ==> !InZone(chosen[r], limit)
  {
    if chosen == [] then 0
    else
      var n := |chosen| - 1;
      var before := FirstOutside(chosen[..n], limit);
      if before < n || !InZone(chosen[n], limit) then before else n + 1
  }

  // The zones over fresh allocators of the given entries.
  function ZonesOf(chosen: seq<MapEntry>): (s: ZoneState)
    ensures |s.regions| == |chosen| && forall k :: 0 <= k < |chosen| ==> s.regions[k] == FreshRegion(chosen[k])
  {
    ZoneState(seq(|chosen|, i requires 0 <= i < |chosen| => FreshRegion(chosen[i])), FirstOutside(chosen, MB16), Zone(chosen, MB16), Zone(chosen, GB4))
  }

  function Setup(entries: seq<MapEntry>): ZoneState {
    ZonesOf(Chosen(entries))
  }

  // One more entry that gets an allocator.
  function AddEntry(s: ZoneState, e: MapEntry): ZoneState {
    var n := |s.regions|;
    ZoneState(s.regions + [FreshRegion(e)],
              if s.start == n && InZone(e, MB16) then n + 1 else s.start,
              s.zone16 + if InZone(e, MB16) then [n] else [],
              s.zone4 + if InZone(e, GB4) then [n] else [])
  }

  lemma ZonesNext(chosen: seq<MapEntry>, e: MapEntry)
    ensures ZonesOf(chosen + [e]) == AddEntry(ZonesOf(chosen), e)
  {
    hide FreshRegion, InZone;
    var all := chosen + [e];
    assert all[..|chosen|] == chosen;
    assert ZonesOf(all).regions == ZonesOf(chosen).regions + [FreshRegion(e)];
  }

  lemma SetupNext(entries: seq<MapEntry>, i: nat)
    requires i < |entries|
    ensures Setup(entries[..i + 1]) == if Wanted(entries[i]) then AddEntry(Setup(entries[..i]), entries[i]) else Setup(entries[..i])
  {
    hide Wanted, ZonesOf, AddEntry;
    var front := entries[..i + 1];
    assert front[..i] == entries[..i] && front[i] == entries[i];
    if Wanted(entries[i]) {
      ZonesNext(Chosen(entries[..i]), entries[i]);
    } else {
      assert Chosen(front) == Chosen(entries[..i]);
    }
  }

  // ---------- what setup makes, entry by entry ----------

  // The positions `pos` of a memory map are those of the usable entries of more than one page, in
  // order; each gives one region of all its whole pages, of which those behind the metadata are free,
  // in ascending order; a region is in a zone if its entry ends below the limit, and `start` is the
  // first that is not below 16 MB.
  ghost predicate MadeFrom(entries: seq<MapEntry>, s: ZoneState, pos: seq<nat>) {
    && |pos| == |s.regions|
    && (forall k, l :: 0 <= k < l < |pos| ==> pos[k] < pos[l])
    && (forall i: nat :: i in pos <==> i < |entries| && entries[i].usable && entries[i].length > 4096)
    && (forall k :: 0 <= k < |pos| && pos[k] < |entries| ==> RegionOf(entries[pos[k]], s.regions[k]))
    && ZoneFrom(entries, pos, s.zone16, 0x100_0000)
    && ZoneFrom(entries, pos, s.zone4, 0x1_0000_0000)
    && s.start <= |pos| && (forall k: nat :: k < s.start ==> k in s.zone16) && s.start !in s.zone16
  }

  ghost predicate RegionOf(e: MapEntry, r: Region) {
    var meta := (64 + 4 * r.size + 8 * ((r.size + 63) / 64)) / 4096 + 1;
    && r.base == e.base && r.size == e.length / 4096
    && |r.free| == (if meta <= r.size then r.size - meta else 0)
    && forall j :: 0 <= j < |r.free| ==> r.free[j] == meta + j
  }

  ghost predicate ZoneFrom(entries: seq<MapEntry>, pos: seq<nat>, zone: seq<nat>, limit: nat) {
    && (forall i, j :: 0 <= i < j < |zone| ==> zone[i] < zone[j])
    && (forall k: nat :: k in zone <==> k < |pos| && pos[k] < |entries| && entries[pos[k]].base + entries[pos[k]].length < limit)
  }

  ghost function Places(entries: seq<MapEntry>): (pos: seq<nat>)
    ensures forall k, l :: 0 <= k < l < |pos| ==> pos[k] < pos[l]
    ensures forall k :: 0 <= k < |pos| ==> pos[k] < |entries|
    ensures forall i: nat :: i in pos <==> i < |entries| && entries[i].usable && entries[i].length > 4096
  {
    if entries == [] then []
    else
      var n := |entries| - 1;
      var before := Places(entries[..n]);
      if entries[n].usable && entries[n].length > 4096 then before + [n] else before
  }

  lemma {:induction false} ChosenPlaces(entries: seq<MapEntry>)
    ensures |Places(entries)| == |Chosen(entries)|
    ensures forall k :: 0 <= k < |Places(entries)| ==> Chosen(entries)[k] == entries[Places(entries)[k]]
  {
    if entries != [] {
      ChosenPlaces(entries[..|entries| - 1]);
    }
  }

  lemma {:induction false} ZoneAscends(chosen: seq<MapEntry>, limit: nat)
    ensures forall i, j :: 0 <= i < j < |Zone(chosen, limit)| ==> Zone(chosen, limit)[i] < Zone(chosen, limit)[j]
  {
    if chosen != [] {
      var before := Zone(chosen[..|chosen| - 1], limit);
      ZoneAscends(chosen[..|chosen| - 1], limit);
      assert forall i :: 0 <= i < |before| ==> before[i] in before;
    }
  }

  lemma FreshRegionOf(e: MapEntry)
    ensures RegionOf(e, FreshRegion(e))
  {
  }

  lemma ZoneFromChosen(entries: seq<MapEntry>, limit: nat)
    ensures ZoneFrom(entries, Places(entries), Zone(Chosen(entries), limit), limit)
  {
    ChosenPlaces(entries);
    ZoneAscends(Chosen(entries), limit);
  }

  lemma SetupIsMade(entries: seq<MapEntry>)
    ensures MadeFrom(entries, Setup(entries), Places(entries))
  {
    hide FreshRegion, ZoneFrom, RegionOf, Places, Chosen;
    ChosenPlaces(entries);
    ZoneFromChosen(entries, MB16);
    ZoneFromChosen(entries, GB4);
    forall e | true ensures RegionOf(e, FreshRegion(e)) {
      FreshRegionOf(e);
    }
  }

  ghost predicate AllApart(chosen: seq<MapEntry>) {
    forall k, l :: 0 <= k < l < |chosen| ==> EntriesApart(chosen[k], chosen[l])
  }

  lemma {:induction false} ChosenApart(entries: seq<MapEntry>)
    requires MapOk(entries)
    ensures AllApart(Chosen(entries))
  {
    hide EntryOk, EntriesApart;
    if entries != [] {
      var n := |entries| - 1;
      ChosenApart(entries[..n]);
      var front := Chosen(entries[..n]);
      forall e | e in front && Wanted(entries[n]) ensures EntriesApart(e, entries[n]) {
        var i :| 0 <= i < n && entries[i] == e;
      }
    }
  }

  lemma FreshSane(e: MapEntry)
    requires Wanted(e) && EntryOk(e)
    ensures Sane(FreshRegion(e)) && 0 < MetadataPages(e.length / PAGE_SIZE) <= e.length / PAGE_SIZE
    ensures FreshRegion(e).size * PAGE_SIZE <= e.length
  {
    MetadataFits(e.length / PAGE_SIZE, 0);
    InitialFreeOk(MetadataPages(e.length / PAGE_SIZE), e.length / PAGE_SIZE);
  }

  lemma SetupSound(entries: seq<MapEntry>)
    requires MapOk(entries)
    ensures Sound(Setup(entries))
  {
    hide Sane, MapOk, FreshRegion, ZonesSound;
    var chosen := Chosen(entries);
    var s := Setup(entries);
    ChosenApart(entries);
    ChosenInside(entries);
    forall k, l | 0 <= k < l < |chosen| ensures RegionsApart(s.regions[k], s.regions[l]) {
      assert EntriesApart(chosen[k], chosen[l]) && chosen[k] in chosen && chosen[l] in chosen;
    }
    SetupZones(entries);
  }

  lemma SetupZones(entries: seq<MapEntry>)
    requires MapOk(entries)
    ensures ZonesSound(Setup(entries))
  {
    hide Sane, MapOk, FreshRegion;
    ChosenInside(entries);
    var chosen := Chosen(entries);
    var s := Setup(entries);
    forall k: nat, limit: nat | k < |chosen| && InZone(chosen[k], limit) ensures EndsBelow(s.regions[k], limit) {
      assert chosen[k] in chosen && s.regions[k] == FreshRegion(chosen[k]);
    }
  }

  // The region of an entry lies inside it.
  ghost predicate Inside(e: MapEntry) {
    var r := FreshRegion(e);
    r.base == e.base && r.base + r.size * PAGE_SIZE <= e.base + e.length
  }

  lemma ChosenInside(entries: seq<MapEntry>)
    requires MapOk(entries)
    ensures forall e :: e in Chosen(entries) ==> Sane(FreshRegion(e)) && Inside(e)
  {
    forall e | e in Chosen(entries) ensures Sane(FreshRegion(e)) && Inside(e) {
      FreshSane(e);
    }
  }
}
