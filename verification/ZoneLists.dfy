/**
  The zones in memory: three intrusive lists of allocators that end in a sentinel pointing to itself,
  built from the memory map and walked by requests and releases.
 */
module ZoneLists {
  import opened Options
  import opened Sequences
  import opened PhysicalAllocator
  import opened Zones

  // Two allocators share no memory.
  ghost predicate MemoryApart(a: PageAllocator, b: PageAllocator)
    reads a`bitmap, a`stack, b`bitmap, b`stack
  {
    && a != b && a.bitmap != b.bitmap && a.stack != b.stack
    && a.bitmap as object != b.stack as object && a.stack as object != b.bitmap as object
  }

  // The elements of a list are at the given positions.
  ghost predicate Located(all: seq<PageAllocator>, list: seq<PageAllocator>, positions: seq<nat>) {
    && |list| == |positions| && InBounds(positions, |all|)
    && forall i :: 0 <= i < |list| ==> list[i] == all[positions[i]]
  }

  // One more element at the end of all moves nothing.
  lemma LocatedGrows(all: seq<PageAllocator>, list: seq<PageAllocator>, positions: seq<nat>, current: PageAllocator)
    requires Located(all, list, positions)
    ensures Located(all + [current], list, positions)
    ensures Located(all + [current], list + [current], positions + [|all|])
    ensures forall a :: a !in all ==> a !in list
  {
  }

  lemma EntryIsOk(entries: seq<MapEntry>, i: nat)
    requires MapOk(entries) && i < |entries| && Wanted(entries[i])
    ensures EntryOk(entries[i])
  {
  }

  // A walk along `order` took the first free page it met, or found none.
  ghost predicate Answer(before: seq<Region>, order: seq<nat>, result: Option<nat>, after: seq<Region>) {
    && InBounds(order, |before|)
    && match FirstFree(before, order)
       case None => result.None? && after == before
       case Some(k) => result == Alloc(before[k]).0 && after == before[k := Alloc(before[k]).1]
  }

  // ---------- walks and requests ----------

  ghost predicate Ready(s: ZoneState, kind: Kind) {
    s.start <= |s.regions| && InBounds(Order(s, kind), |s.regions|)
  }

  // The first walk of a normal request decides it if it finds a page.
  lemma RequestNormal(s: ZoneState, result: Option<nat>, after: seq<Region>)
    requires Ready(s, Normal) && Answer(s.regions, Positions(s.start, |s.regions|), result, after)
    ensures result.Some? ==> Request(s, Normal) == (Got(result.value), s.(regions := after))
    ensures result.None? ==> after == s.regions && FirstFree(s.regions, Positions(s.start, |s.regions|)) == None
  {
    FirstFreeConcat(s.regions, Positions(s.start, |s.regions|), s.zone16);
  }

  ghost function OutcomeOf(result: Option<nat>): Outcome {
    if result.Some? then Got(result.value) else Exhausted
  }

  lemma Request16(s: ZoneState, kind: Kind, result: Option<nat>, after: seq<Region>)
    requires kind != Below4GB && Ready(s, kind) && s.zone16 != [] && Answer(s.regions, s.zone16, result, after)
    requires kind == Normal ==> InBounds(Positions(s.start, |s.regions|), |s.regions|)
                                && FirstFree(s.regions, Positions(s.start, |s.regions|)) == None
    ensures Request(s, kind) == (OutcomeOf(result), s.(regions := after))
  {
    if kind == Normal {
      FirstFreeConcat(s.regions, Positions(s.start, |s.regions|), s.zone16);
    }
  }

  lemma Request4(s: ZoneState, result: Option<nat>, after: seq<Region>)
    requires Ready(s, Below4GB) && s.zone4 != [] && Answer(s.regions, s.zone4, result, after)
    ensures Request(s, Below4GB) == (OutcomeOf(result), s.(regions := after))
  {
  }

  lemma RequestMissing(s: ZoneState, kind: Kind)
    requires Ready(s, kind) && LastListEmpty(s, kind)
    requires kind == Normal ==> InBounds(Positions(s.start, |s.regions|), |s.regions|)
                                && FirstFree(s.regions, Positions(s.start, |s.regions|)) == None
    ensures Request(s, kind) == (NullPointer, s)
  {
    if kind == Normal {
      FirstFreeConcat(s.regions, Positions(s.start, |s.regions|), s.zone16);
    }
  }

  lemma WalkedAll(regions: seq<Region>, order: seq<nat>)
    requires InBounds(order, |regions|) && forall j :: 0 <= j < |order| ==> regions[order[j]].free == []
    ensures Answer(regions, order, None, regions)
  {
  }

  // The allocators manage the given regions, each in memory of its own.
  ghost predicate Manage(all: seq<PageAllocator>, regions: seq<Region>)
    reads all`size, all`stackTop, all`bitmap, all`stack, all`base
    reads set a | a in all :: a.bitmap, set a | a in all :: a.stack
  {
    && |regions| == |all|
    && (forall i :: 0 <= i < |all| ==> all[i].Valid() && all[i].View() == regions[i])
    && (forall i, j :: 0 <= i < j < |all| ==> MemoryApart(all[i], all[j]))
  }

  lemma ManageSize(all: seq<PageAllocator>, regions: seq<Region>)
    requires Manage(all, regions)
    ensures |regions| == |all|
  {
  }

  // All allocators but the k-th.
  ghost predicate OthersManage(all: seq<PageAllocator>, regions: seq<Region>, k: nat)
    reads all`size, all`stackTop, all`bitmap, all`stack, all`base
    reads set a | a in all :: a.bitmap, set a | a in all :: a.stack
  {
    && k < |all| == |regions|
    && (forall i :: 0 <= i < |all| && i != k ==> all[i].Valid() && all[i].View() == regions[i])
    && (forall i, j :: 0 <= i < j < |all| ==> MemoryApart(all[i], all[j]))
  }

  lemma ManageOthers(all: seq<PageAllocator>, regions: seq<Region>, k: nat)
    requires Manage(all, regions) && k < |all|
    ensures OthersManage(all, regions, k) && all[k].Valid() && all[k].View() == regions[k]
    ensures forall j :: 0 <= j < |all| && j != k ==> MemoryApart(all[k], all[j])
  {
    hide PageAllocator.Valid, PageAllocator.View;
    assert forall j :: 0 <= j < k ==> MemoryApart(all[j], all[k]);
  }

  lemma ManageAgain(all: seq<PageAllocator>, regions: seq<Region>, k: nat, r: Region)
    requires OthersManage(all, regions, k) && all[k].Valid() && all[k].View() == r
    ensures Manage(all, regions[k := r])
  {
    hide PageAllocator.Valid, PageAllocator.View, MemoryApart;
  }

  lemma ManageMore(all: seq<PageAllocator>, regions: seq<Region>, current: PageAllocator, r: Region)
    requires Manage(all, regions) && current.Valid() && current.View() == r
    requires forall a :: a in all ==> MemoryApart(a, current)
    ensures Manage(all + [current], regions + [r])
  {
    hide PageAllocator.Valid, PageAllocator.View, MemoryApart;
  }

  ghost function LastOf(base: PageAllocator, list: seq<PageAllocator>): PageAllocator {
    if list == [] then base else list[|list| - 1]
  }

  class PhysicalZones {
    const sentinel: PageAllocator
    var first: PageAllocator?
    var first16: PageAllocator?
    var first4: PageAllocator?
    var last: PageAllocator
    var last16: PageAllocator
    var last4: PageAllocator
    var firstNon16: PageAllocator

    ghost var all: seq<PageAllocator>
    ghost var regions: seq<Region>
    ghost var list16: seq<PageAllocator>
    ghost var list4: seq<PageAllocator>
    ghost var start: nat
    ghost var zone16: seq<nat>
    ghost var zone4: seq<nat>

    // ---------- the lists ----------

    // The i-th element of a list, or the sentinel behind the last one.
    ghost function At(list: seq<PageAllocator>, i: nat): PageAllocator {
      if i < |list| then list[i] else sentinel
    }

    ghost predicate Chain(head: PageAllocator?)
      reads this`all, all`next
    {
      && NoDup(all) && sentinel !in all
      && head == (if all == [] then null else all[0])
      && forall i {:trigger all[i].next} :: 0 <= i < |all| ==> all[i].next == At(all, i + 1)
    }

    ghost predicate Chain16(head: PageAllocator?)
      reads this`list16, list16`next16
    {
      && NoDup(list16) && sentinel !in list16
      && head == (if list16 == [] then null else list16[0])
      && forall i {:trigger list16[i].next16} :: 0 <= i < |list16| ==> list16[i].next16 == At(list16, i + 1)
    }

    ghost predicate Chain4(head: PageAllocator?)
      reads this`list4, list4`next4
    {
      && NoDup(list4) && sentinel !in list4
      && head == (if list4 == [] then null else list4[0])
      && forall i {:trigger list4[i].next4} :: 0 <= i < |list4| ==> list4[i].next4 == At(list4, i + 1)
    }

    ghost predicate SelfLinked()
      reads sentinel`next, sentinel`next16, sentinel`next4
    {
      sentinel.next == sentinel && sentinel.next16 == sentinel && sentinel.next4 == sentinel
    }

    ghost predicate Lists()
      reads this`all, this`list16, this`list4, this`zone16, this`zone4, this`start, this`firstNon16, this`first, this`first16, this`first4
      reads sentinel`next, sentinel`next16, sentinel`next4, all`next, list16`next16, list4`next4
    {
      && SelfLinked() && Chain(first) && Chain16(first16) && Chain4(first4)
      && Located(all, list16, zone16) && Located(all, list4, zone4)
      && start <= |all| && firstNon16 == At(all, start)
    }

    // ---------- the allocators ----------

    ghost predicate Allocators()
      reads this`all, this`regions, all`size, all`stackTop, all`bitmap, all`stack, all`base
      reads set a | a in all :: a.bitmap, set a | a in all :: a.stack
    {
      Manage(all, regions)
    }

    ghost function State(): ZoneState
      reads this`regions, this`start, this`zone16, this`zone4
    {
      ZoneState(regions, start, zone16, zone4)
    }

    ghost predicate Valid()
      reads this, sentinel`next, sentinel`next16, sentinel`next4, all`next, list16`next16, list4`next4
      reads all`size, all`stackTop, all`bitmap, all`stack, all`base
      reads set a | a in all :: a.bitmap, set a | a in all :: a.stack
    {
      Lists() && Allocators() && Sound(State())
    }

    // ---------- setup ----------

    // The lists while they are built, with a record in front that holds the heads.
    ghost predicate Building(base: PageAllocator)
      reads this`all, this`list16, this`list4, this`zone16, this`zone4, this`start, this`firstNon16, this`last, this`last16, this`last4
      reads sentinel`next, sentinel`next16, sentinel`next4, all`next, list16`next16, list4`next4
      reads base`next, base`next16, base`next4
    {
      Part(base) && Part16(base) && Part4(base) && start <= |all| && firstNon16 == At(all, start)
    }

    ghost predicate Part(base: PageAllocator)
      reads this`all, this`last, sentinel`next, all`next, base`next
    {
      && base != sentinel && base !in all && sentinel.next == sentinel
      && Chain(base.next) && last == LastOf(base, all)
    }

    ghost predicate Part16(base: PageAllocator)
      reads this`all, this`zone16, this`list16, this`last16, sentinel`next16, list16`next16, base`next16
    {
      && base != sentinel && base !in list16 && sentinel.next16 == sentinel
      && Chain16(base.next16) && last16 == LastOf(base, list16) && Located(all, list16, zone16)
    }

    ghost predicate Part4(base: PageAllocator)
      reads this`all, this`zone4, this`list4, this`last4, sentinel`next4, list4`next4, base`next4
    {
      && base != sentinel && base !in list4 && sentinel.next4 == sentinel
      && Chain4(base.next4) && last4 == LastOf(base, list4) && Located(all, list4, zone4)
    }

    // No list node is its own successor, so the test for the sentinel is exact.
    lemma SentinelTest(head: PageAllocator?, i: nat)
      requires sentinel.next == sentinel && Chain(head) && i <= |all|
      ensures At(all, i).next == At(all, i) <==> i == |all|
    {
      if i < |all| {
        assert all[i].next == At(all, i + 1);
      }
    }

    constructor (entries: seq<MapEntry>)
      requires MapOk(entries)
      ensures Valid() && State() == Setup(entries)
      ensures MadeFrom(entries, State(), Places(entries))
    {
      hide Building, Allocators, Lists, Setup, Sound, Valid, MapOk, MadeFrom, Places;
      var base := new PageAllocator.Zeroed();
      var end := new PageAllocator.Zeroed();
      end.next, end.next16, end.next4 := end, end, end;
      sentinel := end;
      last, last16, last4 := base, base, base;
      firstNon16 := end;
      all, regions, list16, list4, start, zone16, zone4 := [], [], [], [], 0, [], [];
      new;
      Nothing(base);
      Populate(base, entries);
      SetupIsMade(entries);
    }

    method Populate(base: PageAllocator, entries: seq<MapEntry>)
      requires Building(base) && Allocators() && State() == Setup([]) && all == [] && MapOk(entries)
      modifies this, base`next, base`next16, base`next4
      ensures Valid() && State() == Setup(entries)
    {
      hide Building, Allocators, Lists, Setup, Sound, MapOk;
      AddRegions(base, entries);
      SetHeads(base);
      SetupSound(entries);
    }

    // Add an allocator for every entry that is usable and larger than a page.
    method AddRegions(base: PageAllocator, entries: seq<MapEntry>)
      requires Building(base) && Allocators() && State() == Setup([]) && all == [] && MapOk(entries)
      modifies this, base`next, base`next16, base`next4
      ensures Building(base) && Allocators() && State() == Setup(entries)
    {
      hide Building, Allocators, Setup, AddEntry, EntryOk, MapOk;
      assert entries[..0] == [];
      for i := 0 to |entries|
        invariant Building(base) && Allocators() && State() == Setup(entries[..i])
        invariant forall i :: 0 <= i < |all| ==> fresh(all[i])
      {
        SetupNext(entries, i);
        var entry := entries[i];
        if !entry.usable || entry.length <= PAGE_SIZE {
          continue;
        }
        EntryIsOk(entries, i);
        Members(base);
        AddRegion(base, entry);
      }
      assert entries[..|entries|] == entries;
    }

    lemma Nothing(base: PageAllocator)
      requires all == [] && list16 == [] && list4 == [] && zone16 == [] && zone4 == []
      requires base.next == null && base.next16 == null && base.next4 == null && base != sentinel
      requires SelfLinked() && last == base && last16 == base && last4 == base
      requires start == 0 && firstNon16 == sentinel && regions == []
      ensures Building(base) && Allocators() && State() == Setup([])
    {
    }

    lemma Members(base: PageAllocator)
      requires Building(base)
      ensures (forall i :: 0 <= i < |list16| ==> list16[i] in all) && (forall i :: 0 <= i < |list4| ==> list4[i] in all)
    {
    }

    method SetHeads(base: PageAllocator)
      requires Building(base)
      modifies this`first, this`first16, this`first4
      ensures Lists()
    {
      first, first16, first4 := base.next, base.next16, base.next4;
    }

    // Append to the list of all allocators.
    method Link(base: PageAllocator, current: PageAllocator)
      requires Part(base) && Part16(base) && Part4(base)
      requires current !in all && current != base && current != sentinel && current.next == sentinel
      modifies this`last, this`all, last`next
      ensures all == old(all) + [current] && Part(base) && Part16(base) && Part4(base)
      ensures current !in list16 && current !in list4
    {
      LocatedGrows(all, list16, zone16, current);
      LocatedGrows(all, list4, zone4, current);
      last.next := current;
      last := current;
      all := all + [current];
    }

    // Append the newest allocator to the 16 MB zone.
    method Link16(base: PageAllocator, current: PageAllocator)
      requires Part16(base) && all != [] && current == all[|all| - 1] && current !in list16 && current != base && current != sentinel
      requires current.next16 == sentinel
      modifies this`last16, this`list16, this`zone16, last16`next16
      ensures zone16 == old(zone16) + [|all| - 1] && Part16(base)
    {
      last16.next16 := current;
      last16 := current;
      list16 := list16 + [current];
      zone16 := zone16 + [|all| - 1];
    }

    // Append the newest allocator to the 4 GB zone.
    method Link4(base: PageAllocator, current: PageAllocator)
      requires Part4(base) && all != [] && current == all[|all| - 1] && current !in list4 && current != base && current != sentinel
      requires current.next4 == sentinel
      modifies this`last4, this`list4, this`zone4, last4`next4
      ensures zone4 == old(zone4) + [|all| - 1] && Part4(base)
    {
      last4.next4 := current;
      last4 := current;
      list4 := list4 + [current];
      zone4 := zone4 + [|all| - 1];
    }

    // Put an allocator on the lists it belongs to.
    method Register(base: PageAllocator, entry: MapEntry, current: PageAllocator)
      requires Building(base) && current !in all && current != base && current != sentinel
      requires current.next == sentinel && current.next16 == sentinel && current.next4 == sentinel
      modifies this`last, this`last16, this`last4, this`firstNon16
      modifies this`all, this`list16, this`list4, this`zone16, this`zone4, this`start
      modifies base`next, base`next16, base`next4, all`next, list16`next16, list4`next4
      ensures Building(base) && all == old(all) + [current]
      ensures start == if old(start) == |old(all)| && InZone(entry, MB16) then |all| else old(start)
      ensures zone16 == old(zone16) + if InZone(entry, MB16) then [|old(all)|] else []
      ensures zone4 == old(zone4) + if InZone(entry, GB4) then [|old(all)|] else []
    {
      hide Part, Part16, Part4, InZone, LastOf, NoDup, Located;
      Ends(base);
      Register16(base, entry, current);
      Choose4(base, entry, current);
      assert Part(base) && Part16(base);
    }

    // The list of all allocators and the 16 MB zone.
    method Register16(base: PageAllocator, entry: MapEntry, current: PageAllocator)
      requires Building(base) && current !in all && current != base && current != sentinel
      requires current.next == sentinel && current.next16 == sentinel
      modifies this`last, this`last16, this`firstNon16, this`all, this`list16, this`zone16, this`start, last`next, last16`next16
      ensures Building(base) && all == old(all) + [current] && current !in list4
      ensures start == if old(start) == |old(all)| && InZone(entry, MB16) then |all| else old(start)
      ensures zone16 == old(zone16) + if InZone(entry, MB16) then [|old(all)|] else []
    {
      hide Part, Part16, Part4, InZone, LastOf, NoDup, Located;
      Link(base, current);
      Choose16(base, entry, current);
      assert Part(base) && Part4(base);
    }

    // Put the newest allocator into the 4 GB zone if it belongs there.
    method Choose4(base: PageAllocator, entry: MapEntry, current: PageAllocator)
      requires Part4(base)
      requires all != [] && current == all[|all| - 1] && current !in list4 && current != base && current != sentinel
      requires current.next4 == sentinel
      modifies this`last4, this`list4, this`zone4, last4`next4
      ensures Part4(base) && zone4 == old(zone4) + if InZone(entry, GB4) then [|all| - 1] else []
    {
      hide Part4;
      if entry.base < GB4 && entry.base + entry.length < GB4 {
        Link4(base, current);
      }
    }

    // Put the newest allocator into the 16 MB zone, or remember the first one outside of it.
    method Choose16(base: PageAllocator, entry: MapEntry, current: PageAllocator)
      requires Part(base) && Part16(base)
      requires all != [] && current == all[|all| - 1] && current !in list16 && current != base && current != sentinel
      requires current.next16 == sentinel && start < |all| && firstNon16 == At(all[..|all| - 1], start)
      modifies this`last16, this`list16, this`zone16, this`start, this`firstNon16, last16`next16
      ensures Part16(base) && start <= |all| && firstNon16 == At(all, start)
      ensures start == if old(start) == |all| - 1 && InZone(entry, MB16) then |all| else old(start)
      ensures zone16 == old(zone16) + if InZone(entry, MB16) then [|all| - 1] else []
    {
      hide Part, Part16;
      ghost var n := |all| - 1;
      NonSentinel(base, if start < n then start else |all|);
      if entry.base < MB16 && entry.base + entry.length < MB16 {
        Link16(base, current);
        start := if start == n then n + 1 else start;
      } else if firstNon16.next == firstNon16 {
        firstNon16 := current;
      }
    }

    lemma Ends(base: PageAllocator)
      requires Part(base) && Part16(base) && Part4(base)
      ensures (last == base || last in all) && (last16 == base || last16 in list16) && (last4 == base || last4 in list4)
    {
    }

    lemma NonSentinel(base: PageAllocator, i: nat)
      requires Part(base) && i <= |all|
      ensures At(all, i).next == At(all, i) <==> i == |all|
    {
      SentinelTest(base.next, i);
    }

    method AddRegion(base: PageAllocator, entry: MapEntry)
      requires Building(base) && Allocators() && Wanted(entry) && EntryOk(entry)
      modifies this, base`next, base`next16, base`next4, all`next, list16`next16, list4`next4
      ensures Building(base) && Allocators()
      ensures forall i :: 0 <= i < |all| ==> fresh(all[i]) || (i < |old(all)| && all[i] == old(all)[i])
      ensures State() == AddEntry(old(State()), entry)
    {
      hide Building, Manage, PageAllocator.Valid, PageAllocator.View, FreshRegion, Wanted, EntryOk, InZone;
      ManageSize(all, regions);
      var current := NewAllocator(entry);
      Register(base, entry, current);
      assert Manage(all, regions + [FreshRegion(entry)]);
      regions := regions + [FreshRegion(entry)];
    }

    // An allocator in the memory of an entry, not yet on any list.
    method NewAllocator(entry: MapEntry) returns (current: PageAllocator)
      requires Allocators() && Wanted(entry) && EntryOk(entry)
      ensures fresh(current) && current.next == sentinel && current.next16 == sentinel && current.next4 == sentinel
      ensures Manage(all + [current], regions + [FreshRegion(entry)])
    {
      hide Manage, PageAllocator.Valid, PageAllocator.View;
      var pages := entry.length / PAGE_SIZE;
      FreshSane(entry);
      current := new PageAllocator(entry.base, MetadataPages(pages), pages);
      current.next, current.next16, current.next4 := sentinel, sentinel, sentinel;
      ManageMore(all, regions, current, FreshRegion(entry));
    }

    // ---------- requests ----------

    // Ask the allocator at one position; no other is affected.
    method AskOne(a: PageAllocator, ghost k: nat) returns (result: Option<nat>)
      requires Lists() && Allocators() && k < |all| && a == all[k]
      modifies this`regions, a`stackTop, a.bitmap
      ensures Lists() && Allocators()
      ensures result == Alloc(old(regions)[k]).0
      ensures regions == old(regions)[k := Alloc(old(regions)[k]).1]
    {
      hide Lists, PageAllocator.Valid, PageAllocator.View, Manage, Alloc;
      ManageOthers(all, regions, k);
      result := a.Allocate();
      ManageAgain(all, regions, k, a.View());
      regions := regions[k := a.View()];
    }

    lemma Begin()
      requires Lists()
      ensures start <= |all| && firstNon16 == At(all, start)
    {
    }

    lemma Place(i: nat)
      requires Lists() && Allocators() && start + i <= |all|
      ensures InBounds(Positions(start, |all|), |all|) && |regions| == |all|
      ensures start + i < |all| ==> At(all, start + i) == all[start + i] && all[start + i].next == At(all, start + i + 1)
      ensures At(all, start + i).next == At(all, start + i) <==> start + i == |all|
    {
      SentinelTest(first, start + i);
    }

    // Walk all allocators from the first one outside the 16 MB zone.
    method SearchAll() returns (result: Option<nat>)
      requires Lists() && Allocators()
      modifies this`regions, all`stackTop, set a | a in all :: a.bitmap
      ensures Lists() && Allocators()
      ensures Answer(old(regions), Positions(start, |all|), result, regions)
    {
      hide Lists, Allocators, Positions, FirstFree, At;
      var current := firstNon16;
      Begin();
      ghost var i := 0;
      ghost var before, order := regions, Positions(start, |all|);
      Place(i);
      while current.next != current
        invariant i <= |order| && current == At(all, start + i) && (current.next == current <==> i == |order|)
        invariant Lists() && Allocators() && regions == before && |regions| == |all| && InBounds(order, |all|)
        invariant forall j :: 0 <= j < i ==> before[order[j]].free == []
        decreases |order| - i
      {
        Place(i);
        result := AskOne(current, order[i]);
        if result.Some? {
          FirstFreeAt(before, order, i);
          return;
        }
        current, i := current.next, i + 1;
        Place(i);
      }
      WalkedAll(before, order);
      result := None;
    }

    lemma Begin16()
      requires Lists() && first16 != null
      ensures first16 == At(list16, 0)
    {
    }

    lemma Place16(i: nat)
      requires Lists() && Allocators() && i <= |zone16|
      ensures InBounds(zone16, |all|) && |regions| == |all|
      ensures i < |zone16| ==> At(list16, i) == all[zone16[i]] && At(list16, i).next16 == At(list16, i + 1)
      ensures At(list16, i).next == At(list16, i) <==> i == |zone16|
    {
      SentinelTest(first, if i < |zone16| then zone16[i] else |all|);
    }

    // Walk the allocators of the 16 MB zone.
    method Search16() returns (result: Option<nat>)
      requires Lists() && Allocators() && first16 != null
      modifies this`regions, all`stackTop, set a | a in all :: a.bitmap
      ensures Lists() && Allocators()
      ensures Answer(old(regions), zone16, result, regions)
    {
      hide Lists, Allocators, Positions, FirstFree, At;
      var current := first16;
      ghost var i := 0;
      ghost var before, order := regions, zone16;
      Begin16();
      Place16(i);
      while current.next != current
        invariant i <= |order| && current == At(list16, i) && (current.next == current <==> i == |order|)
        invariant Lists() && Allocators() && regions == before && |regions| == |all| && InBounds(order, |all|)
        invariant forall j :: 0 <= j < i ==> before[order[j]].free == []
        decreases |order| - i
      {
        Place16(i);
        result := AskOne(current, order[i]);
        if result.Some? {
          FirstFreeAt(before, order, i);
          return;
        }
        current, i := current.next16, i + 1;
        Place16(i);
      }
      WalkedAll(before, order);
      result := None;
    }

    lemma Begin4()
      requires Lists() && first4 != null
      ensures first4 == At(list4, 0)
    {
    }

    lemma Place4(i: nat)
      requires Lists() && Allocators() && i <= |zone4|
      ensures InBounds(zone4, |all|) && |regions| == |all|
      ensures i < |zone4| ==> At(list4, i) == all[zone4[i]] && At(list4, i).next4 == At(list4, i + 1)
      ensures At(list4, i).next == At(list4, i) <==> i == |zone4|
    {
      SentinelTest(first, if i < |zone4| then zone4[i] else |all|);
    }

    // Walk the allocators of the 4 GB zone.
    method Search4() returns (result: Option<nat>)
      requires Lists() && Allocators() && first4 != null
      modifies this`regions, all`stackTop, set a | a in all :: a.bitmap
      ensures Lists() && Allocators()
      ensures Answer(old(regions), zone4, result, regions)
    {
      hide Lists, Allocators, Positions, FirstFree, At;
      var current := first4;
      ghost var i := 0;
      ghost var before, order := regions, zone4;
      Begin4();
      Place4(i);
      while current.next != current
        invariant i <= |order| && current == At(list4, i) && (current.next == current <==> i == |order|)
        invariant Lists() && Allocators() && regions == before && |regions| == |all| && InBounds(order, |all|)
        invariant forall j :: 0 <= j < i ==> before[order[j]].free == []
        decreases |order| - i
      {
        Place4(i);
        result := AskOne(current, order[i]);
        if result.Some? {
          FirstFreeAt(before, order, i);
          return;
        }
        current, i := current.next4, i + 1;
        Place4(i);
      }
      WalkedAll(before, order);
      result := None;
    }

    // A list head is null exactly when the zone has no region.
    lemma Heads()
      requires Lists()
      ensures (first == null <==> all == []) && (first16 == null <==> zone16 == []) && (first4 == null <==> zone4 == [])
      ensures all != [] ==> first == At(all, 0)
    {
    }

    method PhysicalAlloc(kind: Kind) returns (outcome: Outcome)
      requires Valid()
      modifies this`regions, all`stackTop, set a | a in all :: a.bitmap
      ensures Valid() && InBounds(Order(old(State()), kind), |old(regions)|)
      ensures (outcome, State()) == Request(old(State()), kind)
    {
      hide Lists, Allocators, Sound, Answer, Request, Order;
      ghost var s := State();
      PlaceAll(0);
      OrderInBounds(s, kind);
      RequestCorrect(s, kind);
      if kind == Normal {
        var result := SearchAll();
        RequestNormal(s, result, regions);
        if result.Some? {
          return Got(result.value);
        }
      }
      if kind == Normal || kind == Below16MB {
        outcome := AllocBelow16MB(kind, s);
      } else {
        outcome := AllocBelow4GB(s);
      }
    }

    // The 16 MB zone, which a normal request falls through to.
    method AllocBelow16MB(kind: Kind, ghost s: ZoneState) returns (outcome: Outcome)
      requires Lists() && Allocators() && s == State() && kind != Below4GB && Ready(s, kind) && |all| == |regions|
      requires kind == Normal ==> InBounds(Positions(s.start, |s.regions|), |s.regions|)
                                  && FirstFree(s.regions, Positions(s.start, |s.regions|)) == None
      modifies this`regions, all`stackTop, set a | a in all :: a.bitmap
      ensures Lists() && Allocators() && (outcome, State()) == Request(s, kind)
    {
      hide Lists, Allocators, Answer, Request, Order;
      Heads();
      if first16 == null {
        RequestMissing(s, kind);
        return NullPointer;
      }
      var result := Search16();
      Request16(s, kind, result, regions);
      outcome := if result.Some? then Got(result.value) else Exhausted;
    }

    method AllocBelow4GB(ghost s: ZoneState) returns (outcome: Outcome)
      requires Lists() && Allocators() && s == State() && Ready(s, Below4GB)
      modifies this`regions, all`stackTop, set a | a in all :: a.bitmap
      ensures Lists() && Allocators() && (outcome, State()) == Request(s, Below4GB)
    {
      hide Lists, Allocators, Answer, Request, Order;
      Heads();
      if first4 == null {
        RequestMissing(s, Below4GB);
        return NullPointer;
      }
      var result := Search4();
      Request4(s, result, regions);
      outcome := if result.Some? then Got(result.value) else Exhausted;
    }

    // ---------- releases ----------

    // Give a page back to the allocator at one position; no other is affected.
    method ReturnOne(a: PageAllocator, ghost k: nat, address: nat) returns (ok: bool)
      requires Lists() && Allocators() && k < |all| && a == all[k]
      modifies this`regions, a`stackTop, a.bitmap, a.stack
      ensures Lists() && Allocators()
      ensures ok <==> Free(old(regions)[k], address).Some?
      ensures regions == if ok then old(regions)[k := Free(old(regions)[k], address).value] else old(regions)
    {
      hide Lists, PageAllocator.Valid, PageAllocator.View, Manage, Free;
      ManageOthers(all, regions, k);
      ok := a.FreePage(address);
      ManageAgain(all, regions, k, a.View());
      regions := regions[k := a.View()];
    }

    lemma PlaceAll(i: nat)
      requires Lists() && Allocators() && i <= |all|
      ensures |regions| == |all|
      ensures i < |all| ==> && At(all, i) == all[i] && all[i].next == At(all, i + 1)
                            && all[i].base == regions[i].base && all[i].size == regions[i].size
      ensures At(all, i).next == At(all, i) <==> i == |all|
    {
      SentinelTest(first, i);
    }

    // The allocator that contains an address, if any.
    method FindOwner(address: nat) returns (owner: PageAllocator?)
      requires Lists() && Allocators() && first != null
      ensures |regions| == |all|
      ensures owner == match Owner(regions, address, 0) case Some(k) => all[k] case None => null
    {
      hide Lists, Allocators, At;
      Heads();
      PlaceAll(0);
      var current := first;
      ghost var i := 0;
      while current.next != current
        invariant i <= |all| == |regions| && current == At(all, i) && (current.next == current <==> i == |all|)
        invariant Owner(regions, address, 0) == Owner(regions, address, i)
        decreases |all| - i
      {
        PlaceAll(i);
        var base := current.base;
        if base <= address < base + current.size * PAGE_SIZE {
          return current;
        }
        current, i := current.next, i + 1;
        PlaceAll(i);
      }
      owner := null;
    }

    method PhysicalFree(address: nat) returns (outcome: FreeOutcome)
      requires Valid()
      modifies this`regions, all`stackTop, set a | a in all :: a.bitmap, set a | a in all :: a.stack
      ensures Valid()
      ensures (outcome, State()) == Release(old(State()), address)
      ensures Released(old(State()), address, outcome, State())
    {
      hide Lists, Allocators, Sound, Owner, Free, Release, Released;
      ReleaseExactly(State(), address);
      Heads();
      ReleaseKeepsSound(State(), address);
      PlaceAll(0);
      if first == null {
        ReleaseSteps(State(), address);
        return NullAccess;
      }
      var owner := FindOwner(address);
      ReleaseSteps(State(), address);
      if owner == null {
        return Panicked;
      }
      var ok := ReturnOne(owner, Owner(regions, address, 0).value, address);
      outcome := if ok then Returned else Panicked;
    }
  }
}
