/**
  The allocator of the pages of one physical region: a stack of free pages for allocation and
  deallocation in constant time, and a bitmap for queries, both kept in the first pages of the region.
 */
module PhysicalAllocator {
  import opened BitWords
  import opened Options
  import opened Sequences

  const PAGE_SIZE := 4096
  const HEADER_SIZE := 64
  const U32_MAX := 0xFFFF_FFFF
  const U32_MOD := 0x1_0000_0000
  const U64_MOD := 0x1_0000_0000_0000_0000

  // ---------- sizes ----------

  function StackSize(pages: nat): nat { pages * 4 }

  function BitmapSize(pages: nat): nat { (pages + (8 * 8 - 1)) / (8 * 8) * 8 }

  function RequiredSize(pages: nat): nat { HEADER_SIZE + StackSize(pages) + BitmapSize(pages) }

  // In numbers: 64 bytes of header, 4 bytes a page for the stack, and for the bitmap a bit a page in
  // whole words of 8 bytes.
  lemma SizesInBytes(pages: nat)
    ensures RequiredSize(pages) == 64 + 4 * pages + BitmapSize(pages)
    ensures BitmapSize(pages) % 8 == 0 && 8 * BitmapSize(pages) >= pages && 8 * BitmapSize(pages) < pages + 64
    ensures (MetadataPages(pages) - 1) * 4096 <= RequiredSize(pages) < MetadataPages(pages) * 4096
  {
    var words := (pages + 63) / 64;
    assert BitmapSize(pages) == words * 8;
  }

  // As computed when the regions are set up.
  function MetadataPages(pages: nat): nat { RequiredSize(pages) / PAGE_SIZE + 1 }

  // Header, bitmap and stack lie one after the other in the metadata pages, which are part of the
  // region: every word the allocator writes is inside them.
  lemma MetadataFits(pages: nat, page: nat)
    requires 1 <= pages <= U32_MAX && page < pages
    ensures 0 < MetadataPages(pages) <= pages && (pages > 1 ==> MetadataPages(pages) < pages)
    ensures var bitmap := HEADER_SIZE; var stack := HEADER_SIZE + BitmapSize(pages); var end := MetadataPages(pages) * PAGE_SIZE;
            && bitmap + page / 64 * 8 + 8 <= stack
            && stack + page * 4 + 4 <= end
            && bitmap % 8 == 0 && stack % 4 == 0
  {
    var words := (pages + 63) / 64;
    assert BitmapSize(pages) == words * 8 && page / 64 < words;
    assert words <= pages;
    assert RequiredSize(pages) == 64 + pages * 4 + words * 8;
  }

  // Where the n-th word of the bitmap and of the stack are, behind the header at `base`.
  function BitmapWordAt(base: nat, n: nat): nat {
    base + HEADER_SIZE + n * 8
  }

  function StackWordAt(base: nat, pages: nat, n: nat): nat {
    base + HEADER_SIZE + BitmapSize(pages) + n * 4
  }

  // All words lie in the metadata pages, one after the other and without overlap.
  ghost predicate WordsInside(base: nat, pages: nat, metadataPages: nat) {
    && (forall n: nat :: n < (pages + 63) / 64 ==>
          base + HEADER_SIZE <= BitmapWordAt(base, n) && BitmapWordAt(base, n) + 8 <= StackWordAt(base, pages, 0))
    && (forall n: nat :: n < pages ==>
          StackWordAt(base, pages, 0) <= StackWordAt(base, pages, n) && StackWordAt(base, pages, n) + 4 <= base + metadataPages * PAGE_SIZE)
  }

  // The metadata pages that are computed at setup are enough, and at most one more than necessary.
  lemma WordsFit(base: nat, pages: nat, metadataPages: nat)
    requires 1 <= pages <= U32_MAX
    ensures metadataPages >= MetadataPages(pages) ==> WordsInside(base, pages, metadataPages)
    ensures WordsInside(base, pages, metadataPages) ==> metadataPages + 1 >= MetadataPages(pages)
  {
    var words := (pages + 63) / 64;
    assert BitmapSize(pages) == words * 8 && RequiredSize(pages) == HEADER_SIZE + pages * 4 + words * 8;
    if WordsInside(base, pages, metadataPages) {
      assert StackWordAt(base, pages, pages - 1) + 4 <= base + metadataPages * PAGE_SIZE;
    }
  }

  // ---------- addresses ----------

  // The address handed out for a page: the product is taken in 32 bits.
  function PageAddress(base: nat, page: nat): nat {
    ((page * PAGE_SIZE) % U32_MOD + base) % U64_MOD
  }

  // The page an address is in.
  function PageOf(base: nat, address: nat): nat
    requires base <= address
  {
    (address - base) / PAGE_SIZE
  }

  predicate InRegion(base: nat, size: nat, address: nat) {
    base <= address < base + size * PAGE_SIZE
  }

  // The region fits the address space.
  predicate Fits(base: nat, size: nat) {
    1 <= size <= U32_MAX && base + size * PAGE_SIZE < U64_MOD
  }

  // A page's address is inside the region, so the assertion after the computation never fails; it is
  // the page's own address exactly for pages below 2^20.
  lemma AddressOfPage(base: nat, size: nat, page: nat)
    requires Fits(base, size) && page < size
    ensures InRegion(base, size, PageAddress(base, page))
    ensures PageAddress(base, page) == base + page * PAGE_SIZE <==> page < 0x10_0000
    ensures PageOf(base, PageAddress(base, page)) == page % 0x10_0000
  {
    WrappedProduct(page);
    assert page % 0x10_0000 <= page;
  }

  lemma WrappedProduct(page: nat)
    ensures (page * PAGE_SIZE) % U32_MOD == page % 0x10_0000 * PAGE_SIZE
  {
    var (q, r) := (page / 0x10_0000, page % 0x10_0000);
    assert page * PAGE_SIZE == q * U32_MOD + r * PAGE_SIZE;
  }

  // ---------- the allocator ----------

  // Bit `page` of a bitmap.
  predicate Used(bitmap: seq<Word64>, page: nat)
    requires page / 64 < |bitmap|
  {
    TestBit(bitmap[page / 64], page % 64)
  }

  // That is bit `page % 64` of word `page / 64`.
  lemma UsedIsBit(bitmap: seq<Word64>, page: nat)
    requires page < 64 * |bitmap|
    ensures Used(bitmap, page) <==> And(bitmap[page / 64], Mask(page - page / 64 * 64)) != 0
  {
    assert page % 64 == page - page / 64 * 64;
  }

  function SetUsedBit(bitmap: seq<Word64>, page: nat): seq<Word64>
    requires page / 64 < |bitmap|
  {
    bitmap[page / 64 := SetBit(bitmap[page / 64], page % 64)]
  }

  function ClearUsedBit(bitmap: seq<Word64>, page: nat): seq<Word64>
    requires page / 64 < |bitmap|
  {
    bitmap[page / 64 := ClearBit(bitmap[page / 64], page % 64)]
  }

  lemma SetUsedBitTest(bitmap: seq<Word64>, page: nat, q: nat)
    requires page / 64 < |bitmap| && q / 64 < |bitmap|
    ensures Used(SetUsedBit(bitmap, page), q) <==> q == page || Used(bitmap, q)
  {
    hide TestBit, SetBit;
    if q / 64 == page / 64 {
      SetBitTest(bitmap[page / 64], page % 64, q % 64);
    }
  }

  lemma ClearUsedBitTest(bitmap: seq<Word64>, page: nat, q: nat)
    requires page / 64 < |bitmap| && q / 64 < |bitmap|
    ensures Used(ClearUsedBit(bitmap, page), q) <==> q != page && Used(bitmap, q)
  {
    hide TestBit, ClearBit;
    if q / 64 == page / 64 {
      ClearBitTest(bitmap[page / 64], page % 64, q % 64);
    }
  }

  // Bitmap and stack agree: a page's bit is clear exactly when the page is on the stack.
  ghost predicate BitmapAgrees(bitmap: seq<Word64>, size: nat, free: seq<nat>) {
    && |bitmap| == (size + 63) / 64
    && forall page :: 0 <= page < size ==> (Used(bitmap, page) <==> page !in free)
  }

  ghost predicate StackOk(size: nat, free: seq<nat>) {
    NoDup(free) && forall page :: page in free ==> page < size
  }

  // The abstract allocator: a region and the pages of it that are free, in stack order.
  datatype Region = Region(base: nat, size: nat, free: seq<nat>)

  function Alloc(r: Region): (Option<nat>, Region) {
    if r.free == [] then (None, r)
    else (Some(PageAddress(r.base, r.free[|r.free| - 1])), r.(free := r.free[..|r.free| - 1]))
  }

  // `None` is a failed assertion.
  function Free(r: Region, address: nat): Option<Region> {
    if !InRegion(r.base, r.size, address) || PageOf(r.base, address) in r.free then None
    else Some(r.(free := r.free + [PageOf(r.base, address)]))
  }

  class PageAllocator {
    // The links of the three lists that allocators are on.
    var next: PageAllocator?
    var next16: PageAllocator?
    var next4: PageAllocator?

    var size: nat
    var stackTop: int
    var bitmap: array<Word64>
    var stack: array<nat>
    var base: nat

    // Where the bitmap and the stack are in the region.
    const bitmapAddress: nat
    const stackAddress: nat

    ghost predicate Valid()
      reads this`size, this`stackTop, this`bitmap, this`stack, this`base, bitmap, stack
    {
      && Fits(base, size)
      && stack.Length == size && bitmap.Length == (size + 63) / 64
      && bitmap as object != stack as object
      && -1 <= stackTop < size
      && StackOk(size, stack[..stackTop + 1])
      && BitmapAgrees(bitmap[..], size, stack[..stackTop + 1])
    }

    ghost function View(): Region
      requires Valid()
      reads this`size, this`stackTop, this`bitmap, this`stack, this`base, bitmap, stack
    {
      Region(base, size, stack[..stackTop + 1])
    }

    // A zeroed record, used only for its links.
    constructor Zeroed()
      ensures next == null && next16 == null && next4 == null && fresh(bitmap) && fresh(stack)
    {
      next, next16, next4 := null, null, null;
      size, stackTop, base := 0, 0, 0;
      bitmapAddress, stackAddress := 0, 0;
      bitmap, stack := new Word64[0], new nat[0];
    }

    method SetUsed(page: nat)
      requires page < size && bitmap.Length == (size + 63) / 64
      modifies bitmap
      ensures bitmap[..] == SetUsedBit(old(bitmap[..]), page)
    {
      bitmap[page / 64] := SetBit(bitmap[page / 64], page % 64);
    }

    method ClearUsed(page: nat)
      requires page < size && bitmap.Length == (size + 63) / 64
      modifies bitmap
      ensures bitmap[..] == ClearUsedBit(old(bitmap[..]), page)
    {
      bitmap[page / 64] := ClearBit(bitmap[page / 64], page % 64);
    }

    // Set up a region: its first pages hold the metadata and are used, all others are free.
    constructor (base: nat, metadataPages: nat, pageCount: nat)
      requires Fits(base, pageCount) && 0 < metadataPages <= pageCount
      ensures Valid() && fresh(bitmap) && fresh(stack)
      ensures next == null && next16 == null && next4 == null
      ensures View() == Region(base, pageCount, InitialFree(metadataPages, pageCount))
      ensures |View().free| == pageCount - metadataPages
      ensures forall i :: 0 <= i < |View().free| ==> View().free[i] == metadataPages + i
      ensures bitmapAddress == BitmapWordAt(base, 0) && stackAddress == StackWordAt(base, pageCount, 0)
      ensures metadataPages >= MetadataPages(pageCount) ==> WordsInside(base, pageCount, metadataPages)
    {
      hide WordsInside, BitmapAgrees, StackOk, MarkedBelow, InitialFree;
      next, next16, next4 := null, null, null;
      this.base := base;
      bitmapAddress := base + HEADER_SIZE;
      stackAddress := base + HEADER_SIZE + BitmapSize(pageCount);
      WordsFit(base, pageCount, metadataPages);
      size := pageCount;
      bitmap := new Word64[(pageCount + 63) / 64](_ => 0);
      stack := new nat[pageCount](_ => 0);
      stackTop := -1;
      new;
      FillStack(metadataPages);
      ghost var free := InitialFree(metadataPages, pageCount);
      InitialFreeOk(metadataPages, pageCount);
      ZeroBitmap(bitmap[..], size);
      SetUsedBelow(metadataPages);
      MarkedAgrees(bitmap[..], size, metadataPages);
    }

    // Put all pages behind the metadata on the stack.
    method FillStack(metadataPages: nat)
      requires metadataPages <= size == stack.Length
      modifies this`stackTop, stack
      ensures stackTop == size - metadataPages - 1 && stack[..stackTop + 1] == InitialFree(metadataPages, size)
    {
      var stackIndex := 0;
      for i := metadataPages to size
        invariant stackIndex == i - metadataPages
        invariant forall k :: 0 <= k < stackIndex ==> stack[k] == metadataPages + k
      {
        stack[stackIndex] := i;
        stackIndex := stackIndex + 1;
      }
      stackTop := stackIndex - 1;
    }

    // Mark the metadata pages.
    method SetUsedBelow(metadataPages: nat)
      requires metadataPages <= size && MarkedBelow(bitmap[..], size, 0)
      modifies bitmap
      ensures MarkedBelow(bitmap[..], size, metadataPages)
    {
      for i := 0 to metadataPages
        invariant MarkedBelow(bitmap[..], size, i)
      {
        MarkNext(bitmap[..], size, i);
        SetUsed(i);
      }
    }

    method Allocate() returns (result: Option<nat>)
      requires Valid()
      modifies this`stackTop, bitmap
      ensures Valid()
      ensures (result, View()) == Alloc(old(View()))
      ensures result.None? <==> old(View()).free == []
      ensures result.None? ==> View() == old(View())
      ensures result.Some? ==>
                var free := old(View()).free;
                var page := free[|free| - 1];
                && View() == old(View()).(free := free[..|free| - 1])
                && result.value == base + (page * 4096) % 0x1_0000_0000
    {
      if stackTop < 0 || size <= 0 {
        return None;
      }
      var offset := stack[stackTop];
      ghost var before, free := bitmap[..], stack[..stackTop + 1];
      PopAgrees(before, size, free);
      SetUsed(offset);
      stackTop := stackTop - 1;
      assert stack[..stackTop + 1] == free[..|free| - 1];
      AddressOfPage(base, size, offset);
      result := Some(((offset * PAGE_SIZE) % U32_MOD + base) % U64_MOD);
      assert InRegion(base, size, result.value);
    }

    method IsFree(address: nat) returns (free: bool)
      requires Valid() && InRegion(base, size, address)
      ensures free <==> (address - base) / 4096 in View().free
    {
      var page := (address - base) / PAGE_SIZE;
      free := !TestBit(bitmap[page / 64], page % 64);
      assert free <==> !Used(bitmap[..], page);
    }

    // The result says whether all assertions held.  The two on the capacity of the stack are among
    // them, and never fail on their own.
    method FreePage(address: nat) returns (ok: bool)
      requires Valid()
      modifies this`stackTop, bitmap, stack
      ensures Valid()
      ensures ok <==> Free(old(View()), address).Some?
      ensures View() == if ok then Free(old(View()), address).value else old(View())
      ensures ok <==> base <= address < base + size * 4096 && (address - base) / 4096 !in old(View()).free
      ensures ok ==> View() == old(View()).(free := old(View()).free + [(address - base) / 4096])
    {
      hide Used;
      if !(base <= address < base + size * PAGE_SIZE) {
        return false;
      }
      var isFree := IsFree(address);
      if isFree {
        return false;
      }
      var page := (address - base) / PAGE_SIZE;
      ghost var before, free := bitmap[..], stack[..stackTop + 1];
      Pigeonhole(free, size, page);
      ok := stackTop + 1 < size && stackTop >= -1;
      if !ok {
        return;
      }
      PushAgrees(before, size, free, page);
      stackTop := stackTop + 1;
      stack[stackTop] := page;
      assert stack[..stackTop] == free && bitmap[..] == before;
      ClearUsed(page);
      assert stack[..stackTop + 1] == free + [page];
    }
  }

  // The pages that are free at first: all but the metadata pages, in ascending order.
  function InitialFree(meta: nat, pages: nat): seq<nat>
    requires meta <= pages
  {
    seq(pages - meta, i requires 0 <= i < pages - meta => meta + i)
  }

  lemma InitialFreeOk(meta: nat, pages: nat)
    requires meta <= pages
    ensures StackOk(pages, InitialFree(meta, pages))
    ensures forall q: nat :: q in InitialFree(meta, pages) <==> meta <= q < pages
    ensures |InitialFree(meta, pages)| == pages - meta
    ensures forall i :: 0 <= i < pages - meta ==> InitialFree(meta, pages)[i] == meta + i
  {
    var free := InitialFree(meta, pages);
    forall q: nat | meta <= q < pages ensures q in free {
      assert free[q - meta] == q;
    }
  }

  // Exactly the pages below `n` are marked as used.
  ghost predicate MarkedBelow(bitmap: seq<Word64>, size: nat, n: nat) {
    && |bitmap| == (size + 63) / 64
    && forall q :: 0 <= q < size ==> (Used(bitmap, q) <==> q < n)
  }

  lemma MarkNext(bitmap: seq<Word64>, size: nat, i: nat)
    requires MarkedBelow(bitmap, size, i) && i < size
    ensures MarkedBelow(SetUsedBit(bitmap, i), size, i + 1)
  {
    hide Used, SetUsedBit;
    SetUsedLength(bitmap, i);
    forall q | 0 <= q < size ensures Used(SetUsedBit(bitmap, i), q) <==> q < i + 1 {
      SetUsedBitTest(bitmap, i, q);
    }
  }

  // Then bitmap and stack agree.
  lemma MarkedAgrees(bitmap: seq<Word64>, size: nat, meta: nat)
    requires MarkedBelow(bitmap, size, meta) && meta <= size
    ensures BitmapAgrees(bitmap, size, InitialFree(meta, size))
  {
    hide Used;
    InitialFreeOk(meta, size);
  }

  lemma ZeroBitmap(bitmap: seq<Word64>, size: nat)
    requires |bitmap| == (size + 63) / 64 && forall k :: 0 <= k < |bitmap| ==> bitmap[k] == 0
    ensures MarkedBelow(bitmap, size, 0)
  {
    hide TestBit;
    forall q | 0 <= q < size ensures !Used(bitmap, q) {
      ZeroWord(q % 64);
    }
  }

  lemma PopAgrees(bitmap: seq<Word64>, size: nat, free: seq<nat>)
    requires free != [] && StackOk(size, free) && BitmapAgrees(bitmap, size, free)
    ensures var (page, rest) := (free[|free| - 1], free[..|free| - 1]);
            page < size && StackOk(size, rest) && BitmapAgrees(SetUsedBit(bitmap, page), size, rest)
  {
    hide Used, SetUsedBit;
    var (page, rest) := (free[|free| - 1], free[..|free| - 1]);
    assert free == rest + [page] && page !in rest && page in free;
    assert forall q :: q in rest ==> q in free;
    SetUsedLength(bitmap, page);
    forall q | 0 <= q < size ensures Used(SetUsedBit(bitmap, page), q) <==> q !in rest {
      SetUsedBitTest(bitmap, page, q);
    }
  }

  lemma SetUsedLength(bitmap: seq<Word64>, page: nat)
    requires page / 64 < |bitmap|
    ensures |SetUsedBit(bitmap, page)| == |ClearUsedBit(bitmap, page)| == |bitmap|
  {
  }

  lemma PushAgrees(bitmap: seq<Word64>, size: nat, free: seq<nat>, page: nat)
    requires StackOk(size, free) && BitmapAgrees(bitmap, size, free) && page < size && page !in free
    ensures StackOk(size, free + [page]) && BitmapAgrees(ClearUsedBit(bitmap, page), size, free + [page])
  {
    hide Used, ClearUsedBit;
    SetUsedLength(bitmap, page);
    forall q | 0 <= q < size ensures Used(ClearUsedBit(bitmap, page), q) <==> q !in free + [page] {
      ClearUsedBitTest(bitmap, page, q);
    }
  }
}
