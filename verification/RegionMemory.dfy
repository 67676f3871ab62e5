/**
  A region as plain memory: the header, the bitmap and the stack of its allocator lie in the same bytes
  that the allocator manages.  Writing pages that are handed out leaves them alone, exactly up to 2^20
  pages.
 */
module RegionMemory {
  import opened Options
  import opened PhysicalAllocator
  import opened AllocatorRuns

  type Bytes = nat -> bv8

  function Slice(mem: Bytes, at: nat, n: nat): seq<bv8> {
    seq(n, i requires 0 <= i < n => mem(at + i))
  }

  // Everything the allocator of a region keeps: its header, and the words of its bitmap and its stack.
  datatype Books = Books(header: seq<bv8>, bitmap: seq<seq<bv8>>, stack: seq<seq<bv8>>)

  function BooksOf(mem: Bytes, base: nat, pages: nat): Books {
    Books(Slice(mem, base, HEADER_SIZE),
          seq((pages + 63) / 64, n requires 0 <= n < (pages + 63) / 64 => Slice(mem, BitmapWordAt(base, n), 8)),
          seq(pages, n requires 0 <= n < pages => Slice(mem, StackWordAt(base, pages, n), 4)))
  }

  function WritePage(mem: Bytes, at: nat, contents: seq<bv8>): Bytes
    requires |contents| == PAGE_SIZE
  {
    (a: nat) => if at <= a < at + PAGE_SIZE then contents[a - at] else mem(a)
  }

  // No write to the page at an address changes the books.
  ghost predicate SparesBooks(base: nat, pages: nat, at: nat) {
    forall mem: Bytes, contents: seq<bv8> :: |contents| == PAGE_SIZE ==>
      BooksOf(WritePage(mem, at, contents), base, pages) == BooksOf(mem, base, pages)
  }

  lemma SliceSpared(mem: Bytes, at: nat, contents: seq<bv8>, from: nat, n: nat)
    requires |contents| == PAGE_SIZE && (from + n <= at || at + PAGE_SIZE <= from)
    ensures Slice(WritePage(mem, at, contents), from, n) == Slice(mem, from, n)
  {
  }

  lemma BooksEnd(base: nat, pages: nat)
    ensures RequiredSize(pages) == HEADER_SIZE + (pages + 63) / 64 * 8 + pages * 4
    ensures base + RequiredSize(pages) == StackWordAt(base, pages, pages)
    ensures StackWordAt(base, pages, 0) == BitmapWordAt(base, (pages + 63) / 64)
  {
  }

  // A page at or behind the end of the books, or before the region, is spared.
  lemma OutsideSpares(base: nat, pages: nat, at: nat)
    requires at + PAGE_SIZE <= base || base + RequiredSize(pages) <= at
    ensures SparesBooks(base, pages, at)
  {
    forall mem: Bytes, contents: seq<bv8> | |contents| == PAGE_SIZE
      ensures BooksOf(WritePage(mem, at, contents), base, pages) == BooksOf(mem, base, pages)
    {
      BooksSpared(mem, base, pages, at, contents);
    }
  }

  lemma BooksSpared(mem: Bytes, base: nat, pages: nat, at: nat, contents: seq<bv8>)
    requires |contents| == PAGE_SIZE && (at + PAGE_SIZE <= base || base + RequiredSize(pages) <= at)
    ensures BooksOf(WritePage(mem, at, contents), base, pages) == BooksOf(mem, base, pages)
  {
    hide WritePage, Slice, RequiredSize;
    var mem' := WritePage(mem, at, contents);
    BooksEnd(base, pages);
    SliceSpared(mem, at, contents, base, HEADER_SIZE);
    forall n: nat | n < (pages + 63) / 64 ensures Slice(mem', BitmapWordAt(base, n), 8) == Slice(mem, BitmapWordAt(base, n), 8) {
      SliceSpared(mem, at, contents, BitmapWordAt(base, n), 8);
    }
    forall n: nat | n < pages ensures Slice(mem', StackWordAt(base, pages, n), 4) == Slice(mem, StackWordAt(base, pages, n), 4) {
      SliceSpared(mem, at, contents, StackWordAt(base, pages, n), 4);
    }
    assert BooksOf(mem', base, pages).bitmap == BooksOf(mem, base, pages).bitmap;
    assert BooksOf(mem', base, pages).stack == BooksOf(mem, base, pages).stack;
  }

  // Every byte before that end belongs to the books.
  lemma ByteMatters(mem: Bytes, mem': Bytes, base: nat, pages: nat, x: nat)
    requires base <= x < base + RequiredSize(pages) && mem(x) != mem'(x)
    ensures BooksOf(mem, base, pages) != BooksOf(mem', base, pages)
  {
    hide RequiredSize;
    BooksEnd(base, pages);
    var (b, c) := (BooksOf(mem, base, pages), BooksOf(mem', base, pages));
    if x < base + HEADER_SIZE {
      assert b.header[x - base] != c.header[x - base];
    } else if x < StackWordAt(base, pages, 0) {
      var n := (x - base - HEADER_SIZE) / 8;
      assert b.bitmap[n][x - BitmapWordAt(base, n)] != c.bitmap[n][x - BitmapWordAt(base, n)];
    } else {
      var n := (x - StackWordAt(base, pages, 0)) / 4;
      assert b.stack[n][x - StackWordAt(base, pages, n)] != c.stack[n][x - StackWordAt(base, pages, n)];
    }
  }

  // So writes spare the books exactly outside of them.
  lemma SparedExactly(base: nat, pages: nat, at: nat)
    ensures SparesBooks(base, pages, at) <==> at + PAGE_SIZE <= base || base + RequiredSize(pages) <= at
  {
    hide BooksOf, RequiredSize, BitmapSize;
    BooksEnd(base, pages);
    if at + PAGE_SIZE <= base || base + RequiredSize(pages) <= at {
      OutsideSpares(base, pages, at);
    } else {
      var x := if at < base then base else at;
      var mem: Bytes := _ => 0;
      var contents: seq<bv8> := seq(PAGE_SIZE, _ => 1);
      assert WritePage(mem, at, contents)(x) == 1;
      ByteMatters(mem, WritePage(mem, at, contents), base, pages, x);
    }
  }

  // ---------- runs ----------

  // Whatever an allocation of a run hands out can be written without changing the books of any region.
  ghost predicate PagesSpareBooks(b: Bank) {
    forall ops: seq<Op>, b': Bank, k: nat, l: nat ::
      Runs(b, ops, b') && k < |b'.regions| && l < |b'.regions| && Alloc(b'.regions[k]).0.Some? ==>
        SparesBooks(b'.regions[l].base, b'.regions[l].size, Alloc(b'.regions[k]).0.value)
  }

  lemma WellGivenSpares(b: Bank, k: nat, l: nat)
    requires Accounted(b) && k < |b.regions| && l < |b.regions| && Alloc(b.regions[k]).0.Some?
    requires forall j :: 0 <= j < |b.regions| ==> b.meta[j] == MetadataPages(b.regions[j].size)
    requires WellGiven(b, k)
    ensures SparesBooks(b.regions[l].base, b.regions[l].size, Alloc(b.regions[k]).0.value)
  {
    hide Alloc, SparesBooks, RequiredSize, BitmapSize;
    var (r, s, a) := (b.regions[k], b.regions[l], Alloc(b.regions[k]).0.value);
    BooksInRegion(s.base, s.size);
    if k != l {
      assert if k < l then RegionsApart(r, s) else RegionsApart(s, r);
    }
    var page := (a - r.base) / PAGE_SIZE;
    assert a == r.base + page * PAGE_SIZE && page < r.size;
    OutsideSpares(s.base, s.size, a);
  }

  lemma BooksInRegion(base: nat, pages: nat)
    requires Fits(base, pages)
    ensures RequiredSize(pages) <= MetadataPages(pages) * PAGE_SIZE && MetadataPages(pages) <= pages
  {
    MetadataFits(pages, 0);
  }

  // The sizes and the metadata of the regions never change.
  lemma {:induction false} RunKeepsShape(b: Bank, ops: seq<Op>, b': Bank)
    requires Runs(b, ops, b') && |b.meta| == |b.regions|
    ensures |b'.regions| == |b.regions| && b'.meta == b.meta
    ensures forall j :: 0 <= j < |b.regions| ==> b'.regions[j].size == b.regions[j].size && b'.regions[j].base == b.regions[j].base
    decreases |ops|
  {
    hide PageAddress, InRegion;
    if ops != [] {
      RunKeepsShape(Step(b, ops[0]), ops[1..], b');
    }
  }

  // In every run from setup: exactly if no region has more than 2^20 pages.
  lemma BooksAreSafeExactly(b: Bank)
    requires Fresh(b)
    ensures PagesSpareBooks(b) <==> Exactable(b)
  {
    hide Runs, SparesBooks, Accounted, WellGiven, Fits, Alloc, RegionsApart, FreshFree;
    if Exactable(b) {
      FreshAccounted(b);
      forall ops: seq<Op>, b': Bank, k: nat, l: nat |
        Runs(b, ops, b') && k < |b'.regions| && l < |b'.regions| && Alloc(b'.regions[k]).0.Some?
        ensures SparesBooks(b'.regions[l].base, b'.regions[l].size, Alloc(b'.regions[k]).0.value)
      {
        RunKeepsShape(b, ops, b');
        RunKeepsAccounts(b, ops, b');
        NoPageTwice(b, ops, b', k);
        WellGivenSpares(b', k, l);
      }
    } else {
      var k: nat :| k < |b.regions| && b.regions[k].size > 0x10_0000;
      var ops, b' := SharingRun(b, k);
      RunKeepsShape(b, ops, b');
      SparedExactly(b'.regions[k].base, b'.regions[k].size, Alloc(b'.regions[k]).0.value);
    }
  }
}
