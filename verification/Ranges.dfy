/**
  Address ranges, as stored in the nodes of the range tree: a start address and a length, both
  64-bit words.  Comparison is lexicographic; overlap is only ever asked of valid ranges.
 */
module Ranges {

  const UINTPTR_MAX: nat := 0xFFFF_FFFF_FFFF_FFFF

  type Word = x: nat | x <= UINTPTR_MAX

  datatype Range = Range(start: Word, len: Word)

  // Three-way comparison, by start and then by length.
  function Compare(a: Range, b: Range): int {
    if a.start < b.start then -1
    else if a.start > b.start then 1
    else if a.len < b.len then -1
    else if a.len > b.len then 1
    else 0
  }

  // A valid range is non-empty and its end is representable as a word.
  predicate ValidRange(r: Range) {
    && !(r.len <= 0)
    && !(r.len > UINTPTR_MAX - r.start)
  }

  // The machine addition, which wraps.
  function WrapAdd(a: Word, b: Word): Word {
    (a + b) % (UINTPTR_MAX + 1)
  }

  predicate Overlap(a: Range, b: Range)
    requires ValidRange(a) && ValidRange(b)
  {
    a.start < WrapAdd(b.start, b.len) && b.start < WrapAdd(a.start, a.len)
  }

  // The set of addresses that a range covers, independently of the code.
  ghost predicate Covers(r: Range, address: int) {
    r.start <= address < r.start + r.len
  }

  // Every address of `a` lies below every address of `b`.
  predicate Before(a: Range, b: Range) {
    a.start + a.len <= b.start
  }

  // The wrapping test is exact on valid ranges: it answers whether some address is in both.
  lemma OverlapIsSharedAddress(a: Range, b: Range)
    requires ValidRange(a) && ValidRange(b)
    ensures Overlap(a, b) <==> exists address :: Covers(a, address) && Covers(b, address)
    ensures Overlap(a, b) <==> !Before(a, b) && !Before(b, a)
  {
    var m := if a.start < b.start then b.start else a.start;
    if Overlap(a, b) {
      assert Covers(a, m) && Covers(b, m);
    }
  }

  // A range is valid if it covers an address and its end is a word.
  lemma ValidExactly(r: Range)
    ensures ValidRange(r) <==> (exists address :: Covers(r, address)) && r.start + r.len <= 0xFFFF_FFFF_FFFF_FFFF
  {
    assert r.len > 0 ==> Covers(r, r.start);
  }

  // Comparison is by start, and for equal starts by length.
  lemma CompareExactly(a: Range, b: Range)
    ensures Compare(a, b) == 0 <==> a == b
    ensures Compare(a, b) < 0 <==> a.start < b.start || (a.start == b.start && a.len < b.len)
    ensures Compare(a, b) > 0 <==> Compare(b, a) < 0
  {
  }

  // Comparison decides which of two disjoint ranges comes first.
  lemma CompareDisjoint(a: Range, b: Range)
    requires ValidRange(a) && ValidRange(b) && !Overlap(a, b)
    ensures Compare(a, b) < 0 <==> Before(a, b)
    ensures Compare(a, b) > 0 <==> Before(b, a)
    ensures Compare(a, b) != 0
  {
    OverlapIsSharedAddress(a, b);
  }

  // Some stored range overlaps `r`.
  ghost predicate OverlapsAny(r: Range, s: seq<Range>)
    requires ValidRange(r)
  {
    exists x :: x in s && ValidRange(x) && Overlap(r, x)
  }

  // Pairwise disjoint and ascending.
  ghost predicate Ascending(s: seq<Range>) {
    && (forall i :: 0 <= i < |s| ==> ValidRange(s[i]))
    && (forall i, j :: 0 <= i < j < |s| ==> Before(s[i], s[j]))
  }

  lemma AscendingMember(s: seq<Range>, x: Range)
    requires Ascending(s) && x in s
    ensures ValidRange(x)
  {
  }

  // An ascending sequence around a middle element, seen from the middle.
  ghost predicate AscendingParts(a: seq<Range>, m: Range, b: seq<Range>) {
    && Ascending(a) && Ascending(b) && ValidRange(m)
    && (forall x :: x in a ==> Before(x, m))
    && (forall y :: y in b ==> Before(m, y))
  }

  lemma AscendingSplit(a: seq<Range>, m: Range, b: seq<Range>)
    ensures Ascending(a + [m] + b) <==> AscendingParts(a, m, b)
  {
    if Ascending(a + [m] + b) {
      AscendingApart(a, m, b);
    }
    if AscendingParts(a, m, b) {
      AscendingJoin(a, m, b);
    }
  }

  lemma AscendingApart(a: seq<Range>, m: Range, b: seq<Range>)
    requires Ascending(a + [m] + b)
    ensures AscendingParts(a, m, b)
  {
    var s := a + [m] + b;
    assert s[|a|] == m;
    assert forall i :: 0 <= i < |a| ==> s[i] == a[i];
    assert forall j :: 0 <= j < |b| ==> s[|a| + 1 + j] == b[j];
  }

  lemma AscendingJoin(a: seq<Range>, m: Range, b: seq<Range>)
    requires AscendingParts(a, m, b)
    ensures Ascending(a + [m] + b)
  {
    var s := a + [m] + b;
    assert forall i :: 0 <= i < |a| ==> s[i] == a[i];
    assert forall j :: |a| < j < |s| ==> s[j] == b[j - |a| - 1];
    forall i, j | 0 <= i < j < |s| ensures Before(s[i], s[j]) {
      assert i < |a| ==> Before(s[i], m);
      assert j > |a| ==> Before(m, s[j]);
    }
  }
}
