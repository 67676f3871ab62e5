/**
  What the two searches by start address find, and the window on the in-order sequence that each
  step of a search narrows.
 */
module RbSearch {
  import opened Ranges
  import opened RbTree
  import opened RbMemory

  // Position `k` holds the greatest start below the argument.
  ghost predicate GreatestBelow(s: seq<Range>, k: nat, start: Word)
    requires k < |s|
  {
    && s[k].start < start
    && forall j :: 0 <= j < |s| && s[j].start < start ==> s[j].start <= s[k].start
  }

  // Position `k` holds the least start above the argument.
  ghost predicate LeastAbove(s: seq<Range>, k: nat, start: Word)
    requires k < |s|
  {
    && s[k].start > start
    && forall j :: 0 <= j < |s| && s[j].start > start ==> s[j].start >= s[k].start
  }

  // The subtree `s` stands at position `lo` of the whole; everything before it starts below the
  // bound and nothing after it does.
  ghost predicate Window(t: Tree, s: Tree, lo: nat, bound: nat) {
    && |Ids(t)| == |Contents(t)| && |Ids(s)| == |Contents(s)| && Ascending(Contents(t))
    && Segment(Ids(t), lo, Ids(s)) && Segment(Contents(t), lo, Contents(s))
    && (forall i :: 0 <= i < lo ==> Contents(t)[i].start < bound)
    && (forall i :: lo + |Ids(s)| <= i < |Ids(t)| ==> Contents(t)[i].start >= bound)
  }

  lemma WholeWindow(t: Tree, bound: nat)
    requires Ascending(Contents(t))
    ensures Window(t, t, 0, bound)
  {
    ContentsLength(t);
  }

  // The root of the window and its two sides, on the whole sequence.
  lemma WindowParts(t: Tree, s: Tree, lo: nat, bound: nat)
    requires s.Node? && Window(t, s, lo, bound)
    ensures var n := |Ids(s.left)|;
            && |Contents(s.left)| == n && |Ids(s.right)| == |Contents(s.right)|
            && |Ids(s)| == n + 1 + |Ids(s.right)| && lo + |Ids(s)| <= |Ids(t)|
            && Segment(Ids(t), lo, Ids(s.left)) && Segment(Contents(t), lo, Contents(s.left))
            && Segment(Ids(t), lo + n + 1, Ids(s.right)) && Segment(Contents(t), lo + n + 1, Contents(s.right))
            && Ids(t)[lo + n] == s.id && Contents(t)[lo + n] == s.range
  {
    hide Ascending;
    ContentsLength(s.left);
    ContentsLength(s.right);
    SegmentParts(Ids(t), lo, Ids(s.left), s.id, Ids(s.right));
    SegmentParts(Contents(t), lo, Contents(s.left), s.range, Contents(s.right));
  }

  lemma WindowRight(t: Tree, s: Tree, lo: nat, bound: nat)
    requires s.Node? && Window(t, s, lo, bound) && s.range.start < bound
    ensures Window(t, s.right, lo + |Ids(s.left)| + 1, bound)
    ensures lo + |Ids(s.left)| < |Ids(t)| && Ids(t)[lo + |Ids(s.left)|] == s.id
    ensures lo + |Ids(s.left)| + 1 + |Ids(s.right)| == lo + |Ids(s)|
  {
    hide Segment, Ids, Contents;
    WindowParts(t, s, lo, bound);
    forall i | lo <= i < lo + |Ids(s.left)| ensures Contents(t)[i].start < bound {
      assert Before(Contents(t)[i], Contents(t)[lo + |Ids(s.left)|]);
    }
  }

  lemma WindowLeft(t: Tree, s: Tree, lo: nat, bound: nat)
    requires s.Node? && Window(t, s, lo, bound) && s.range.start >= bound
    ensures Window(t, s.left, lo, bound)
    ensures lo + |Ids(s.left)| < |Ids(t)| && Ids(t)[lo + |Ids(s.left)|] == s.id
  {
    hide Segment, Ids, Contents;
    WindowParts(t, s, lo, bound);
    forall i | lo + |Ids(s.left)| < i < lo + |Ids(s)| ensures Contents(t)[i].start >= bound {
      assert Before(Contents(t)[lo + |Ids(s.left)|], Contents(t)[i]);
    }
  }

  // When a search has ended, the answers stand on the two sides of the closed window.
  lemma WindowClosed(t: Tree, lo: nat, bound: nat)
    requires Window(t, Nil, lo, bound)
    ensures lo <= |Ids(t)| == |Contents(t)|
    ensures lo == 0 <==> forall x :: x in Contents(t) ==> x.start >= bound
    ensures lo == |Ids(t)| <==> forall x :: x in Contents(t) ==> x.start < bound
    ensures lo > 0 && bound <= UINTPTR_MAX ==> GreatestBelow(Contents(t), lo - 1, bound)
    ensures lo < |Ids(t)| && bound > 0 ==> LeastAbove(Contents(t), lo, bound - 1)
  {
    var s := Contents(t);
    if lo > 0 {
      assert s[lo - 1] in s && s[lo - 1].start < bound;
      forall j | 0 <= j < |s| && s[j].start < bound ensures s[j].start <= s[lo - 1].start {
        if j < lo - 1 {
          assert Before(s[j], s[lo - 1]);
        }
      }
    }
    if lo < |s| {
      assert s[lo] in s && s[lo].start >= bound;
      forall j | 0 <= j < |s| && s[j].start >= bound ensures s[j].start >= s[lo].start {
        if j > lo {
          assert Before(s[lo], s[j]);
        }
      }
    }
  }
}
