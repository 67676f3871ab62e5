/**
  Correctness of insertion: balance, order, exact contents, and the overlap test on one search path.
 */
module RbInsert {
  import opened Options
  import opened Ranges
  import opened RbTree

  // Both colour rules, except that a red root may have one red child.
  predicate AlmostRedBlack(t: Tree) {
    && t.Node? && Balanced(t) && NoRedRed(t.left) && NoRedRed(t.right)
    && !(t.color == Red && t.left.IsRed() && t.right.IsRed())
  }

  // The recursive contract: black height is kept, and a red-red pair can only be at the returned
  // root, and only when the subtree's root was red before.
  ghost predicate GrownFrom(t: Tree, t': Tree) {
    && AlmostRedBlack(t')
    && BlackHeight(t') == BlackHeight(t)
    && (!t.IsRed() ==> NoRedRed(t'))
  }

  // The fix-up removes a red-red pair below a black node, and leaves one alone below a red node
  // (whose parent will remove it).
  lemma FixUpRestores(t: Tree, d: Dir, child: Tree)
    requires t.Node? && RedBlack(t)
    requires GrownFrom(t.Child(d), child)
    ensures GrownFrom(t, InsertFixUp(t.SetChild(d, child), d))
  {
    var u := t.SetChild(d, child);
    assert BlackHeight(u.left) == BlackHeight(u.right);
    assert d.Flip().Flip() == d;
    if d.Left? {
      FixUpLeft(t, child);
    } else {
      FixUpRight(t, child);
    }
  }

  lemma FixUpLeft(t: Tree, child: Tree)
    requires t.Node? && RedBlack(t)
    requires GrownFrom(t.left, child)
    ensures GrownFrom(t, InsertFixUp(t.(left := child), Left))
  {
    var u := t.(left := child);
    if t.color == Black && child.IsRed() {
      if t.right.IsRed() {
        assert Balanced(child.SetColor(Black)) && NoRedRed(child.left);
        assert RedBlack(t.right);
        assert Balanced(t.right.SetColor(Black)) && NoRedRed(t.right.SetColor(Black));
      } else if child.left.IsRed() {
        var low := Node(t.id, Red, t.range, child.right, t.right);
        assert Balanced(low) && NoRedRed(low);
        assert InsertFixUp(u, Left) == Node(child.id, Black, child.range, child.left, low);
      } else if child.right.IsRed() {
        var m := child.right;
        assert RedBlack(m);
        var (a, b) := (Node(child.id, Red, child.range, child.left, m.left), Node(t.id, Red, t.range, m.right, t.right));
        assert Balanced(a) && NoRedRed(a) && Balanced(b) && NoRedRed(b);
        assert InsertFixUp(u, Left) == Node(m.id, Black, m.range, a, b);
      }
    }
  }

  lemma FixUpRight(t: Tree, child: Tree)
    requires t.Node? && RedBlack(t)
    requires GrownFrom(t.right, child)
    ensures GrownFrom(t, InsertFixUp(t.(right := child), Right))
  {
    var u := t.(right := child);
    if t.color == Black && child.IsRed() {
      if t.left.IsRed() {
        assert Balanced(child.SetColor(Black)) && NoRedRed(child.left);
        assert RedBlack(t.left);
        assert Balanced(t.left.SetColor(Black)) && NoRedRed(t.left.SetColor(Black));
      } else if child.right.IsRed() {
        var low := Node(t.id, Red, t.range, t.left, child.left);
        assert Balanced(low) && NoRedRed(low);
        assert InsertFixUp(u, Right) == Node(child.id, Black, child.range, low, child.right);
      } else if child.left.IsRed() {
        var m := child.left;
        assert RedBlack(m);
        var (a, b) := (Node(t.id, Red, t.range, t.left, m.left), Node(child.id, Red, child.range, m.right, child.right));
        assert Balanced(a) && NoRedRed(a) && Balanced(b) && NoRedRed(b);
        assert InsertFixUp(u, Right) == Node(m.id, Black, m.range, a, b);
      }
    }
  }

  lemma FixUpKeepsOrder(t: Tree, d: Dir)
    requires t.Node?
    ensures Ids(InsertFixUp(t, d)) == Ids(t)
    ensures Contents(InsertFixUp(t, d)) == Contents(t)
  {
    assert d.Flip().Flip() == d;
    if t.Child(d).IsRed() && !t.Child(d.Flip()).IsRed() {
      if t.Child(d).Child(d).IsRed() {
        RotateKeepsOrder(t, d.Flip());
      } else if t.Child(d).Child(d.Flip()).IsRed() {
        DoubleRotateKeepsOrder(t, d.Flip());
      }
    } else {
      assert Ids(FlipRoot(t.left)) == Ids(t.left) && Ids(FlipRoot(t.right)) == Ids(t.right);
      assert Contents(FlipRoot(t.left)) == Contents(t.left) && Contents(FlipRoot(t.right)) == Contents(t.right);
    }
  }

  // Only the ranges on one search path are compared, yet the answer is about the whole tree.
  lemma {:induction false} HelperStatus(t: Tree, range: Range, slot: Option<Ref>)
    requires ValidRange(range) && Ascending(Contents(t))
    ensures AllValid(t) && (forall x :: x in Contents(t) ==> ValidRange(x))
    ensures InsertHelper(t, range, slot).1 == InsertOverlap <==> OverlapsAny(range, Contents(t))
    ensures InsertHelper(t, range, slot).1 == InsertOom ==> slot.None?
    ensures InsertHelper(t, range, slot).1 == InsertOk ==> slot.Some?
    ensures InsertHelper(t, range, slot).1 != InsertOk ==> InsertHelper(t, range, slot).0 == t
  {
    OrderedIsValid(t);
    if t.Node? {
      OrderedParts(t);
      if Overlap(range, t.range) {
        assert t.range in Contents(t);
      } else {
        CompareDisjoint(range, t.range);
        var d := SearchDir(range, t.range);
        HelperStatus(t.Child(d), range, slot);
        forall x | x in Contents(t.Child(d.Flip())) ensures ValidRange(x) && !Overlap(range, x) {
          OverlapIsSharedAddress(range, x);
        }
      }
    }
  }

  lemma {:induction false} HelperBalance(t: Tree, range: Range, slot: Option<Ref>)
    requires ValidRange(range) && AllValid(t)
    requires RedBlack(t)
    requires InsertHelper(t, range, slot).1 == InsertOk
    ensures GrownFrom(t, InsertHelper(t, range, slot).0)
  {
    if t.Node? {
      var d := SearchDir(range, t.range);
      HelperBalance(t.Child(d), range, slot);
      FixUpRestores(t, d, InsertHelper(t.Child(d), range, slot).0);
    }
  }

  function InsertAt<T>(s: seq<T>, k: nat, x: T): (r: seq<T>)
    requires k <= |s|
  {
    s[..k] + [x] + s[k..]
  }

  lemma InsertAtLeft<T>(a: seq<T>, m: T, b: seq<T>, k: nat, x: T)
    requires k <= |a|
    ensures InsertAt(a + [m] + b, k, x) == InsertAt(a, k, x) + [m] + b
  {
    var s := a + [m] + b;
    assert s[..k] == a[..k];
    assert s[k..] == a[k..] + [m] + b;
  }

  lemma InsertAtRight<T>(a: seq<T>, m: T, b: seq<T>, k: nat, x: T)
    requires k <= |b|
    ensures InsertAt(a + [m] + b, |a| + 1 + k, x) == a + [m] + InsertAt(b, k, x)
  {
    var s := a + [m] + b;
    assert s[..|a| + 1 + k] == a + [m] + b[..k];
    assert s[|a| + 1 + k..] == b[k..];
  }

  // What one level of the recursion adds to the in-order sequences, given what the level below did.
  lemma LinkContents(t: Tree, d: Dir, child: Tree, k: nat, id: Ref, range: Range)
    requires t.Node? && |Ids(t.left)| == |Contents(t.left)| && |Ids(t.right)| == |Contents(t.right)|
    requires k <= |Ids(t.Child(d))|
    requires Ids(child) == InsertAt(Ids(t.Child(d)), k, id)
    requires Contents(child) == InsertAt(Contents(t.Child(d)), k, range)
    ensures var at := if d.Left? then k else |Ids(t.left)| + 1 + k;
            && at <= |Ids(t)| == |Contents(t)|
            && Ids(t.SetChild(d, child)) == InsertAt(Ids(t), at, id)
            && Contents(t.SetChild(d, child)) == InsertAt(Contents(t), at, range)
  {
    if d.Left? {
      InsertAtLeft(Ids(t.left), t.id, Ids(t.right), k, id);
      InsertAtLeft(Contents(t.left), t.range, Contents(t.right), k, range);
    } else {
      InsertAtRight(Ids(t.left), t.id, Ids(t.right), k, id);
      InsertAtRight(Contents(t.left), t.range, Contents(t.right), k, range);
    }
  }

  // One level of the recursion.
  lemma HelperStep(t: Tree, range: Range, slot: Option<Ref>)
    requires ValidRange(range) && AllValid(t) && t.Node?
    ensures var d := SearchDir(range, t.range);
            if Overlap(range, t.range) then InsertHelper(t, range, slot) == (t, InsertOverlap)
            else
              && InsertHelper(t, range, slot).1 == InsertHelper(t.Child(d), range, slot).1
              && InsertHelper(t, range, slot).0 ==
                 (if InsertHelper(t.Child(d), range, slot).1 == InsertOk
                  then InsertFixUp(t.SetChild(d, InsertHelper(t.Child(d), range, slot).0), d) else t)
  {
  }

  // On success exactly one entry is added, at the end of the search path.
  ghost predicate AddedOne(t: Tree, range: Range, slot: Option<Ref>)
    requires ValidRange(range) && AllValid(t)
  {
    && slot.Some? && |Ids(t)| == |Contents(t)|
    && Ids(InsertHelper(t, range, slot).0) == InsertAt(Ids(t), InsertPos(t, range), slot.value)
    && Contents(InsertHelper(t, range, slot).0) == InsertAt(Contents(t), InsertPos(t, range), range)
  }

  lemma AddedBelow(t: Tree, range: Range, slot: Option<Ref>)
    requires ValidRange(range) && AllValid(t) && t.Node?
    requires InsertHelper(t, range, slot).1 == InsertOk
    requires AddedOne(t.Child(SearchDir(range, t.range)), range, slot)
    ensures AddedOne(t, range, slot)
  {
    hide InsertHelper, InsertFixUp, InsertAt, Ids, Contents, Overlap, Compare;
    var d := SearchDir(range, t.range);
    HelperStep(t, range, slot);
    assert InsertPos(t, range) == (if d.Left? then 0 else |Ids(t.left)| + 1) + InsertPos(t.Child(d), range);
    hide InsertPos;
    var child := InsertHelper(t.Child(d), range, slot).0;
    ContentsLength(t.left);
    ContentsLength(t.right);
    LinkContents(t, d, child, InsertPos(t.Child(d), range), slot.value, range);
    FixUpKeepsOrder(t.SetChild(d, child), d);
  }

  lemma {:induction false} HelperContents(t: Tree, range: Range, slot: Option<Ref>)
    requires ValidRange(range) && AllValid(t)
    requires InsertHelper(t, range, slot).1 == InsertOk
    ensures AddedOne(t, range, slot)
  {
    if t.Node? {
      HelperStep(t, range, slot);
      HelperContents(t.Child(SearchDir(range, t.range)), range, slot);
      AddedBelow(t, range, slot);
    }
  }

  // The insertion point separates the smaller from the larger ranges.
  lemma {:induction false} InsertPosSeparates(t: Tree, range: Range)
    requires ValidRange(range) && Ascending(Contents(t))
    requires forall x :: x in Contents(t) ==> ValidRange(x) && !Overlap(range, x)
    ensures |Ids(t)| == |Contents(t)|
    ensures forall x :: x in Contents(t)[..InsertPos(t, range)] ==> Before(x, range)
    ensures forall y :: y in Contents(t)[InsertPos(t, range)..] ==> Before(range, y)
  {
    hide Ascending, Overlap, Compare;
    ContentsLength(t);
    if t.Node? {
      ContentsLength(t.left);
      OrderedParts(t);
      assert t.range in Contents(t);
      CompareDisjoint(range, t.range);
      var d := SearchDir(range, t.range);
      InsertPosSeparates(t.Child(d), range);
      var k := InsertPos(t.Child(d), range);
      if d.Left? {
        SliceLeft(Contents(t.left), t.range, Contents(t.right), k);
      } else {
        SliceRight(Contents(t.left), t.range, Contents(t.right), k);
      }
    }
  }

  lemma SliceLeft<T>(a: seq<T>, m: T, b: seq<T>, k: nat)
    requires k <= |a|
    ensures (a + [m] + b)[..k] == a[..k]
    ensures (a + [m] + b)[k..] == a[k..] + [m] + b
  {
  }

  lemma SliceRight<T>(a: seq<T>, m: T, b: seq<T>, k: nat)
    requires k <= |b|
    ensures (a + [m] + b)[..|a| + 1 + k] == a + [m] + b[..k]
    ensures (a + [m] + b)[|a| + 1 + k..] == b[k..]
  {
  }

  // Insertion as a whole, on every well-formed tree, every valid range and either pool outcome.
  lemma InsertCorrect(t: Tree, range: Range, slot: Option<Ref>)
    requires WellFormed(t) && ValidRange(range)
    ensures AllValid(t) && (forall x :: x in Contents(t) ==> ValidRange(x))
    ensures var (t', status) := Insert(t, range, slot);
            && WellFormed(t')
            && |Ids(t)| == |Contents(t)|
            && (status == InsertOverlap <==> OverlapsAny(range, Contents(t)))
            && (status == InsertOom <==> slot.None? && !OverlapsAny(range, Contents(t)))
            && (status != InsertOk ==> t' == t)
            && (status == InsertOk ==>
                  && slot.Some?
                  && Ids(t') == InsertAt(Ids(t), InsertPos(t, range), slot.value)
                  && Contents(t') == InsertAt(Contents(t), InsertPos(t, range), range))
  {
    ContentsLength(t);
    HelperStatus(t, range, slot);
    var (root, status) := InsertHelper(t, range, slot);
    if status == InsertOk {
      HelperBalance(t, range, slot);
      HelperContents(t, range, slot);
      InsertPosSeparates(t, range);
      var k := InsertPos(t, range);
      var (a, b) := (Contents(t)[..k], Contents(t)[k..]);
      assert Ascending(a) && Ascending(b);
      AscendingSplit(a, range, b);
      assert Contents(root.SetColor(Black)) == Contents(root);
      assert Ids(root.SetColor(Black)) == Ids(root);
    }
  }
}
