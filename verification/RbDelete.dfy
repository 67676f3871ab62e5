/**
  Correctness of deletion: the status contract of the rebalancing, order, and exact contents,
  including the case that copies the heir's range and deletes the heir's node further down.
 */
module RbDelete {
  import opened Options
  import opened Ranges
  import opened RbTree

  // A node whose child in direction `d` has lost one black level; `h` is the black height that the
  // node's subtree had before.
  ghost predicate Short(t: Tree, d: Dir, h: nat) {
    && t.Node? && RedBlack(t.left) && RedBlack(t.right)
    && BlackHeight(t.Child(d)) + 1 == BlackHeight(t.Child(d.Flip()))
    && h == BlackHeight(t.Child(d.Flip())) + (if t.IsRed() then 0 else 1)
    && !t.Child(d).IsRed()
    && (t.IsRed() ==> !t.Child(d.Flip()).IsRed())
  }

  // The status contract: OK keeps the black height `h`, FAIL loses exactly one level and then the
  // root is not red; the root turns red only if it was red.
  ghost predicate Settled(h: nat, wasRed: bool, r: (Tree, DeleteStatus)) {
    && RedBlack(r.0)
    && (r.1 == DeleteOk ==> BlackHeight(r.0) == h)
    && (r.1 == DeleteFail ==> BlackHeight(r.0) + 1 == h && !r.0.IsRed())
    && (r.0.IsRed() ==> wasRed)
  }

  // The sibling exists, and so do both nodes that are recoloured black after the rotation.
  lemma FixParentSettles(p: Tree, d: Dir, h: nat)
    requires Short(p, d, h) && !p.Child(d.Flip()).IsRed()
    ensures p.Child(d.Flip()).Node?
    ensures var s := p.Child(d.Flip());
            (s.left.IsRed() || s.right.IsRed()) ==>
              && (!s.Child(d.Flip()).IsRed() ==> s.Child(d).Node?)
              && var top := if s.Child(d.Flip()).IsRed() then Rotate(p, d) else DoubleRotate(p, d);
                 top.left.Node? && top.right.Node?
    ensures Settled(h, p.IsRed(), DeleteFixParent(p, d))
  {
    hide DeleteFixParent, Settled, Rotate, DoubleRotate;
    var s := p.Child(d.Flip());
    if s.left.IsRed() || s.right.IsRed() {
      if s.Child(d.Flip()).IsRed() {
        OuterSettles(p, d, h);
      } else {
        InnerSettles(p, d, h);
      }
    } else {
      PaleSettles(p, d, h);
    }
  }

  // No red child of the sibling: recolour.
  lemma PaleSettles(p: Tree, d: Dir, h: nat)
    requires Short(p, d, h) && p.Child(d.Flip()).Node? && !p.Child(d.Flip()).IsRed()
    requires var s := p.Child(d.Flip()); !s.left.IsRed() && !s.right.IsRed()
    ensures Settled(h, p.IsRed(), DeleteFixParent(p, d))
  {
    assert RedBlack(p.Child(d.Flip()).SetColor(Red));
  }

  // A red child on the outside: one rotation.
  lemma OuterSettles(p: Tree, d: Dir, h: nat)
    requires Short(p, d, h) && p.Child(d.Flip()).Node? && !p.Child(d.Flip()).IsRed() && p.Child(d.Flip()).Child(d.Flip()).IsRed()
    ensures Rotate(p, d).left.Node? && Rotate(p, d).right.Node?
    ensures Settled(h, p.IsRed(), DeleteFixParent(p, d))
  {
    var s := p.Child(d.Flip());
    assert RedBlack(s.left) && RedBlack(s.right);
    if d.Left? {
      var low := Node(p.id, Black, p.range, p.left, s.left);
      assert RedBlack(low) && RedBlack(s.right.SetColor(Black));
      assert DeleteFixParent(p, d).0 == Node(s.id, p.color, s.range, low, s.right.SetColor(Black));
    } else {
      var low := Node(p.id, Black, p.range, s.right, p.right);
      assert RedBlack(low) && RedBlack(s.left.SetColor(Black));
      assert DeleteFixParent(p, d).0 == Node(s.id, p.color, s.range, s.left.SetColor(Black), low);
    }
  }

  // A red child on the inside only: two rotations.
  lemma InnerSettles(p: Tree, d: Dir, h: nat)
    requires Short(p, d, h) && p.Child(d.Flip()).Node? && !p.Child(d.Flip()).IsRed()
    requires var s := p.Child(d.Flip()); s.Child(d).IsRed() && !s.Child(d.Flip()).IsRed()
    ensures DoubleRotate(p, d).left.Node? && DoubleRotate(p, d).right.Node?
    ensures Settled(h, p.IsRed(), DeleteFixParent(p, d))
  {
    var s := p.Child(d.Flip());
    var m := s.Child(d);
    assert RedBlack(s.left) && RedBlack(s.right) && RedBlack(m.left) && RedBlack(m.right);
    if d.Left? {
      var (a, b) := (Node(p.id, Black, p.range, p.left, m.left), Node(s.id, Black, s.range, m.right, s.right));
      assert RedBlack(a) && RedBlack(b);
      assert DeleteFixParent(p, d).0 == Node(m.id, p.color, m.range, a, b);
    } else {
      var (a, b) := (Node(s.id, Black, s.range, s.left, m.left), Node(p.id, Black, p.range, m.right, p.right));
      assert RedBlack(a) && RedBlack(b);
      assert DeleteFixParent(p, d).0 == Node(m.id, p.color, m.range, a, b);
    }
  }

  // Rotating a red sibling away leaves a red parent that is still short, with a black sibling.
  lemma RedSiblingReduction(t: Tree, d: Dir, h: nat)
    requires Short(t, d, h) && t.Child(d.Flip()).IsRed()
    ensures var p := Rotate(t, d).Child(d);
            Short(p, d, h - 1) && p.IsRed() && !p.Child(d.Flip()).IsRed()
    ensures !Rotate(t, d).IsRed() && RedBlack(Rotate(t, d).Child(d.Flip()))
    ensures BlackHeight(Rotate(t, d).Child(d.Flip())) == h - 1
  {
    var s := t.Child(d.Flip());
    assert RedBlack(s.left) && RedBlack(s.right);
  }

  lemma FixUpSettles(t: Tree, d: Dir, h: nat)
    requires Short(t, d, h)
    ensures Settled(h, t.IsRed(), DeleteFixUp(t, d))
  {
    if t.Child(d.Flip()).IsRed() {
      RedSiblingReduction(t, d, h);
      FixParentSettles(Rotate(t, d).Child(d), d, h - 1);
    } else {
      FixParentSettles(t, d, h);
    }
  }

  // A failed step below leaves the node short on that side.
  lemma BelowShort(t: Tree, d: Dir, below: (Tree, DeleteStatus))
    requires t.Node? && RedBlack(t) && below.1 == DeleteFail
    requires Settled(BlackHeight(t.Child(d)), t.Child(d).IsRed(), below)
    ensures Short(t.SetChild(d, below.0), d, BlackHeight(t))
  {
  }

  lemma BelowSettles(t: Tree, d: Dir, below: (Tree, DeleteStatus))
    requires t.Node? && RedBlack(t)
    requires Settled(BlackHeight(t.Child(d)), t.Child(d).IsRed(), below)
    ensures Settled(BlackHeight(t), t.IsRed(), DeleteBelow(t, d, below))
  {
    if below.1 == DeleteFail {
      BelowShort(t, d, below);
      FixUpSettles(t.SetChild(d, below.0), d, BlackHeight(t));
    }
  }

  // The status contract at every level, on every balanced tree and for every range.
  lemma {:induction false} HelperSettles(t: Tree, range: Range)
    requires RedBlack(t)
    ensures Settled(BlackHeight(t), t.IsRed(), DeleteHelper(t, range))
  {
    if t.Node? {
      if Compare(t.range, range) == 0 {
        if t.left.Nil? || t.right.Nil? {
          var temp := if t.right.Node? then t.right else t.left;
          if temp.IsRed() {
            assert RedBlack(temp);
            assert RedBlack(temp.SetColor(Black));
          }
        } else {
          var heir := Rightmost(t.left).range;
          HelperSettles(t.left, heir);
          BelowSettles(t.(range := heir), Left, DeleteHelper(t.left, heir));
        }
      } else {
        var d := SearchDir(range, t.range);
        HelperSettles(t.Child(d), range);
        BelowSettles(t, d, DeleteHelper(t.Child(d), range));
      }
    }
  }

  // ---------- order and contents ----------

  lemma FixParentKeepsOrder(p: Tree, d: Dir)
    requires p.Node?
    ensures Ids(DeleteFixParent(p, d).0) == Ids(p)
    ensures Contents(DeleteFixParent(p, d).0) == Contents(p)
  {
    var s := p.Child(d.Flip());
    if s.Node? {
      assert Ids(s.SetColor(Red)) == Ids(s) && Contents(s.SetColor(Red)) == Contents(s);
      if s.left.IsRed() || s.right.IsRed() {
        var top;
        if s.Child(d.Flip()).IsRed() {
          top := Rotate(p, d);
          RotateKeepsOrder(p, d);
        } else {
          top := DoubleRotate(p, d);
          DoubleRotateKeepsOrder(p, d);
        }
        BlackenKeepsOrder(top.left);
        BlackenKeepsOrder(top.right);
      }
    }
  }

  lemma BlackenKeepsOrder(t: Tree)
    ensures Ids(Blacken(t)) == Ids(t) && Contents(Blacken(t)) == Contents(t)
  {
  }

  lemma FixUpKeepsOrder(t: Tree, d: Dir)
    requires t.Node?
    ensures Ids(DeleteFixUp(t, d).0) == Ids(t)
    ensures Contents(DeleteFixUp(t, d).0) == Contents(t)
  {
    if t.Child(d.Flip()).IsRed() {
      RotateKeepsOrder(t, d);
      FixParentKeepsOrder(Rotate(t, d).Child(d), d);
    } else {
      FixParentKeepsOrder(t, d);
    }
  }

  lemma BelowKeepsOrder(t: Tree, d: Dir, below: (Tree, DeleteStatus))
    requires t.Node?
    ensures Ids(DeleteBelow(t, d, below).0) == Ids(t.SetChild(d, below.0))
    ensures Contents(DeleteBelow(t, d, below).0) == Contents(t.SetChild(d, below.0))
  {
    if below.1 == DeleteFail {
      FixUpKeepsOrder(t.SetChild(d, below.0), d);
    }
  }

  // The in-order position of a range, following the search path.
  function Find(t: Tree, range: Range): (k: Option<nat>)
    ensures k.Some? ==> k.value < |Ids(t)|
  {
    match t
    case Nil => None
    case Node(_, _, at, l, r) =>
      if Compare(at, range) == 0 then Some(|Ids(l)|)
      else if SearchDir(range, at) == Left then Find(l, range)
      else
        var k := Find(r, range);
        if k.None? then None else Some(|Ids(l)| + 1 + k.value)
  }

  // The in-order position of the node that is unlinked and freed: the found node itself, or its
  // predecessor when the found node has two children and takes over the predecessor's range.
  function VictimPos(t: Tree, range: Range): (k: nat)
    requires Find(t, range).Some?
    ensures k < |Ids(t)| && Find(t, range).value - 1 <= k <= Find(t, range).value
  {
    if Compare(t.range, range) == 0 then
      if t.left.Nil? || t.right.Nil? then |Ids(t.left)| else |Ids(t.left)| - 1
    else if SearchDir(range, t.range) == Left then VictimPos(t.left, range)
    else |Ids(t.left)| + 1 + VictimPos(t.right, range)
  }

  function RemoveAt<T>(s: seq<T>, k: nat): (r: seq<T>)
    requires k < |s|
  {
    s[..k] + s[k + 1..]
  }

  // The search path finds exactly the stored ranges.
  lemma {:induction false} FindCorrect(t: Tree, range: Range)
    requires Ascending(Contents(t))
    ensures |Ids(t)| == |Contents(t)|
    ensures Find(t, range).Some? <==> range in Contents(t)
    ensures Find(t, range).Some? ==> Contents(t)[Find(t, range).value] == range
  {
    hide Ascending;
    ContentsLength(t);
    if t.Node? {
      OrderedParts(t);
      ContentsLength(t.left);
      FindCorrect(t.left, range);
      FindCorrect(t.right, range);
      assert range in Contents(t) <==> range in Contents(t.left) || range == t.range || range in Contents(t.right);
      if range in Contents(t.left) {
        AscendingMember(Contents(t.left), range);
      }
      if range in Contents(t.right) {
        AscendingMember(Contents(t.right), range);
      }
    }
  }

  // The heir is the last entry of its subtree, and is found there as such.
  lemma RightmostIsLast(t: Tree)
    requires t.Node? && Ascending(Contents(t))
    ensures |Ids(t)| == |Contents(t)|
    ensures Ids(t)[|Ids(t)| - 1] == Rightmost(t).id
    ensures Contents(t)[|Ids(t)| - 1] == Rightmost(t).range
    ensures Find(t, Rightmost(t).range) == Some(|Ids(t)| - 1)
    ensures VictimPos(t, Rightmost(t).range) == |Ids(t)| - 1
  {
    hide *;
    RightmostLast(t);
    RightmostFound(t);
  }

  lemma {:induction false} RightmostLast(t: Tree)
    requires t.Node?
    ensures |Ids(t)| == |Contents(t)| && Ids(t)[|Ids(t)| - 1] == Rightmost(t).id && Contents(t)[|Ids(t)| - 1] == Rightmost(t).range
  {
    ContentsLength(t);
    if t.right.Node? {
      RightmostLast(t.right);
    }
  }

  lemma {:induction false} RightmostFound(t: Tree)
    requires t.Node? && Ascending(Contents(t))
    ensures Find(t, Rightmost(t).range) == Some(|Ids(t)| - 1) && VictimPos(t, Rightmost(t).range) == |Ids(t)| - 1
  {
    hide Ascending, Contents;
    if t.right.Node? {
      OrderedParts(t);
      RightmostFound(t.right);
      RightmostLast(t.right);
      AscendingMember(Contents(t.right), Rightmost(t.right).range);
    }
  }

  lemma RemoveAtLeft<T>(a: seq<T>, m: T, b: seq<T>, k: nat)
    requires k < |a|
    ensures RemoveAt(a + [m] + b, k) == RemoveAt(a, k) + [m] + b
  {
    var s := a + [m] + b;
    assert s[..k] == a[..k];
    assert s[k + 1..] == a[k + 1..] + [m] + b;
  }

  lemma RemoveAtRight<T>(a: seq<T>, m: T, b: seq<T>, k: nat)
    requires k < |b|
    ensures RemoveAt(a + [m] + b, |a| + 1 + k) == a + [m] + RemoveAt(b, k)
  {
    var s := a + [m] + b;
    assert s[..|a| + 1 + k] == a + [m] + b[..k];
    assert s[|a| + 1 + k + 1..] == b[k + 1..];
  }

  // Replacing the middle by the last element before it, and dropping that one, is dropping the middle.
  lemma RemoveMiddle<T>(a: seq<T>, m: T, b: seq<T>)
    requires |a| > 0
    ensures RemoveAt(a + [m] + b, |a|) == RemoveAt(a, |a| - 1) + [a[|a| - 1]] + b
  {
    assert a == RemoveAt(a, |a| - 1) + [a[|a| - 1]];
    assert (a + [m] + b)[|a| + 1..] == b;
    assert (a + [m] + b)[..|a|] == a;
  }

  // An absent range leaves the tree as it is.
  lemma {:induction false} HelperAbsent(t: Tree, range: Range)
    requires Find(t, range).None?
    ensures DeleteHelper(t, range) == (t, DeleteOk)
  {
    if t.Node? {
      HelperAbsent(t.Child(SearchDir(range, t.range)), range);
    }
  }

  // What one level of the recursion removes, given what the level below removed.
  lemma LinkRemoved(t: Tree, d: Dir, child: Tree, k: nat, v: nat)
    requires t.Node? && |Ids(t.left)| == |Contents(t.left)| && |Ids(t.right)| == |Contents(t.right)|
    requires k < |Ids(t.Child(d))| && v < |Ids(t.Child(d))|
    requires Ids(child) == RemoveAt(Ids(t.Child(d)), v)
    requires Contents(child) == RemoveAt(Contents(t.Child(d)), k)
    ensures var o := if d.Left? then 0 else |Ids(t.left)| + 1;
            && o + k < |Ids(t)| == |Contents(t)| && o + v < |Ids(t)|
            && Ids(t.SetChild(d, child)) == RemoveAt(Ids(t), o + v)
            && Contents(t.SetChild(d, child)) == RemoveAt(Contents(t), o + k)
  {
    hide RemoveAt;
    if d.Left? {
      RemoveAtLeft(Ids(t.left), t.id, Ids(t.right), v);
      RemoveAtLeft(Contents(t.left), t.range, Contents(t.right), k);
    } else {
      RemoveAtRight(Ids(t.left), t.id, Ids(t.right), v);
      RemoveAtRight(Contents(t.left), t.range, Contents(t.right), k);
    }
  }

  // The two-child case: the heir's range moves up, the heir's node goes away.
  lemma LinkHeir(t: Tree, child: Tree)
    requires t.Node? && t.left.Node? && Ascending(Contents(t.left))
    requires |Ids(t.left)| == |Contents(t.left)|
    requires Ids(child) == RemoveAt(Ids(t.left), |Ids(t.left)| - 1)
    requires Contents(child) == RemoveAt(Contents(t.left), |Ids(t.left)| - 1)
    ensures var n := |Ids(t.left)|;
            var t' := t.(range := Rightmost(t.left).range).SetChild(Left, child);
            && n < |Ids(t)| && n < |Contents(t)|
            && Ids(t') == RemoveAt(Ids(t), n - 1)
            && Contents(t') == RemoveAt(Contents(t), n)
  {
    hide RemoveAt, Ascending, Rightmost;
    RightmostIsLast(t.left);
    RemoveAtLeft(Ids(t.left), t.id, Ids(t.right), |Ids(t.left)| - 1);
    RemoveMiddle(Contents(t.left), t.range, Contents(t.right));
    var t' := t.(range := Rightmost(t.left).range).SetChild(Left, child);
    assert Ids(t') == Ids(child) + [t.id] + Ids(t.right);
    assert Contents(t') == Contents(child) + [Rightmost(t.left).range] + Contents(t.right);
  }

  // One level of the search path, and of the node that is freed.
  lemma StepBelow(t: Tree, range: Range)
    requires Find(t, range).Some? && Compare(t.range, range) != 0
    ensures var d := SearchDir(range, t.range);
            var o := if d.Left? then 0 else |Ids(t.left)| + 1;
            && Find(t.Child(d), range).Some?
            && Find(t, range).value == o + Find(t.Child(d), range).value
            && VictimPos(t, range) == o + VictimPos(t.Child(d), range)
            && DeleteHelper(t, range) == DeleteBelow(t, d, DeleteHelper(t.Child(d), range))
  {
  }

  lemma StepHeir(t: Tree, range: Range)
    requires t.Node? && Compare(t.range, range) == 0 && t.left.Node? && t.right.Node?
    ensures Find(t, range) == Some(|Ids(t.left)|)
    ensures VictimPos(t, range) == |Ids(t.left)| - 1
    ensures var heir := Rightmost(t.left).range;
            DeleteHelper(t, range) == DeleteBelow(t.(range := heir), Left, DeleteHelper(t.left, heir))
  {
  }

  // One entry is removed from the contents, and one node from the node sequence.
  ghost predicate RemovedOne(t: Tree, range: Range) {
    && |Ids(t)| == |Contents(t)|
    && Find(t, range).Some?
    && Ids(DeleteHelper(t, range).0) == RemoveAt(Ids(t), VictimPos(t, range))
    && Contents(DeleteHelper(t, range).0) == RemoveAt(Contents(t), Find(t, range).value)
  }

  lemma RemovedBelow(t: Tree, range: Range)
    requires t.Node? && Find(t, range).Some? && Compare(t.range, range) != 0
    requires RemovedOne(t.Child(SearchDir(range, t.range)), range)
    ensures RemovedOne(t, range)
  {
    hide Ids, Contents, Find, VictimPos, RemoveAt, DeleteHelper, DeleteBelow, Compare;
    var d := SearchDir(range, t.range);
    StepBelow(t, range);
    ContentsLength(t);
    ContentsLength(t.left);
    ContentsLength(t.right);
    var below := DeleteHelper(t.Child(d), range);
    LinkRemoved(t, d, below.0, Find(t.Child(d), range).value, VictimPos(t.Child(d), range));
    BelowKeepsOrder(t, d, below);
  }

  lemma RemovedByHeir(t: Tree, range: Range)
    requires t.Node? && Compare(t.range, range) == 0 && t.left.Node? && t.right.Node?
    requires Ascending(Contents(t.left))
    requires RemovedOne(t.left, Rightmost(t.left).range)
    ensures RemovedOne(t, range)
  {
    var heir := Rightmost(t.left).range;
    StepHeir(t, range);
    RightmostIsLast(t.left);
    hide Ids, Contents, Find, VictimPos, RemoveAt, DeleteHelper, DeleteBelow, Ascending, Rightmost;
    ContentsLength(t);
    var below := DeleteHelper(t.left, heir);
    LinkHeir(t, below.0);
    BelowKeepsOrder(t.(range := heir), Left, below);
  }

  lemma {:induction false} HelperContents(t: Tree, range: Range)
    requires Ascending(Contents(t)) && Find(t, range).Some?
    ensures RemovedOne(t, range)
  {
    OrderedParts(t);
    ContentsLength(t);
    if Compare(t.range, range) != 0 {
      HelperContents(t.Child(SearchDir(range, t.range)), range);
      RemovedBelow(t, range);
    } else if t.left.Nil? || t.right.Nil? {
      ContentsLength(t.left);
      HelperLeaf(t, range);
    } else {
      RightmostIsLast(t.left);
      HelperContents(t.left, Rightmost(t.left).range);
      RemovedByHeir(t, range);
    }
  }

  lemma HelperLeaf(t: Tree, range: Range)
    requires t.Node? && Compare(t.range, range) == 0 && (t.left.Nil? || t.right.Nil?)
    requires |Ids(t.left)| == |Contents(t.left)|
    ensures |Ids(t.left)| < |Ids(t)| && |Ids(t.left)| < |Contents(t)|
    ensures Find(t, range) == Some(|Ids(t.left)|) && VictimPos(t, range) == |Ids(t.left)|
    ensures Ids(DeleteHelper(t, range).0) == RemoveAt(Ids(t), |Ids(t.left)|)
    ensures Contents(DeleteHelper(t, range).0) == RemoveAt(Contents(t), |Ids(t.left)|)
  {
    var temp := if t.right.Node? then t.right else t.left;
    BlackenKeepsOrder(temp);
    assert Ids(temp) == Ids(t.left) + Ids(t.right);
    assert Contents(temp) == Contents(t.left) + Contents(t.right);
  }

  // Deletion as a whole, on every well-formed tree and for every range.
  lemma DeleteCorrect(t: Tree, range: Range)
    requires WellFormed(t)
    ensures WellFormed(Delete(t, range))
    ensures |Ids(t)| == |Contents(t)|
    ensures range !in Contents(t) ==> Delete(t, range) == t
    ensures range in Contents(t) ==>
              && Find(t, range).Some?
              && Contents(t)[Find(t, range).value] == range
              && Contents(Delete(t, range)) == RemoveAt(Contents(t), Find(t, range).value)
              && Ids(Delete(t, range)) == RemoveAt(Ids(t), VictimPos(t, range))
  {
    ContentsLength(t);
    FindCorrect(t, range);
    HelperSettles(t, range);
    var r := DeleteHelper(t, range).0;
    BlackenKeepsOrder(r);
    if range in Contents(t) {
      HelperContents(t, range);
      RemovedStaysAscending(Contents(t), Find(t, range).value);
      assert r.Node? ==> RedBlack(r.left) && RedBlack(r.right);
    } else {
      HelperAbsent(t, range);
    }
  }

  lemma RemovedStaysAscending(s: seq<Range>, k: nat)
    requires Ascending(s) && k < |s|
    ensures Ascending(RemoveAt(s, k))
    ensures s[k] !in RemoveAt(s, k)
    ensures forall x :: x in s ==> x == s[k] || x in RemoveAt(s, k)
  {
    var r := RemoveAt(s, k);
    assert forall i :: 0 <= i < |r| ==> r[i] == s[if i < k then i else i + 1];
    forall x | x in s && x != s[k] ensures x in r {
      var i :| 0 <= i < |s| && s[i] == x;
      assert r[if i < k then i else i - 1] == x;
    }
    forall i | 0 <= i < |r| ensures r[i] != s[k] {
      if i < k {
        assert Before(s[i], s[k]) && ValidRange(s[i]);
      } else {
        assert Before(s[k], s[i + 1]) && ValidRange(s[k]);
      }
    }
  }
}
