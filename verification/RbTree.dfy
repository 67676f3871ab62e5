/**
  The red-black tree as a value: node identities, colours and ranges, and the pure counterparts of
  the rotations, the colour flip, the two fix-ups and the two recursive helpers.  The pointer code
  is shown to compute exactly these functions in module RbHeap.
 */
module RbTree {
  import opened Options
  import opened Ranges

  // The address of a node.
  type Ref = nat

  datatype Color = Black | Red {
    function Flip(): Color { if Black? then Red else Black }
  }

  datatype Dir = Left | Right {
    function Flip(): Dir { if Left? then Right else Left }
  }

  datatype Tree = Nil | Node(id: Ref, color: Color, range: Range, left: Tree, right: Tree) {

    predicate IsRed() {
      Node? && color == Red
    }

    function Child(d: Dir): Tree
      requires Node?
    {
      if d.Left? then left else right
    }

    function SetChild(d: Dir, child: Tree): (t: Tree)
      requires Node?
    {
      if d.Left? then this.(left := child) else this.(right := child)
    }

    function SetColor(c: Color): (t: Tree)
      requires Node?
    {
      this.(color := c)
    }
  }

  // ---------- observations ----------

  // In-order node addresses.
  function Ids(t: Tree): seq<Ref> {
    match t
    case Nil => []
    case Node(id, _, _, l, r) => Ids(l) + [id] + Ids(r)
  }

  // In-order ranges.
  function Contents(t: Tree): seq<Range> {
    match t
    case Nil => []
    case Node(_, _, range, l, r) => Contents(l) + [range] + Contents(r)
  }

  // Black nodes on the leftmost path.
  function BlackHeight(t: Tree): nat {
    match t
    case Nil => 0
    case Node(_, c, _, l, _) => BlackHeight(l) + (if c == Black then 1 else 0)
  }

  // The same number of black nodes on every path to a leaf.
  predicate Balanced(t: Tree) {
    match t
    case Nil => true
    case Node(_, _, _, l, r) => Balanced(l) && Balanced(r) && BlackHeight(l) == BlackHeight(r)
  }

  // No red node has a red child.
  predicate NoRedRed(t: Tree) {
    match t
    case Nil => true
    case Node(_, c, _, l, r) =>
      && NoRedRed(l) && NoRedRed(r)
      && (c == Red ==> !l.IsRed() && !r.IsRed())
  }

  // Both colour rules, at any root colour.
  predicate RedBlack(t: Tree) {
    Balanced(t) && NoRedRed(t)
  }

  // Every stored range is valid, as the overlap test asserts of the ranges it meets.
  predicate AllValid(t: Tree) {
    match t
    case Nil => true
    case Node(_, _, range, l, r) => ValidRange(range) && AllValid(l) && AllValid(r)
  }

  // What holds of the tree between two public operations.
  ghost predicate WellFormed(t: Tree) {
    RedBlack(t) && !t.IsRed() && Ascending(Contents(t))
  }

  // ---------- rotations and colour flip ----------

  function Rotate(t: Tree, d: Dir): (r: Tree)
    requires t.Node? && t.Child(d.Flip()).Node?
  {
    var temp := t.Child(d.Flip());
    var node := t.SetChild(d.Flip(), temp.Child(d)).SetColor(Red);
    temp.SetChild(d, node).SetColor(t.color)
  }

  function DoubleRotate(t: Tree, d: Dir): (r: Tree)
    requires t.Node? && t.Child(d.Flip()).Node? && t.Child(d.Flip()).Child(d).Node?
  {
    assert d.Flip().Flip() == d;
    Rotate(t.SetChild(d.Flip(), Rotate(t.Child(d.Flip()), d.Flip())), d)
  }

  function FlipRoot(t: Tree): Tree {
    if t.Nil? then Nil else t.SetColor(t.color.Flip())
  }

  function ColorFlip(t: Tree): (r: Tree)
    requires t.Node?
  {
    Node(t.id, t.color.Flip(), t.range, FlipRoot(t.left), FlipRoot(t.right))
  }

  // ---------- insertion ----------

  datatype InsertStatus = InsertOk | InsertOverlap | InsertOom

  function InsertFixUp(t: Tree, d: Dir): (r: Tree)
    requires t.Node?
  {
    assert d.Flip().Flip() == d;
    if t.Child(d).IsRed() then
      var child := t.Child(d);
      if t.Child(d.Flip()).IsRed() then
        if child.Child(d).IsRed() || child.Child(d.Flip()).IsRed() then ColorFlip(t) else t
      else if child.Child(d).IsRed() then Rotate(t, d.Flip())
      else if child.Child(d.Flip()).IsRed() then DoubleRotate(t, d.Flip())
      else t
    else t
  }

  // The direction in which a range is searched for below a node.
  function SearchDir(range: Range, at: Range): Dir {
    if Compare(range, at) > 0 then Right else Left
  }

  // `slot` is what the node pool would hand out, `None` when no page can be had.
  function InsertHelper(t: Tree, range: Range, slot: Option<Ref>): (r: (Tree, InsertStatus))
    requires ValidRange(range) && AllValid(t)
  {
    if t.Nil? then
      if slot.None? then (Nil, InsertOom)
      else (Node(slot.value, Red, range, Nil, Nil), InsertOk)
    else if Overlap(range, t.range) then (t, InsertOverlap)
    else
      var d := SearchDir(range, t.range);
      var (child, status) := InsertHelper(t.Child(d), range, slot);
      if status == InsertOk then (InsertFixUp(t.SetChild(d, child), d), InsertOk)
      else (t, status)
  }

  function Insert(t: Tree, range: Range, slot: Option<Ref>): (r: (Tree, InsertStatus))
    requires ValidRange(range) && AllValid(t)
  {
    var (root, status) := InsertHelper(t, range, slot);
    if status == InsertOk && root.Node? then (root.SetColor(Black), status) else (root, status)
  }

  // The in-order position at which the search path for a range ends.
  function InsertPos(t: Tree, range: Range): (k: nat)
    ensures k <= |Ids(t)|
  {
    match t
    case Nil => 0
    case Node(_, _, at, l, r) =>
      if SearchDir(range, at) == Left then InsertPos(l, range)
      else |Ids(l)| + 1 + InsertPos(r, range)
  }

  // ---------- deletion ----------

  datatype DeleteStatus = DeleteOk | DeleteFail

  // The second half of the fix-up, after a red sibling has been rotated away.
  function DeleteFixParent(p: Tree, d: Dir): (r: (Tree, DeleteStatus))
    requires p.Node?
  {
    var sibling := p.Child(d.Flip());
    if sibling.Nil? then (p, DeleteFail)
    else if !sibling.left.IsRed() && !sibling.right.IsRed() then
      (p.SetColor(Black).SetChild(d.Flip(), sibling.SetColor(Red)),
       if p.IsRed() then DeleteOk else DeleteFail)
    else
      var top := if sibling.Child(d.Flip()).IsRed() then Rotate(p, d) else DoubleRotate(p, d);
      (Node(top.id, p.color, top.range, Blacken(top.left), Blacken(top.right)), DeleteOk)
  }

  function Blacken(t: Tree): Tree {
    if t.Nil? then Nil else t.SetColor(Black)
  }

  function DeleteFixUp(t: Tree, d: Dir): (r: (Tree, DeleteStatus))
    requires t.Node?
  {
    if t.Child(d.Flip()).IsRed() then
      var top := Rotate(t, d);
      var (p, status) := DeleteFixParent(top.Child(d), d);
      (top.SetChild(d, p), status)
    else
      DeleteFixParent(t, d)
  }

  // The rightmost node.
  function Rightmost(t: Tree): (m: Tree)
    requires t.Node?
    ensures m.Node? && m.right.Nil?
  {
    if t.right.Nil? then t else Rightmost(t.right)
  }

  function DeleteHelper(t: Tree, range: Range): (r: (Tree, DeleteStatus))
  {
    if t.Nil? then (Nil, DeleteOk)
    else if Compare(t.range, range) == 0 && (t.left.Nil? || t.right.Nil?) then
      var temp := if t.right.Node? then t.right else t.left;
      if t.IsRed() then (temp, DeleteOk)
      else if temp.IsRed() then (temp.SetColor(Black), DeleteOk)
      else (temp, DeleteFail)
    else if Compare(t.range, range) == 0 then
      var heir := Rightmost(t.left).range;
      DeleteBelow(t.(range := heir), Left, DeleteHelper(t.left, heir))
    else
      var d := SearchDir(range, t.range);
      DeleteBelow(t, d, DeleteHelper(t.Child(d), range))
  }

  // Relink the child that the recursive call returned, and rebalance if it became shorter.
  function DeleteBelow(t: Tree, d: Dir, below: (Tree, DeleteStatus)): (r: (Tree, DeleteStatus))
    requires t.Node?
  {
    var linked := t.SetChild(d, below.0);
    if below.1 == DeleteOk then (linked, DeleteOk) else DeleteFixUp(linked, d)
  }

  function Delete(t: Tree, range: Range): (r: Tree) {
    Blacken(DeleteHelper(t, range).0)
  }

  // ---------- basic facts ----------

  lemma {:induction false} ContentsLength(t: Tree)
    ensures |Ids(t)| == |Contents(t)|
  {
    if t.Node? {
      ContentsLength(t.left);
      ContentsLength(t.right);
    }
  }

  lemma Regroup<T>(a: seq<T>, x: T, b: seq<T>, y: T, c: seq<T>)
    ensures a + [x] + (b + [y] + c) == (a + [x] + b) + [y] + c
  {
  }

  // Rotations permute pointers and never the in-order sequence.
  lemma RotateKeepsOrder(t: Tree, d: Dir)
    requires t.Node? && t.Child(d.Flip()).Node?
    ensures Ids(Rotate(t, d)) == Ids(t)
    ensures Contents(Rotate(t, d)) == Contents(t)
  {
    var s := t.Child(d.Flip());
    if d.Left? {
      Regroup(Ids(t.left), t.id, Ids(s.left), s.id, Ids(s.right));
      Regroup(Contents(t.left), t.range, Contents(s.left), s.range, Contents(s.right));
    } else {
      Regroup(Ids(s.left), s.id, Ids(s.right), t.id, Ids(t.right));
      Regroup(Contents(s.left), s.range, Contents(s.right), t.range, Contents(t.right));
    }
  }

  lemma DoubleRotateKeepsOrder(t: Tree, d: Dir)
    requires t.Node? && t.Child(d.Flip()).Node? && t.Child(d.Flip()).Child(d).Node?
    ensures Ids(DoubleRotate(t, d)) == Ids(t)
    ensures Contents(DoubleRotate(t, d)) == Contents(t)
  {
    assert d.Flip().Flip() == d;
    RotateKeepsOrder(t.Child(d.Flip()), d.Flip());
    RotateKeepsOrder(t.SetChild(d.Flip(), Rotate(t.Child(d.Flip()), d.Flip())), d);
  }

  // The subtrees of an ordered tree are ordered, and lie on their own side of the root.
  lemma OrderedParts(t: Tree)
    requires t.Node?
    ensures Ascending(Contents(t)) <==> AscendingParts(Contents(t.left), t.range, Contents(t.right))
  {
    AscendingSplit(Contents(t.left), t.range, Contents(t.right));
  }

  lemma {:induction false} OrderedIsValid(t: Tree)
    requires Ascending(Contents(t))
    ensures AllValid(t)
  {
    if t.Node? {
      OrderedParts(t);
      OrderedIsValid(t.left);
      OrderedIsValid(t.right);
    }
  }
}
