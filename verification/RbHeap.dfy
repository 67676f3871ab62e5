/**
  The pointer code of the range tree, proved to compute the functions of module RbTree and to keep
  the threaded list, the free list and the slot pool consistent with the tree.
 */
module RbHeap {
  import opened Options
  import opened Ranges
  import opened Sequences
  import opened RbTree
  import opened RbInsert
  import opened RbDelete
  import opened RbMemory
  import opened RbSearch
  import opened RbHeight

  lemma RepAligned(ch: Links, rg: RangeOf, p: Ref, t: Tree)
    requires Rep(ch, rg, p, t)
    ensures p % 8 == 0
    ensures p == NIL <==> t.Nil?
    ensures p != NIL ==> p in ch
    ensures RedAt(ch, p) == t.IsRed()
  {
    if t.Node? {
      assert IsNodeRef(p);
    }
  }

  // A new node is a red leaf.
  lemma NewLeafRep(ch: Links, rg: RangeOf, node: Ref, t: Tree)
    requires t.Node? && t == Node(node, Red, t.range, Nil, Nil)
    requires IsNodeRef(node) && node in ch && ch[node] == Pair(NIL + Bit(Red), NIL) && node in rg && rg[node] == t.range
    ensures Rep(ch, rg, node, t)
  {
    TagWord(NIL, Red);
  }

  // Blackening the root of a tree in memory.
  lemma TintRoot(ch: Links, rg: RangeOf, p: Ref, t: Tree)
    requires t.Node? && Rep(ch, rg, p, t) && NoDup(Ids(t))
    ensures p in ch && Rep(Tint(ch, p, Black), rg, p, Blacken(t))
    ensures Rewired(ch, Tint(ch, p, Black), Ids(t)) && Tint(ch, p, Black).Keys == ch.Keys
  {
    hide NoDup;
    DistinctParts(t);
    RepTint(ch, rg, p, t, Black);
  }

  // The four stores of a rotation.
  ghost function Rotated(ch: Links, node: Ref, temp: Ref, d: Dir): Links
    requires node in ch && temp in ch
  {
    var ch1 := Put(ch, node, d.Flip(), Kid(ch, temp, d));
    var ch2 := Put(ch1, temp, d, node);
    var ch3 := Tint(ch2, temp, ColorAt(ch2, node));
    Tint(ch3, node, Red)
  }

  lemma RotatedRecords(ch: Links, node: Ref, temp: Ref, d: Dir)
    requires node in ch && temp in ch && node != temp && node % 8 == 0 && Kid(ch, temp, d) % 8 == 0
    ensures var ch' := Rotated(ch, node, temp, d);
            && Rewired(ch, ch', [node, temp])
            && ColorAt(ch', node) == Red && ColorAt(ch', temp) == ColorAt(ch, node)
            && Kid(ch', node, d) == Kid(ch, node, d) && Kid(ch', node, d.Flip()) == Kid(ch, temp, d)
            && Kid(ch', temp, d) == node && Kid(ch', temp, d.Flip()) == Kid(ch, temp, d.Flip())
  {
    var f := d.Flip();
    assert f.Flip() == d;
    var ch1 := Put(ch, node, f, Kid(ch, temp, d));
    TaggedWord(ch, node, f, Kid(ch, temp, d), Red);
    var ch2 := Put(ch1, temp, d, node);
    TaggedWord(ch1, temp, d, node, Red);
    var c := ColorAt(ch2, node);
    var ch3 := Tint(ch2, temp, c);
    TaggedWord(ch2, temp, d, node, c);
    TaggedWord(ch2, temp, f, node, c);
    TaggedWord(ch3, node, d, node, Red);
    TaggedWord(ch3, node, f, node, Red);
  }

  // A subtree that contains neither of two rewired nodes.
  lemma RepAwayFrom(ch: Links, rg: RangeOf, ch': Links, p: Ref, t: Tree, x: Ref, y: Ref)
    requires Rep(ch, rg, p, t) && Rewired(ch, ch', [x, y]) && x !in Ids(t) && y !in Ids(t)
    ensures Rep(ch', rg, p, t)
  {
    hide Rep, Ids;
    RepIds(ch, rg, p, t);
    RepFrame(ch, rg, ch', rg, p, t);
  }

  // The four stores turn the memory of a tree into the memory of the rotated tree.
  lemma RotatedRep(ch: Links, rg: RangeOf, node: Ref, temp: Ref, d: Dir, t: Tree)
    requires t.Node? && t.Child(d.Flip()).Node? && NoDup(Ids(t))
    requires Rep(ch, rg, node, t) && temp == Kid(ch, node, d.Flip())
    ensures temp in ch
    ensures Rep(Rotated(ch, node, temp, d), rg, temp, RbTree.Rotate(t, d))
    ensures Rewired(ch, Rotated(ch, node, temp, d), Ids(t))
  {
    hide Rotated, NoDup, Rewired;
    var f := d.Flip();
    var s := t.Child(f);
    DistinctParts(t);
    DistinctParts(s);
    RepAligned(ch, rg, node, t);
    RepAligned(ch, rg, temp, s);
    RepAligned(ch, rg, Kid(ch, temp, d), s.Child(d));
    RotatedRecords(ch, node, temp, d);
    var ch' := Rotated(ch, node, temp, d);
    RepAwayFrom(ch, rg, ch', Kid(ch, node, d), t.Child(d), node, temp);
    RepAwayFrom(ch, rg, ch', Kid(ch, temp, d), s.Child(d), node, temp);
    RepAwayFrom(ch, rg, ch', Kid(ch, temp, f), s.Child(f), node, temp);
    assert Rep(ch', rg, node, t.SetChild(f, s.Child(d)).SetColor(Red));
    RewiredWiden(ch, ch', [node, temp], Ids(t));
  }

  // The nodes of a tree after a successful insertion below one child.
  lemma GrownIds(t: Tree, d: Dir, r: Range, id: Ref)
    requires t.Node? && NoDup(Ids(t)) && id !in Ids(t) && AllValid(t) && ValidRange(r)
    requires RbTree.InsertHelper(t.Child(d), r, Some(id)).1 == InsertOk
    ensures var tc := RbTree.InsertHelper(t.Child(d), r, Some(id)).0;
            && NoDup(Ids(t.SetChild(d, tc)))
            && (forall p :: p in Ids(tc) <==> p == id || p in Ids(t.Child(d)))
            && (forall p :: p in Ids(t.SetChild(d, tc)) <==> p == id || p in Ids(t))
  {
    hide RbTree.InsertHelper, InsertPos, InsertAt, NoDup;
    var c := t.Child(d);
    ContentsLength(t.left);
    ContentsLength(t.right);
    DistinctParts(t);
    RbInsert.HelperContents(c, r, Some(id));
    var tc := RbTree.InsertHelper(c, r, Some(id)).0;
    var k := InsertPos(c, r);
    LinkContents(t, d, tc, k, id, r);
    InsertNoDup(Ids(t), if d.Left? then k else |Ids(t.left)| + 1 + k, id);
    InsertNoDup(Ids(c), k, id);
  }

  // The caller's side of a successful insertion below one child: its own node is untouched and can
  // be relinked, and whatever the fix-up then does stays among the tree's nodes and the new one.
  lemma GrownStep(ch: Links, rg: RangeOf, ch': Links, rg': RangeOf,
                  node: Ref, t: Tree, d: Dir, child: Ref, r: Range, id: Ref, free: seq<Ref>)
    requires t.Node? && Rep(ch, rg, node, t) && NoDup(Ids(t)) && id !in Ids(t) && AllValid(t) && ValidRange(r)
    requires RbTree.InsertHelper(t.Child(d), r, Some(id)).1 == InsertOk
    requires Rep(ch', rg', child, RbTree.InsertHelper(t.Child(d), r, Some(id)).0)
    requires SameOutside(ch, ch', Ids(t.Child(d)) + [id]) && rg' == rg[id := r]
    requires Apart(Ids(t), free) && id !in free
    ensures var tc := RbTree.InsertHelper(t.Child(d), r, Some(id)).0;
            && Relinkable(ch', rg', node, t, d, child, tc)
            && Apart(Ids(t.SetChild(d, tc)), free)
            && (forall p :: p in Ids(t.SetChild(d, tc)) ==> p in Ids(t) + [id])
            && (forall p :: p in Ids(t.Child(d)) + [id] ==> p in Ids(t) + [id])
  {
    hide RbTree.InsertHelper, NoDup;
    GrownIds(t, d, r, id);
    DistinctParts(t);
    RepFrame(ch, rg, ch', rg', Kid(ch, node, d.Flip()), t.Child(d.Flip()));
  }

  lemma Shuffle<T>(x: T, a: seq<T>, b: seq<T>, c: seq<T>)
    ensures [x] + (a + (b + c)) == ([x] + a + b) + c
  {
  }

  // A node with at most one child, and the subtree that takes its place.
  lemma LeafIds(t: Tree)
    requires t.Node? && (t.left.Nil? || t.right.Nil?) && NoDup(Ids(t))
    ensures var rest := RbTree.DeleteHelper(t, t.range).0;
            && (forall p :: p in Ids(rest) ==> p in Ids(t)) && t.id !in Ids(rest) && t.id in Ids(t)
  {
    DistinctParts(t);
    BlackenKeepsOrder(t.left);
    BlackenKeepsOrder(t.right);
  }

  // On the list, the rightmost node of the left subtree stands just before the node.
  lemma HeirOnList(list: Links, all: seq<Ref>, lo: nat, t: Tree)
    requires t.Node? && t.left.Node? && Threaded(list, all) && Segment(all, lo, Ids(t))
    ensures Rightmost(t.left).id in Ids(t.left)
    ensures Rightmost(t.left).id in list && list[Rightmost(t.left).id].right == t.id
  {
    hide Threaded, Segment, Contents;
    RightmostLast(t.left);
    NextOnList(list, all, lo, Ids(t.left), t.id, Ids(t.right));
  }

  // Its place on the list.
  lemma LeafUnlinks(list: Links, all: seq<Ref>, lo: nat, t: Tree)
    requires t.Node? && Threaded(list, all) && Segment(all, lo, Ids(t))
    ensures t.id in all && t.id in list && list[t.id].left in list && list[t.id].right in list
    ensures lo + |Ids(t.left)| < |all| && Threaded(Unlink(list, t.id), RemoveAt(all, lo + |Ids(t.left)|))
  {
    hide Threaded, RemoveAt, Unlink, Segment;
    SegmentUnlinks(list, all, lo, Ids(t.left), t.id, Ids(t.right));
  }

  // Neither it nor what takes its place is free.
  lemma LeafApart(all: seq<Ref>, lo: nat, t: Tree, free: seq<Ref>)
    requires t.Node? && (t.left.Nil? || t.right.Nil?) && NoDup(Ids(t)) && Segment(all, lo, Ids(t)) && Apart(all, free)
    ensures var rest := RbTree.DeleteHelper(t, t.range).0;
            && t.id in Ids(t) && t.id !in free && Apart(Ids(rest), free) && t.id !in Ids(rest)
            && (forall p :: p in Ids(rest) ==> p in Ids(t))
  {
    hide RbTree.DeleteHelper, NoDup, Segment;
    LeafIds(t);
    SegmentApart(all, lo, Ids(t), free);
  }

  // The nodes of a tree after a deletion below one child.
  lemma ShrunkIds(t: Tree, d: Dir, key: Range)
    requires t.Node? && NoDup(Ids(t)) && Ascending(Contents(t.Child(d)))
    ensures var c := t.Child(d);
            var linked := t.SetChild(d, RbTree.DeleteHelper(c, key).0);
            && NoDup(Ids(linked)) && (forall p :: p in Ids(linked) ==> p in Ids(t))
            && (Find(c, key).Some? ==> Ids(c)[VictimPos(c, key)] !in Ids(linked) && Ids(c)[VictimPos(c, key)] in Ids(c))
  {
    hide RbTree.DeleteHelper, Find, VictimPos, Ascending, NoDup, Ids;
    var c := t.Child(d);
    if Find(c, key).None? {
      HelperAbsent(c, key);
    } else {
      ContentsLength(t.left);
      ContentsLength(t.right);
      RbDelete.HelperContents(c, key);
      VictimGone(t, d, RbTree.DeleteHelper(c, key).0, Find(c, key).value, VictimPos(c, key));
    }
  }

  lemma VictimGone(t: Tree, d: Dir, tc: Tree, k: nat, v: nat)
    requires t.Node? && NoDup(Ids(t)) && |Ids(t.left)| == |Contents(t.left)| && |Ids(t.right)| == |Contents(t.right)|
    requires k < |Ids(t.Child(d))| && v < |Ids(t.Child(d))|
    requires Ids(tc) == RemoveAt(Ids(t.Child(d)), v) && Contents(tc) == RemoveAt(Contents(t.Child(d)), k)
    ensures var linked := t.SetChild(d, tc);
            && NoDup(Ids(linked)) && (forall p :: p in Ids(linked) ==> p in Ids(t)) && Ids(t.Child(d))[v] !in Ids(linked)
  {
    hide RemoveAt, NoDup, Contents;
    LinkRemoved(t, d, tc, k, v);
    var o := if d.Left? then 0 else |Ids(t.left)| + 1;
    RemoveNoDup(Ids(t), o + v);
    assert Ids(t)[o + v] == Ids(t.Child(d))[v];
  }

  // The caller's side of a deletion below one child.
  lemma ShrunkStep(ch: Links, rg: RangeOf, ch': Links, rg': RangeOf, node: Ref, t: Tree, d: Dir, child: Ref, key: Range,
                   free: seq<Ref>, free': seq<Ref>)
    requires t.Node? && Rep(ch, rg, node, t) && NoDup(Ids(t)) && Ascending(Contents(t.Child(d)))
    requires Rep(ch', rg', child, RbTree.DeleteHelper(t.Child(d), key).0)
    requires Rewired(ch, ch', Ids(t.Child(d))) && Rewired(rg, rg', Ids(t.Child(d)))
    requires Apart(Ids(t), free)
    requires Find(t.Child(d), key).None? ==> free' == free
    requires Find(t.Child(d), key).Some? ==> free' == [Ids(t.Child(d))[VictimPos(t.Child(d), key)]] + free
    ensures var tc := RbTree.DeleteHelper(t.Child(d), key).0;
            && Relinkable(ch', rg', node, t, d, child, tc)
            && Apart(Ids(t.SetChild(d, tc)), free')
            && (forall p :: p in Ids(t.SetChild(d, tc)) ==> p in Ids(t))
            && (forall p :: p in Ids(t.Child(d)) ==> p in Ids(t)) && node in Ids(t)
  {
    hide RbTree.DeleteHelper, NoDup, Find, VictimPos, Ascending;
    ShrunkIds(t, d, key);
    DistinctParts(t);
    RepFrame(ch, rg, ch', rg', Kid(ch, node, d.Flip()), t.Child(d.Flip()));
  }

  lemma InsertPosBelow(t: Tree, r: Range)
    requires t.Node? && AllValid(t)
    ensures var d := SearchDir(r, t.range);
            && InsertPos(t, r) == (if d.Left? then 0 else |Ids(t.left)| + 1) + InsertPos(t.Child(d), r)
            && AllValid(t.Child(d))
  {
  }

  lemma InsertIsBlackened(t: Tree, r: Range, slot: Option<Ref>)
    requires ValidRange(r) && AllValid(t)
    ensures var (grown, status) := RbTree.InsertHelper(t, r, slot);
            && RbTree.Insert(t, r, slot).1 == status
            && (status != InsertOk ==> RbTree.Insert(t, r, slot).0 == grown)
            && (status == InsertOk ==> RbTree.Insert(t, r, slot).0 == Blacken(grown) && AddedOne(t, r, slot))
            && Ids(Blacken(grown)) == Ids(grown)
  {
    if RbTree.InsertHelper(t, r, slot).1 == InsertOk {
      RbInsert.HelperContents(t, r, slot);
    }
  }

  // The memory of an empty tree.
  lemma EmptyTree(ch: Links, rg: RangeOf, list: Links)
    requires LIST in list && list[LIST] == Pair(LIST, LIST)
    ensures Rep(ch, rg, NIL, Nil) && WellFormed(Nil) && NoDup(Ids(Nil)) && Threaded(list, Ids(Nil))
  {
    assert Ring([]) == [LIST, LIST];
  }

  lemma EmptyIds()
    ensures Ids(Nil) == []
  {
  }

  // The range stored in the i-th node is the i-th range.
  lemma {:induction false} RangeAt(ch: Links, rg: RangeOf, p: Ref, t: Tree, i: nat)
    requires Rep(ch, rg, p, t) && i < |Ids(t)|
    ensures |Ids(t)| == |Contents(t)| && Ids(t)[i] in rg && rg[Ids(t)[i]] == Contents(t)[i]
    decreases t
  {
    ContentsLength(t);
    ContentsLength(t.left);
    var n := |Ids(t.left)|;
    if i < n {
      RangeAt(ch, rg, Kid(ch, p, Left), t.left, i);
    } else if i > n {
      RangeAt(ch, rg, Kid(ch, p, Right), t.right, i - n - 1);
    }
  }

  // The two ends of the ring.
  lemma RingEnds(list: Links, ids: seq<Ref>)
    requires Threaded(list, ids) && forall p :: p in ids ==> p != NULL
    ensures LIST in list && list[LIST].left in list && list[LIST].right in list && |Ring(ids)| == |ids| + 2
    ensures list[list[LIST].left].right == LIST && list[list[LIST].right].left == LIST
    ensures list[LIST].left != NULL && list[LIST].right == Ring(ids)[1] != NULL && Ring(ids)[0] == LIST
  {
    hide NoDup;
    var ring := Ring(ids);
    assert ring[0] == LIST && ring[|ids| + 1] == LIST;
    assert ring[1] == LIST || ring[1] in ids;
    assert ring[|ids|] == LIST || ring[|ids|] in ids;
    assert list[ring[0]].right == ring[1] && list[ring[1]].left == ring[0];
    assert list[ring[|ids|]].right == ring[|ids| + 1] && list[ring[|ids| + 1]].left == ring[|ids|];
  }

  // One step to the right on the ring.
  lemma RingStep(list: Links, ids: seq<Ref>, i: nat)
    requires Threaded(list, ids) && i <= |ids| && forall p :: p in ids ==> p != NULL
    ensures |Ring(ids)| == |ids| + 2 && LIST in list && LIST !in ids
    ensures Ring(ids)[i + 1] == LIST <==> i == |ids|
    ensures i == |ids| ==> list[LIST].left == Ring(ids)[i]
    ensures i < |ids| ==>
              var node := Ring(ids)[i + 1];
              && node == ids[i] && node in list && list[node].left == Ring(ids)[i]
              && list[node].right == Ring(ids)[i + 2] != NULL
    ensures Ring(ids)[i] == if i == 0 then LIST else ids[i - 1]
  {
    hide NoDup;
    var ring := Ring(ids);
    assert ring[0] == LIST && ring[0] in list;
    assert list[ring[i + 1]].left == ring[i];
    if i < |ids| {
      assert ring[i + 1] == ids[i];
      assert list[ring[i + 1]].right == ring[i + 2];
      assert ring[i + 2] == LIST || ring[i + 2] in ids;
    }
  }

  // The i-th node is a node, and its range comes after the range of the node before it.
  lemma NodeAt(ch: Links, rg: RangeOf, p: Ref, t: Tree, i: nat)
    requires Rep(ch, rg, p, t) && i < |Ids(t)| && Ascending(Contents(t))
    ensures IsNodeRef(Ids(t)[i]) && Ids(t)[i] in rg
    ensures i > 0 ==> Ids(t)[i - 1] in rg && Compare(rg[Ids(t)[i - 1]], rg[Ids(t)[i]]) < 0
  {
    hide Ids, Contents, Rep;
    RepIds(ch, rg, p, t);
    RangeAt(ch, rg, p, t, i);
    if i > 0 {
      RangeAt(ch, rg, p, t, i - 1);
      assert Before(Contents(t)[i - 1], Contents(t)[i]) && ValidRange(Contents(t)[i - 1]);
    }
  }

  class RangeTree {
    // The fields of a node, by node address; `children` holds the raw words, colour bit included.
    var range: RangeOf
    var list: Links
    var children: Links

    var root: Ref
    var freeList: Ref
    var pageCount: nat   // pages in the chain; zero before a successful initialisation
    var nodeCount: nat   // slots handed out from the current page

    ghost var tree: Tree
    ghost var free: seq<Ref>

    // ---------- invariants ----------

    // Slots handed out so far: every page before the current one is full.
    ghost function Handed(): nat
      reads this`pageCount, this`nodeCount
    {
      if pageCount == 0 then 0 else (pageCount - 1) * NODES_MAX + nodeCount
    }

    ghost predicate Pool()
      reads this`children, this`range, this`freeList, this`free, this`pageCount, this`nodeCount
    {
      pageCount > 0 && nodeCount <= NODES_MAX && PoolOf(children, range, Handed(), freeList, free)
    }

    ghost predicate Valid()
      reads this
    {
      && Pool()
      && Rep(children, range, root, tree)
      && WellFormed(tree) && NoDup(Ids(tree))
      && Threaded(list, Ids(tree))
      && Conserved(children.Keys, Ids(tree), free)
    }

    // What the pool would hand out next.
    ghost function NextSlot(pageOk: bool): Option<Ref>
      reads this
    {
      if freeList != NULL then Some(freeList)
      else if nodeCount < NODES_MAX || pageOk then Some(Slot(Handed()))
      else None
    }

    // The pool is exhausted exactly when the free list is empty, the current page is full, and no page
    // can be had.
    lemma OomExactly(pageOk: bool)
      requires Pool()
      ensures NextSlot(pageOk).None? <==> free == [] && nodeCount == NODES_MAX && !pageOk
    {
      hide Slots, Slot;
      FreeListEnds(children, freeList, free);
    }

    // ---------- field access ----------

    method SetColor(p: Ref, c: Color)
      requires p in children
      modifies this`children
      ensures children == Tint(old(children), p, c)
    {
      children := children[p := children[p].(left := Untag(children[p].left) + Bit(c))];
    }

    method SetChild(p: Ref, d: Dir, child: Ref)
      requires p in children
      modifies this`children
      ensures children == Put(old(children), p, d, child)
    {
      var word := child;
      if d.Left? {
        word := child + Bit(ColorAt(children, p));
      }
      children := children[p := children[p].Set(d, word)];
    }

    // ---------- rotations and colour flip ----------

    method Rotate(node: Ref, d: Dir, ghost t: Tree) returns (temp: Ref)
      requires t.Node? && t.Child(d.Flip()).Node?
      requires Rep(children, range, node, t) && NoDup(Ids(t))
      modifies this`children
      ensures Rep(children, range, temp, RbTree.Rotate(t, d))
      ensures Rewired(old(children), children, Ids(t))
    {
      var f := d.Flip();
      temp := Kid(children, node, f);
      SetChild(node, f, Kid(children, temp, d));
      SetChild(temp, d, node);
      SetColor(temp, ColorAt(children, node));
      SetColor(node, Red);
      RotatedRep(old(children), range, node, temp, d, t);
    }

    method DoubleRotate(node: Ref, d: Dir, ghost t: Tree) returns (top: Ref)
      requires t.Node? && t.Child(d.Flip()).Node? && t.Child(d.Flip()).Child(d).Node?
      requires Rep(children, range, node, t) && NoDup(Ids(t))
      modifies this`children
      ensures Rep(children, range, top, RbTree.DoubleRotate(t, d))
      ensures Rewired(old(children), children, Ids(t))
    {
      var f := d.Flip();
      RotateChild(node, f, t);
      ghost var t' := t.SetChild(f, RbTree.Rotate(t.Child(f), f));
      RotateKeepsOrder(t.Child(f), f);
      assert Ids(t') == Ids(t);
      top := Rotate(node, d, t');
    }

    // Rotate a child towards the outside.
    method RotateChild(node: Ref, f: Dir, ghost t: Tree)
      requires t.Node? && t.Child(f).Node? && t.Child(f).Child(f.Flip()).Node?
      requires Rep(children, range, node, t) && NoDup(Ids(t))
      modifies this`children
      ensures Rep(children, range, node, t.SetChild(f, RbTree.Rotate(t.Child(f), f)))
      ensures Rewired(old(children), children, Ids(t))
    {
      ghost var ch0 := children;
      ghost var s := t.Child(f);
      DistinctParts(t);
      var child := Rotate(Kid(children, node, f), f, s);
      ghost var s' := RbTree.Rotate(s, f);
      RotateKeepsOrder(s, f);
      ghost var ch1 := children;
      RepFrame(ch0, range, ch1, range, Kid(ch0, node, f.Flip()), t.Child(f.Flip()));
      SetChild(node, f, child);
      RepPut(ch1, range, node, t, f, child, s');
    }

    method FlipColor(p: Ref, ghost t: Tree)
      requires Rep(children, range, p, t) && NoDup(Ids(t))
      modifies this`children
      ensures Rep(children, range, p, FlipRoot(t))
      ensures Rewired(old(children), children, Ids(t))
    {
      RepAligned(children, range, p, t);
      if p != NIL {
        DistinctParts(t);
        RepTint(children, range, p, t, t.color.Flip());
        SetColor(p, ColorAt(children, p).Flip());
      }
    }

    method ColorFlip(node: Ref, ghost t: Tree)
      requires t.Node? && Rep(children, range, node, t) && NoDup(Ids(t))
      modifies this`children
      ensures Rep(children, range, node, RbTree.ColorFlip(t))
      ensures Rewired(old(children), children, Ids(t))
    {
      DistinctParts(t);
      RepTint(children, range, node, t, t.color.Flip());
      SetColor(node, ColorAt(children, node).Flip());

      ghost var ch1 := children;
      FlipColor(Kid(children, node, Left), t.left);
      ghost var ch2 := children;
      RepFrame(ch1, range, ch2, range, Kid(ch1, node, Right), t.right);
      assert Ids(FlipRoot(t.left)) == Ids(t.left);
      FlipColor(Kid(children, node, Right), t.right);
      RepFrame(ch2, range, children, range, Kid(ch1, node, Left), FlipRoot(t.left));
    }

    // ---------- insertion ----------

    method InsertFixUp(node: Ref, d: Dir, ghost t: Tree) returns (top: Ref)
      requires t.Node? && Rep(children, range, node, t) && NoDup(Ids(t))
      modifies this`children
      ensures Rep(children, range, top, RbTree.InsertFixUp(t, d))
      ensures Rewired(old(children), children, Ids(t))
    {
      var f := d.Flip();
      assert f.Flip() == d;
      top := node;
      var child, other := Kid(children, node, d), Kid(children, node, f);
      RepAligned(children, range, child, t.Child(d));
      RepAligned(children, range, other, t.Child(f));
      if RedAt(children, child) {
        ghost var c := t.Child(d);
        RepAligned(children, range, Kid(children, child, d), c.Child(d));
        RepAligned(children, range, Kid(children, child, f), c.Child(f));
        if RedAt(children, other) {
          if RedAt(children, Kid(children, child, d)) || RedAt(children, Kid(children, child, f)) {
            ColorFlip(node, t);
          }
        } else {
          if RedAt(children, Kid(children, child, d)) {
            top := Rotate(node, f, t);
          } else if RedAt(children, Kid(children, child, f)) {
            top := DoubleRotate(node, f, t);
          }
        }
      }
    }

    // Take a slot from the free list, from the current page, or from a new page.
    method NodeMake(r: Range, c: Color, pageOk: bool) returns (node: Ref)
      requires Pool() && ValidRange(r)
      modifies this`children, this`range, this`list, this`freeList, this`pageCount, this`nodeCount, this`free
      ensures old(NextSlot(pageOk)).None? ==>
                node == NULL && unchanged(this)
      ensures old(NextSlot(pageOk)).Some? ==>
                && node == old(NextSlot(pageOk)).value
                && Pool() && IsNodeRef(node) && node !in free
                && TookSlot(old(free), old(Handed()), free, Handed(), node) && (old(free) == [] ==> node !in old(children))
                && children == old(children)[node := Pair(NIL + Bit(c), NIL)]
                && range == old(range)[node := r]
                && list == old(list)[node := Pair(NULL, NULL)]
      ensures node == NULL <==> old(free) == [] && old(nodeCount) == 84 && !pageOk
      ensures pageCount == old(pageCount) + if old(free) == [] && old(nodeCount) == 84 && pageOk then 1 else 0
    {
      hide Slot, Slots;
      FreeListEnds(children, freeList, free);
      node := TakeSlot(pageOk);
      if node == NULL {
        return;
      }
      OneMoreSlot(old(Handed()));
      ghost var ch0 := children;
      ClearNode(node, r, c);
      FreeFrame(ch0, children, freeList, free);
    }

    // Zero a slot and fill in its range, its nil children and its colour.
    method ClearNode(node: Ref, r: Range, c: Color)
      modifies this`children, this`range, this`list
      ensures children == old(children)[node := Pair(NIL + Bit(c), NIL)]
      ensures range == old(range)[node := r]
      ensures list == old(list)[node := Pair(NULL, NULL)]
    {
      list := list[node := Pair(NULL, NULL)];
      range := range[node := r];
      children := children[node := Pair(NIL, NIL)];
      SetColor(node, c);
    }

    method TakeSlot(pageOk: bool) returns (node: Ref)
      requires Pool()
      modifies this`freeList, this`pageCount, this`nodeCount, this`free
      ensures old(NextSlot(pageOk)).None? ==>
                && node == NULL && freeList == old(freeList) && free == old(free)
                && pageCount == old(pageCount) && nodeCount == old(nodeCount)
      ensures old(NextSlot(pageOk)).Some? ==>
                && node == old(NextSlot(pageOk)).value && IsNodeRef(node)
                && pageCount > 0 && nodeCount <= NODES_MAX
                && FreeChain(children, freeList, free) && NoDup(free) && node !in free
                && (forall p :: p in free ==> p in children)
                && TookSlot(old(free), old(Handed()), free, Handed(), node) && (old(free) != [] <==> node in children)
      ensures node == NULL <==> old(freeList) == NULL && old(nodeCount) == NODES_MAX && !pageOk
      ensures pageCount == old(pageCount) + if old(freeList) == NULL && old(nodeCount) == NODES_MAX && pageOk then 1 else 0
    {
      if freeList != NULL {
        node := freeList;
        freeList := children[node].right;
        free := free[1..];
      } else {
        node := CarveSlot(pageOk);
      }
    }

    // Take a slot that was never handed out, from the current page or from a new one.
    method CarveSlot(pageOk: bool) returns (node: Ref)
      requires pageCount > 0 && nodeCount <= NODES_MAX && children.Keys == Slots(Handed())
      modifies this`pageCount, this`nodeCount
      ensures !(old(nodeCount) < NODES_MAX || pageOk) ==>
                node == NULL && pageCount == old(pageCount) && nodeCount == old(nodeCount)
      ensures old(nodeCount) < NODES_MAX || pageOk ==>
                && node == Slot(old(Handed())) && IsNodeRef(node) && node !in children
                && pageCount > 0 && nodeCount <= NODES_MAX && Handed() == old(Handed()) + 1
      ensures pageCount == old(pageCount) + if old(nodeCount) == NODES_MAX && pageOk then 1 else 0
    {
      ghost var h := Handed();
      if nodeCount < NODES_MAX {
        nodeCount := nodeCount + 1;
      } else if pageOk {
        pageCount := pageCount + 1;
        nodeCount := 1;
      } else {
        return NULL;
      }
      assert h == (pageCount - 1) * NODES_MAX + (nodeCount - 1);
      node := Carve(pageCount, nodeCount);
      SlotFits(h);
      OneMoreSlot(h);
    }

    // The address of the last slot of the given page.
    method Carve(page: nat, count: nat) returns (node: Ref)
      requires 1 <= page && 1 <= count <= NODES_MAX
      ensures node == Slot((page - 1) * NODES_MAX + (count - 1))
    {
      node := PAGE_SIZE * page + NODES_HEADER + NODE_SIZE * (count - 1);
      SlotOfPage(page - 1, count - 1);
    }

    // Splice a node into the list, next to an anchor.
    method NodeInsert(node: Ref, anchor: Ref, d: Dir)
      requires node in list && anchor in list && list[anchor].Get(d) in list
      requires node != anchor && node != list[anchor].Get(d)
      modifies this`list
      ensures list == Splice(old(list), node, anchor, d)
    {
      list := list[node := list[node].Set(d, list[anchor].Get(d))];
      list := list[node := list[node].Set(d.Flip(), anchor)];
      assert list == old(list)[node := Pair(NULL, NULL).Set(d, old(list)[anchor].Get(d)).Set(d.Flip(), anchor)];
      list := list[anchor := list[anchor].Set(d, node)];
      var far := list[node].Get(d);
      list := list[far := list[far].Set(d.Flip(), node)];
    }

    // ---------- common context of the recursive helpers ----------

    // A subtree in place, the list it is threaded on, and where its nodes stand on that list.
    ghost predicate InPlace(node: Ref, t: Tree, all: seq<Ref>, lo: nat)
      reads this
    {
      && Pool() && Rep(children, range, node, t) && NoDup(Ids(t))
      && Threaded(list, all) && Apart(all, free) && (forall p :: p in all ==> p in children)
      && Segment(all, lo, Ids(t))
    }

    // What a step down one child needs to know.
    lemma StepDown(node: Ref, t: Tree, all: seq<Ref>, lo: nat, d: Dir)
      requires t.Node? && InPlace(node, t, all, lo)
      ensures node == t.id && node in all && node in children && Apart(Ids(t), free)
      ensures Segment(all, lo, Ids(t)) && NoDup(Ids(t)) && Rep(children, range, node, t)
      ensures var lo' := if d.Left? then lo else lo + |Ids(t.left)| + 1;
              && InPlace(Kid(children, node, d), t.Child(d), all, lo')
              && AnchorFor(all, lo', |Ids(t.Child(d))|, node, d)
    {
      hide Slots, FreeChain, Slot, NoDup, Threaded, Segment, AnchorFor;
      DistinctParts(t);
      AnchorBelow(all, lo, t, d);
      SegmentSubset(all, lo, Ids(t));
    }

    lemma WholeInPlace()
      requires Valid()
      ensures InPlace(root, tree, Ids(tree), 0)
      ensures AnchorFor(Ids(tree), 0, |Ids(tree)|, LIST, Right)
    {
      RepIds(children, range, root, tree);
    }

    // ---------- insertion ----------

    method InsertLeaf(r: Range, anchor: Ref, d: Dir, pageOk: bool, ghost all: seq<Ref>, ghost k: nat)
      returns (node: Ref, status: InsertStatus)
      requires InPlace(NIL, Nil, all, k) && ValidRange(r) && AnchorFor(all, k, 0, anchor, d)
      modifies this`children, this`range, this`list, this`freeList, this`pageCount, this`nodeCount, this`free
      ensures old(NextSlot(pageOk)).None? ==>
                status == InsertOom && node == NIL && unchanged(this)
      ensures old(NextSlot(pageOk)).Some? ==>
                && status == InsertOk && node == old(NextSlot(pageOk)).value
                && Rep(children, range, node, Node(node, Red, r, Nil, Nil))
                && Pool() && Spliced(list, all, k, node, old(free), old(Handed()), free, Handed())
                && SameOutside(old(children), children, [node])
                && range == old(range)[node := r]
    {
      hide Slots, FreeChain;
      node := NodeMake(r, Red, pageOk);
      if node == NULL {
        return NIL, InsertOom;
      }
      status := InsertOk;
      assert node !in all by {
        if old(free) != [] {
          assert node in old(free);
        }
      }
      ThreadedFrame(old(list), list, all, node);
      hide Threaded;
      SpliceThreads(list, all, k, node, anchor, d);
      NodeInsert(node, anchor, d);
      NewLeafRep(children, range, node, Node(node, Red, r, Nil, Nil));
    }

    method Relink(node: Ref, d: Dir, child: Ref, ghost t: Tree, ghost tc: Tree)
      requires Relinkable(children, range, node, t, d, child, tc)
      modifies this`children
      ensures Rep(children, range, node, t.SetChild(d, tc))
      ensures Rewired(old(children), children, [node]) && node in Ids(t.SetChild(d, tc))
    {
      DistinctParts(t.SetChild(d, tc));
      RepPut(children, range, node, t, d, child, tc);
      SetChild(node, d, child);
    }

    // After a successful step below: relink the child and fix up.  `ch` and `rg` are the memory as
    // it was before that step.
    method InsertAbove(node: Ref, d: Dir, child: Ref, ghost ch: Links, ghost rg: RangeOf, ghost t: Tree,
                       ghost r: Range, ghost id: Ref)
      returns (top: Ref)
      requires t.Node? && Rep(ch, rg, node, t) && NoDup(Ids(t)) && id !in Ids(t) && AllValid(t) && ValidRange(r)
      requires RbTree.InsertHelper(t.Child(d), r, Some(id)).1 == InsertOk
      requires Rep(children, range, child, RbTree.InsertHelper(t.Child(d), r, Some(id)).0)
      requires SameOutside(ch, children, Ids(t.Child(d)) + [id]) && range == rg[id := r]
      requires Pool() && Apart(Ids(t), free) && id !in free
      modifies this`children
      ensures Rep(children, range, top,
                  RbTree.InsertFixUp(t.SetChild(d, RbTree.InsertHelper(t.Child(d), r, Some(id)).0), d))
      ensures SameOutside(ch, children, Ids(t) + [id])
      ensures Pool()
    {
      hide RbTree.InsertHelper, RbTree.InsertFixUp, FreeChain, Rep, NoDup, Slots, SameOutside, Apart, Ids;
      ghost var tc := RbTree.InsertHelper(t.Child(d), r, Some(id)).0;
      GrownStep(ch, rg, children, range, node, t, d, child, r, id, free);
      ghost var ch1 := children;
      Relink(node, d, child, t, tc);
      ghost var ch2 := children;
      top := InsertFixUp(node, d, t.SetChild(d, tc));
      RewiredTwice(ch1, ch2, children, node, Ids(t.SetChild(d, tc)));
      OutsideTwice(ch, ch1, children, Ids(t.Child(d)) + [id], Ids(t.SetChild(d, tc)), Ids(t) + [id]);
      PoolRewired(ch1, children, range, Handed(), freeList, free, Ids(t.SetChild(d, tc)));
    }

    method InsertHelper(node: Ref, r: Range, anchor: Ref, d: Dir, pageOk: bool,
                        ghost t: Tree, ghost all: seq<Ref>, ghost lo: nat, ghost k: nat, ghost slot: Option<Ref>)
      returns (top: Ref, status: InsertStatus, ghost calls: nat)
      requires InPlace(node, t, all, lo) && ValidRange(r) && AllValid(t)
      requires AnchorFor(all, lo, |Ids(t)|, anchor, d)
      requires slot == NextSlot(pageOk) && k == lo + InsertPos(t, r)
      modifies this`children, this`range, this`list, this`freeList, this`pageCount, this`nodeCount, this`free
      ensures status == RbTree.InsertHelper(t, r, slot).1 && calls == InsertCalls(t, r)
      ensures Rep(children, range, top, RbTree.InsertHelper(t, r, slot).0)
      ensures status != InsertOk ==> unchanged(this)
      ensures status == InsertOk ==>
                && slot.Some? && Pool() && Spliced(list, all, k, slot.value, old(free), old(Handed()), free, Handed())
                && SameOutside(old(children), children, Ids(t) + [slot.value])
                && range == old(range)[slot.value := r]
      decreases t, 2
    {
      hide SameOutside, Apart, NoDup, Threaded, Slots, FreeChain, InsertAt;
      RepAligned(children, range, node, t);
      if node == NIL {
        top, status := InsertLeaf(r, anchor, d, pageOk, all, lo);
        assert Ids(t) + [top] == [top];
        return top, status, 1;
      }
      top, status, calls := InsertNode(node, r, pageOk, t, all, lo, k, slot);
    }

    // Insert into a subtree that is not empty.
    method InsertNode(node: Ref, r: Range, pageOk: bool,
                      ghost t: Tree, ghost all: seq<Ref>, ghost lo: nat, ghost k: nat, ghost slot: Option<Ref>)
      returns (top: Ref, status: InsertStatus, ghost calls: nat)
      requires t.Node? && InPlace(node, t, all, lo) && ValidRange(r) && AllValid(t)
      requires slot == NextSlot(pageOk) && k == lo + InsertPos(t, r)
      modifies this`children, this`range, this`list, this`freeList, this`pageCount, this`nodeCount, this`free
      ensures status == RbTree.InsertHelper(t, r, slot).1 && calls == InsertCalls(t, r)
      ensures Rep(children, range, top, RbTree.InsertHelper(t, r, slot).0)
      ensures status != InsertOk ==> unchanged(this)
      ensures status == InsertOk ==>
                && slot.Some? && Pool() && Spliced(list, all, k, slot.value, old(free), old(Handed()), free, Handed())
                && SameOutside(old(children), children, Ids(t) + [slot.value])
                && range == old(range)[slot.value := r]
      decreases t, 1
    {
      hide SameOutside, Apart, NoDup, Threaded, Slots, FreeChain, InsertAt, InsertPos, RbTree.InsertHelper, Segment, AnchorFor, PoolOf;
      HelperStep(t, r, slot);
      if Overlap(r, range[node]) {
        return node, InsertOverlap, 1;
      }
      var dir := if Compare(r, range[node]) > 0 then Right else Left;
      top, status, calls := InsertBelow(node, dir, r, pageOk, t, all, lo, k, slot);
      calls := 1 + calls;
    }

    // Insert below one child, then relink and fix up.
    method InsertBelow(node: Ref, dir: Dir, r: Range, pageOk: bool,
                       ghost t: Tree, ghost all: seq<Ref>, ghost lo: nat, ghost k: nat, ghost slot: Option<Ref>)
      returns (top: Ref, status: InsertStatus, ghost calls: nat)
      requires t.Node? && InPlace(node, t, all, lo) && ValidRange(r) && AllValid(t)
      requires dir == SearchDir(r, t.range)
      requires slot == NextSlot(pageOk) && k == lo + InsertPos(t, r)
      modifies this`children, this`range, this`list, this`freeList, this`pageCount, this`nodeCount, this`free
      ensures status == RbTree.InsertHelper(t.Child(dir), r, slot).1 && calls == InsertCalls(t.Child(dir), r)
      ensures status != InsertOk ==> unchanged(this) && top == node
      ensures status == InsertOk ==>
                && slot.Some? && Pool() && Spliced(list, all, k, slot.value, old(free), old(Handed()), free, Handed())
                && SameOutside(old(children), children, Ids(t) + [slot.value])
                && range == old(range)[slot.value := r]
                && Rep(children, range, top,
                       RbTree.InsertFixUp(t.SetChild(dir, RbTree.InsertHelper(t.Child(dir), r, slot).0), dir))
      decreases t, 0
    {
      hide Rep, NoDup, Threaded, Slots, FreeChain, Segment, AnchorFor, InsertAt, Compare, InsertPos, Ids, SameOutside, Apart,
        PoolOf, Pool, InPlace, Handed, NextSlot, Slot, RbTree.InsertHelper, RbTree.InsertFixUp;
      StepDown(node, t, all, lo, dir);
      InsertPosBelow(t, r);
      ghost var lo' := if dir.Left? then lo else lo + |Ids(t.left)| + 1;
      var child;
      child, status, calls := InsertHelper(Kid(children, node, dir), r, node, dir, pageOk, t.Child(dir), all, lo', k, slot);
      if status != InsertOk {
        return node, status, calls;
      }
      StillApart(all, lo, Ids(t), free, slot.value);
      top := InsertAbove(node, dir, child, old(children), old(range), t, r, slot.value);
    }

    // The call on the root, in terms of the tree as a whole.
    method InsertRoot(r: Range, pageOk: bool, ghost k: nat, ghost slot: Option<Ref>)
      returns (status: InsertStatus, ghost calls: nat)
      requires Valid() && ValidRange(r) && AllValid(tree) && slot == NextSlot(pageOk) && k == InsertPos(tree, r)
      modifies this`root, this`children, this`range, this`list, this`freeList, this`pageCount, this`nodeCount, this`free
      ensures status == RbTree.InsertHelper(tree, r, slot).1 && calls == InsertCalls(tree, r)
      ensures Rep(children, range, root, RbTree.InsertHelper(tree, r, slot).0)
      ensures status != InsertOk ==>
                unchanged(`children, `range, `list, `freeList, `pageCount, `nodeCount, `free)
      ensures status == InsertOk ==> slot.Some? && Pool() && Spliced(list, Ids(tree), k, slot.value, old(free), old(Handed()), free, Handed())
    {
      hide *;
      WholeInPlace();
      root, status, calls := InsertHelper(root, r, LIST, Right, pageOk, tree, Ids(tree), 0, k, slot);
    }

    method Insert(r: Range, pageOk: bool) returns (status: InsertStatus, ghost calls: nat)
      requires Valid() && ValidRange(r)
      modifies this
      ensures Valid()
      ensures AllValid(old(tree)) && tree == RbTree.Insert(old(tree), r, old(NextSlot(pageOk))).0
      ensures calls == InsertCalls(old(tree), r) && Pow2(calls / 2) <= |old(Ids(tree))| + 1
      ensures status == InsertOverlap <==> OverlapsAny(r, old(Contents(tree)))
      ensures status == InsertOom <==>
                !OverlapsAny(r, old(Contents(tree))) && old(free) == [] && old(nodeCount) == 84 && !pageOk
      ensures status != InsertOk ==>
                tree == old(tree) && list == old(list) && free == old(free) && Handed() == old(Handed())
      ensures status == InsertOk ==>
                && InsertPos(old(tree), r) <= |old(Contents(tree))|
                && Contents(tree) == InsertAt(old(Contents(tree)), InsertPos(old(tree), r), r)
                && Ids(tree) == InsertAt(old(Ids(tree)), InsertPos(old(tree), r), old(NextSlot(pageOk)).value)
                && TookSlot(old(free), old(Handed()), free, Handed(), old(NextSlot(pageOk)).value)
    {
      hide NoDup, Threaded, FreeChain, Slots, InsertPos, InsertAt, RbTree.InsertHelper, OverlapsAny, Slot, NextSlot, Rep,
        TookSlot, Handed, Apart, Ascending, RedBlack, InsertCalls, DeleteCalls, DeleteHops, Pow2;
      ghost var t, slot, k := tree, NextSlot(pageOk), InsertPos(tree, r);
      OomExactly(pageOk);
      InsertCorrect(t, r, slot);
      InsertIsBlackened(t, r, slot);
      ghost var grown := RbTree.InsertHelper(t, r, slot).0;
      CallsAreLogarithmic(t, r);
      status, calls := InsertRoot(r, pageOk, k, slot);
      if status == InsertOk {
        InsertFinish(t, grown, k, slot.value, old(Handed()), old(free));
      }
    }

    // Blacken the root after a successful insertion.
    method InsertFinish(ghost t: Tree, ghost grown: Tree, ghost k: nat, ghost id: Ref, ghost handed: nat, ghost free0: seq<Ref>)
      requires Pool() && Rep(children, range, root, grown) && WellFormed(Blacken(grown))
      requires NoDup(Ids(t)) && id !in Ids(t) && k <= |Ids(t)|
      requires Ids(grown) == InsertAt(Ids(t), k, id) && Threaded(list, Ids(grown))
      requires Conserved(Slots(handed), Ids(t), free0)
      requires TookSlot(free0, handed, free, Handed(), id)
      modifies this`children, this`tree
      ensures Valid() && tree == Blacken(grown)
    {
      hide NoDup, Threaded, FreeChain, Slots, InsertAt, Rep, WellFormed, Conserved, Slot;
      InsertNoDup(Ids(t), k, id);
      TakeConserves(handed, Handed(), Ids(t), free0, free, k, id);
      BlackenRoot(grown);
    }

    // Blacken the root, which completes an operation.
    method BlackenRoot(ghost t: Tree)
      requires Pool() && Rep(children, range, root, t) && NoDup(Ids(t)) && Threaded(list, Ids(t))
      requires Conserved(children.Keys, Ids(t), free) && WellFormed(Blacken(t))
      modifies this`children, this`tree
      ensures Valid() && tree == Blacken(t)
    {
      hide Slots, FreeChain, NoDup, Threaded, WellFormed, Rep, Ids, Conserved, PoolOf, Rewired, Handed;
      RepAligned(children, range, root, t);
      BlackenKeepsOrder(t);
      if root != NIL {
        TintRoot(children, range, root, t);
        ConservedApart(children.Keys, Ids(t), free);
        PoolRewired(children, Tint(children, root, Black), range, Handed(), freeList, free, Ids(t));
        SetColor(root, Black);
      }
      tree := Blacken(t);
    }

    // ---------- freeing ----------

    // Push a node, or a whole subtree, onto the free list.
    method NodeFree(node: Ref, recurse: bool, ghost t: Tree)
      requires Pool() && Rep(children, range, node, t) && NoDup(Ids(t)) && Apart(Ids(t), free)
      modifies this`children, this`freeList, this`free
      ensures Pool()
      ensures recurse ==> free == FreedOrder(t) + old(free)
      ensures !recurse ==> free == (if t.Nil? then [] else [t.id]) + old(free)
      ensures Rewired(old(children), children, if recurse || t.Nil? then Ids(t) else [t.id])
      ensures !recurse && t.Node? ==> freeList == node
      decreases t, 1
    {
      hide NoDup, FreeChain, Slots, Handed;
      RepAligned(children, range, node, t);
      if node == NIL {
        return;
      }
      DistinctParts(t);
      if recurse {
        FreeChildren(node, t);
      }
      PushFree(node);
      if recurse {
        Shuffle(node, FreedOrder(t.right), FreedOrder(t.left), old(free));
      }
    }

    // Free both subtrees of a node, left before right.
    method FreeChildren(node: Ref, ghost t: Tree)
      requires t.Node? && Pool() && Rep(children, range, node, t) && NoDup(Ids(t)) && Apart(Ids(t), free)
      modifies this`children, this`freeList, this`free
      ensures Pool() && node in children && node !in free
      ensures free == FreedOrder(t.right) + (FreedOrder(t.left) + old(free))
      ensures Rewired(old(children), children, Ids(t.left) + Ids(t.right))
      decreases t, 0
    {
      hide NoDup, FreeChain, Slots, Handed, PoolOf, Apart, Rewired, Ids;
      DistinctParts(t);
      FreedApart(t, free);
      NodeFree(Kid(children, node, Left), true, t.left);
      FreedFrame(old(children), children, Ids(t.left), range, node, t.right);
      ghost var ch1 := children;
      NodeFree(Kid(children, node, Right), true, t.right);
      RewiredBoth(old(children), ch1, children, Ids(t.left), Ids(t.right));
    }

    method PushFree(node: Ref)
      requires Pool() && node in children && IsNodeRef(node) && node !in free
      modifies this`children, this`freeList, this`free
      ensures Pool() && free == [node] + old(free) && freeList == node
      ensures Rewired(old(children), children, [node])
    {
      hide PoolOf, Slots, Handed, NoDup;
      PushPool(children, range, Handed(), freeList, free, node);
      children := children[node := children[node].(right := freeList)];
      freeList := node;
      free := [node] + free;
    }

    // ---------- deletion ----------

    method FixParent(parent: Ref, d: Dir, ghost p: Tree, ghost h: nat) returns (top: Ref, status: DeleteStatus)
      requires Rep(children, range, parent, p) && NoDup(Ids(p))
      requires Short(p, d, h) && !p.Child(d.Flip()).IsRed()
      modifies this`children
      ensures Rep(children, range, top, DeleteFixParent(p, d).0) && status == DeleteFixParent(p, d).1
      ensures Rewired(old(children), children, Ids(p))
    {
      hide NoDup, RedBlack, RbTree.Rotate, RbTree.DoubleRotate, Rewired;
      var f := d.Flip();
      FixParentSettles(p, d, h);
      ghost var s := p.Child(f);
      var sibling := Kid(children, parent, f);
      RepAligned(children, range, sibling, s);
      RepAligned(children, range, Kid(children, sibling, Left), s.left);
      RepAligned(children, range, Kid(children, sibling, Right), s.right);
      if !RedAt(children, Kid(children, sibling, Left)) && !RedAt(children, Kid(children, sibling, Right)) {
        status := if RedAt(children, parent) then DeleteOk else DeleteFail;
        Darken(parent, f, p);
        top := parent;
      } else {
        top := Straighten(parent, d, p);
        status := DeleteOk;
      }
    }

    // Recolour a node black and one of its children red.
    method Darken(parent: Ref, f: Dir, ghost p: Tree)
      requires p.Node? && p.Child(f).Node? && Rep(children, range, parent, p) && NoDup(Ids(p))
      modifies this`children
      ensures Rep(children, range, parent, p.SetColor(Black).SetChild(f, p.Child(f).SetColor(Red)))
      ensures Rewired(old(children), children, Ids(p))
    {
      hide NoDup;
      DistinctParts(p);
      var sibling := Kid(children, parent, f);
      assert sibling == p.Child(f).id && sibling in Ids(p);
      RepTint(children, range, parent, p, Black);
      SetColor(parent, Black);
      RepTintChild(children, range, parent, p.SetColor(Black), f, Red);
      SetColor(sibling, Red);
    }

    // Rotate the sibling up and spread the colours.
    method Straighten(parent: Ref, d: Dir, ghost p: Tree) returns (top: Ref)
      requires p.Node? && p.Child(d.Flip()).Node? && Rep(children, range, parent, p) && NoDup(Ids(p))
      requires !p.Child(d.Flip()).Child(d.Flip()).IsRed() ==> p.Child(d.Flip()).Child(d).Node?
      requires var up := if p.Child(d.Flip()).Child(d.Flip()).IsRed() then RbTree.Rotate(p, d) else RbTree.DoubleRotate(p, d);
               up.left.Node? && up.right.Node?
      modifies this`children
      ensures var up := if p.Child(d.Flip()).Child(d.Flip()).IsRed() then RbTree.Rotate(p, d) else RbTree.DoubleRotate(p, d);
              Rep(children, range, top, Node(up.id, p.color, up.range, Blacken(up.left), Blacken(up.right)))
      ensures Rewired(old(children), children, Ids(p))
    {
      hide NoDup, RbTree.Rotate, RbTree.DoubleRotate, Ids;
      var f := d.Flip();
      ghost var s := p.Child(f);
      var sibling := Kid(children, parent, f);
      RepAligned(children, range, Kid(children, sibling, f), s.Child(f));
      var color := ColorAt(children, parent);
      ghost var up := if s.Child(f).IsRed() then RbTree.Rotate(p, d) else RbTree.DoubleRotate(p, d);
      if RedAt(children, Kid(children, sibling, f)) {
        RotateKeepsOrder(p, d);
        top := Rotate(parent, d, p);
      } else {
        DoubleRotateKeepsOrder(p, d);
        top := DoubleRotate(parent, d, p);
      }
      Recolor(top, color, up);
    }

    // Give the top its old colour back and blacken its two children.
    method Recolor(top: Ref, c: Color, ghost t: Tree)
      requires t.Node? && t.left.Node? && t.right.Node?
      requires Rep(children, range, top, t) && NoDup(Ids(t))
      modifies this`children
      ensures Rep(children, range, top, Node(t.id, c, t.range, Blacken(t.left), Blacken(t.right)))
      ensures Rewired(old(children), children, Ids(t))
    {
      DistinctParts(t);
      RepTint(children, range, top, t, c);
      SetColor(top, c);
      ghost var t1 := t.SetColor(c);
      RepTintChild(children, range, top, t1, Left, Black);
      SetColor(Kid(children, top, Left), Black);
      ghost var t2 := t1.SetChild(Left, t.left.SetColor(Black));
      assert Ids(t2) == Ids(t);
      RepTintChild(children, range, top, t2, Right, Black);
      SetColor(Kid(children, top, Right), Black);
      assert t.left.id in Ids(t) && t.right.id in Ids(t);
    }

    method DeleteFixUp(node: Ref, d: Dir, ghost t: Tree, ghost h: nat) returns (top: Ref, status: DeleteStatus)
      requires Rep(children, range, node, t) && NoDup(Ids(t)) && Short(t, d, h)
      modifies this`children
      ensures Rep(children, range, top, RbTree.DeleteFixUp(t, d).0) && status == RbTree.DeleteFixUp(t, d).1
      ensures Rewired(old(children), children, Ids(t))
    {
      RepAligned(children, range, Kid(children, node, d.Flip()), t.Child(d.Flip()));
      if RedAt(children, Kid(children, node, d.Flip())) {
        top, status := FixRedSibling(node, d, t, h);
      } else {
        top, status := FixParent(node, d, t, h);
      }
    }

    // Rotate a red sibling away and go on one level below.
    method FixRedSibling(node: Ref, d: Dir, ghost t: Tree, ghost h: nat) returns (top: Ref, status: DeleteStatus)
      requires Rep(children, range, node, t) && NoDup(Ids(t)) && Short(t, d, h) && t.Child(d.Flip()).IsRed()
      modifies this`children
      ensures Rep(children, range, top, RbTree.DeleteFixUp(t, d).0) && status == RbTree.DeleteFixUp(t, d).1
      ensures Rewired(old(children), children, Ids(t))
    {
      RedSiblingReduction(t, d, h);
      RotateKeepsOrder(t, d);
      top := Rotate(node, d, t);
      ghost var up := RbTree.Rotate(t, d);
      status := FixBelow(top, node, d, up, h);
    }

    // Fix up one child of a node that needs no change itself.
    method FixBelow(top: Ref, node: Ref, d: Dir, ghost up: Tree, ghost h: nat) returns (status: DeleteStatus)
      requires up.Node? && up.Child(d).Node? && Rep(children, range, top, up) && NoDup(Ids(up)) && node == Kid(children, top, d)
      requires h > 0 && Short(up.Child(d), d, h - 1) && !up.Child(d).Child(d.Flip()).IsRed()
      modifies this`children
      ensures Rep(children, range, top, up.SetChild(d, DeleteFixParent(up.Child(d), d).0))
      ensures status == DeleteFixParent(up.Child(d), d).1
      ensures Rewired(old(children), children, Ids(up))
    {
      ghost var ch1 := children;
      DistinctParts(up);
      var parent;
      parent, status := FixParent(node, d, up.Child(d), h - 1);
      ghost var p' := DeleteFixParent(up.Child(d), d).0;
      FixParentKeepsOrder(up.Child(d), d);
      RepFrame(ch1, range, children, range, Kid(ch1, top, d.Flip()), up.Child(d.Flip()));
      assert Ids(up.SetChild(d, p')) == Ids(up);
      if parent != node {
        Relink(top, d, parent, up, p');
      }
    }

    // Take a node out of the list.
    method NodeRemoveFromList(node: Ref)
      requires node in list && list[node].left in list && list[node].right in list
      modifies this`list
      ensures list == Unlink(old(list), node)
    {
      var left, right := list[node].left, list[node].right;
      list := list[left := list[left].(right := right)];
      list := list[right := list[right].(left := left)];
    }

    // A node with at most one child gives way to that child, which turns black if that keeps the
    // black height.
    method OnlyChild(node: Ref, ghost t: Tree) returns (temp: Ref, status: DeleteStatus)
      requires t.Node? && (t.left.Nil? || t.right.Nil?) && Rep(children, range, node, t) && NoDup(Ids(t))
      modifies this`children
      ensures Rep(children, range, temp, RbTree.DeleteHelper(t, t.range).0)
      ensures status == RbTree.DeleteHelper(t, t.range).1
      ensures Rewired(old(children), children, Ids(RbTree.DeleteHelper(t, t.range).0))
    {
      DistinctParts(t);
      RepAligned(children, range, Kid(children, node, Left), t.left);
      RepAligned(children, range, Kid(children, node, Right), t.right);
      temp := NIL;
      if Kid(children, node, Left) != NIL {
        temp := Kid(children, node, Left);
      }
      if Kid(children, node, Right) != NIL {
        temp := Kid(children, node, Right);
      }
      ghost var rest := if t.right.Node? then t.right else t.left;
      RepAligned(children, range, temp, rest);
      status := DeleteFail;
      if RedAt(children, node) {
        status := DeleteOk;
      } else if RedAt(children, temp) {
        DistinctParts(rest);
        RepTint(children, range, temp, rest, Black);
        SetColor(temp, Black);
        status := DeleteOk;
      }
    }

    // Unlink and free a node with at most one child.
    method DeleteLeaf(node: Ref, ghost t: Tree, ghost all: seq<Ref>, ghost lo: nat)
      returns (temp: Ref, status: DeleteStatus)
      requires t.Node? && (t.left.Nil? || t.right.Nil?) && InPlace(node, t, all, lo)
      modifies this`children, this`list, this`freeList, this`free
      ensures Rep(children, range, temp, RbTree.DeleteHelper(t, t.range).0)
      ensures status == RbTree.DeleteHelper(t, t.range).1
      ensures Pool() && Rewired(old(children), children, Ids(t))
      ensures lo + |Ids(t.left)| < |all| && Threaded(list, RemoveAt(all, lo + |Ids(t.left)|))
      ensures free == [t.id] + old(free)
    {
      hide Threaded, RemoveAt, Segment, FreeChain, Slots, NoDup, RbTree.DeleteHelper, Rep, Apart, Unlink, Ids, IsNodeRef, InPlace;
      LeafReady(node, t, all, lo);
      ghost var rest := RbTree.DeleteHelper(t, t.range).0;
      temp, status := OnlyChild(node, t);
      PoolRewired(old(children), children, range, Handed(), freeList, free, Ids(rest));
      ghost var ch1 := children;
      NodeRemoveFromList(node);
      PushFree(node);
      RepElsewhere(ch1, range, children, temp, rest, node);
      RewiredLeaf(old(children), ch1, children, node, Ids(rest), Ids(t));
    }

    // What is known of a node with at most one child before it goes.
    lemma LeafReady(node: Ref, t: Tree, all: seq<Ref>, lo: nat)
      requires t.Node? && (t.left.Nil? || t.right.Nil?) && InPlace(node, t, all, lo)
      ensures Pool() && Rep(children, range, node, t) && NoDup(Ids(t))
      ensures node == t.id && IsNodeRef(node) && node in children && node !in free
      ensures node in list && list[node].left in list && list[node].right in list
      ensures lo + |Ids(t.left)| < |all| && Threaded(Unlink(list, node), RemoveAt(all, lo + |Ids(t.left)|))
      ensures var rest := RbTree.DeleteHelper(t, t.range).0;
              && Apart(Ids(rest), free) && node !in Ids(rest) && node in Ids(t)
              && (forall p :: p in Ids(rest) ==> p in Ids(t))
    {
      hide RbTree.DeleteHelper, FreeChain, Slots, NoDup, Threaded, RemoveAt, Unlink, Segment, Apart, Ids, PoolOf;
      LeafUnlinks(list, all, lo, t);
      LeafApart(all, lo, t, free);
    }

    // The heir of a node with two children: the rightmost node of its left subtree.
    method FindHeir(node: Ref, ghost t: Tree) returns (temp: Ref, ghost steps: nat)
      requires t.Node? && t.left.Node? && Rep(children, range, node, t)
      ensures steps == RightSteps(t.left) && steps < Height(t.left)
      ensures temp == Rightmost(t.left).id && temp in range && range[temp] == Rightmost(t.left).range
    {
      temp := Kid(children, node, Left);
      ghost var s := t.left;
      steps := 0;
      RightStepsByHeight(t.left);
      RepAligned(children, range, Kid(children, temp, Right), s.right);
      while Kid(children, temp, Right) != NIL
        invariant s.Node? && Rep(children, range, temp, s) && Rightmost(s) == Rightmost(t.left)
        invariant Kid(children, temp, Right) == NIL <==> s.right.Nil?
        invariant steps + RightSteps(s) == RightSteps(t.left)
        decreases s
      {
        temp := Kid(children, temp, Right);
        s, steps := s.right, steps + 1;
        RepAligned(children, range, Kid(children, temp, Right), s.right);
      }
    }

    method DeleteHelper(node: Ref, r: Range, ghost t: Tree, ghost all: seq<Ref>, ghost lo: nat)
      returns (top: Ref, status: DeleteStatus, ghost calls: nat, ghost hops: nat)
      requires InPlace(node, t, all, lo) && RedBlack(t) && Ascending(Contents(t))
      modifies this`children, this`range, this`list, this`freeList, this`free
      ensures Rep(children, range, top, RbTree.DeleteHelper(t, r).0)
      ensures status == RbTree.DeleteHelper(t, r).1 && calls == DeleteCalls(t, r) && hops == DeleteHops(t, r)
      ensures Pool() && Rewired(old(children), children, Ids(t)) && Rewired(old(range), range, Ids(t))
      ensures Removed(list, all, lo, t, r, old(list), old(free), free)
      decreases t, 3
    {
      RepAligned(children, range, node, t);
      if node == NIL {
        return node, DeleteOk, 1, 0;
      }
      if Compare(range[node], r) == 0 {
        top, status, calls, hops := DeleteFound(node, r, t, all, lo);
      } else {
        top, status, calls, hops := DeleteAcross(node, r, t, all, lo);
      }
    }

    // Delete in the child where the range would be.
    method DeleteAcross(node: Ref, r: Range, ghost t: Tree, ghost all: seq<Ref>, ghost lo: nat)
      returns (top: Ref, status: DeleteStatus, ghost calls: nat, ghost hops: nat)
      requires t.Node? && Compare(t.range, r) != 0
      requires InPlace(node, t, all, lo) && RedBlack(t) && Ascending(Contents(t))
      modifies this`children, this`range, this`list, this`freeList, this`free
      ensures Rep(children, range, top, RbTree.DeleteHelper(t, r).0)
      ensures status == RbTree.DeleteHelper(t, r).1 && calls == DeleteCalls(t, r) && hops == DeleteHops(t, r)
      ensures Pool() && Rewired(old(children), children, Ids(t)) && Rewired(old(range), range, Ids(t))
      ensures Removed(list, all, lo, t, r, old(list), old(free), free)
      decreases t, 2
    {
      hide NoDup, Threaded, Slots, FreeChain, Slot, Handed, RemoveAt, Ascending, RedBlack, RbTree.DeleteBelow, RbTree.DeleteHelper,
        Apart, Removed, Find;
      OrderedParts(t);
      SegmentFits(all, lo, Ids(t));
      var d := if Compare(r, range[node]) > 0 then Right else Left;
      top, status, calls, hops := DeleteBelow(node, d, r, t, all, lo);
      RemovedUp(list, all, lo, t, r, old(list), old(free), free);
      calls := 1 + calls;
    }

    // Delete a node that holds the range.
    method DeleteFound(node: Ref, r: Range, ghost t: Tree, ghost all: seq<Ref>, ghost lo: nat)
      returns (top: Ref, status: DeleteStatus, ghost calls: nat, ghost hops: nat)
      requires t.Node? && Compare(t.range, r) == 0
      requires InPlace(node, t, all, lo) && RedBlack(t) && Ascending(Contents(t))
      modifies this`children, this`range, this`list, this`freeList, this`free
      ensures Rep(children, range, top, RbTree.DeleteHelper(t, r).0)
      ensures status == RbTree.DeleteHelper(t, r).1 && calls == DeleteCalls(t, r) && hops == DeleteHops(t, r)
      ensures Pool() && Rewired(old(children), children, Ids(t)) && Rewired(old(range), range, Ids(t))
      ensures Removed(list, all, lo, t, r, old(list), old(free), free)
      decreases t, 2
    {
      hide NoDup, Threaded, Slots, FreeChain, Slot, Handed, RemoveAt, Ascending, RedBlack, RbTree.DeleteBelow, RbTree.DeleteHelper,
        Apart, Removed, Find;
      RepAligned(children, range, Kid(children, node, Left), t.left);
      RepAligned(children, range, Kid(children, node, Right), t.right);
      if Kid(children, node, Left) == NIL || Kid(children, node, Right) == NIL {
        SegmentFits(all, lo, Ids(t));
        top, status := DeleteLeaf(node, t, all, lo);
        RemovedLeaf(list, all, lo, t, r, old(list), old(free), free);
        return top, status, 1, 0;
      }
      top, status, calls, hops := DeleteHeir(node, r, t, all, lo);
      calls := 1 + calls;
    }

    // A node with two children takes over the range of its heir, which is then deleted below.
    method DeleteHeir(node: Ref, r: Range, ghost t: Tree, ghost all: seq<Ref>, ghost lo: nat)
      returns (top: Ref, status: DeleteStatus, ghost calls: nat, ghost hops: nat)
      requires t.Node? && t.left.Node? && t.right.Node? && Compare(t.range, r) == 0
      requires InPlace(node, t, all, lo) && RedBlack(t) && Ascending(Contents(t))
      modifies this`children, this`range, this`list, this`freeList, this`free
      ensures Rep(children, range, top, RbTree.DeleteHelper(t, r).0)
      ensures status == RbTree.DeleteHelper(t, r).1
      ensures 1 + calls == DeleteCalls(t, r) && hops == DeleteHops(t, r)
      ensures Pool() && Rewired(old(children), children, Ids(t)) && Rewired(old(range), range, Ids(t))
      ensures Removed(list, all, lo, t, r, old(list), old(free), free)
      decreases t, 1
    {
      hide NoDup, Threaded, Slots, FreeChain, Slot, RemoveAt, Ascending, RbTree.DeleteBelow, RbTree.DeleteHelper, Apart, Handed, Rep, Removed, Segment;
      HeirPrecedes(node, t, all, lo);
      var temp;
      temp, hops := FindHeir(node, t);
      assert list[temp].right == node;
      range := range[node := range[temp]];
      var key := range[temp];
      ghost var rg1 := range;
      RepRange(children, old(range), node, t, key);
      ghost var t1 := t.(range := key);
      ghost var below;
      top, status, calls, below := DeleteBelow(node, Left, key, t1, all, lo);
      hops := hops + below;
      RemovedHeir(list, all, lo, t, r, old(list), old(free), free);
      RewiredTwice(old(range), rg1, range, node, Ids(t));
    }

    // On the list, the heir of a node stands just before it.
    lemma HeirPrecedes(node: Ref, t: Tree, all: seq<Ref>, lo: nat)
      requires t.Node? && t.left.Node? && InPlace(node, t, all, lo) && Ascending(Contents(t))
      ensures Rep(children, range, node, t) && node == t.id && node in range && node in Ids(t)
      ensures node !in Ids(t.left) && node !in Ids(t.right) && Ascending(Contents(t.left))
      ensures Rightmost(t.left).id in list && list[Rightmost(t.left).id].right == node
      ensures Rightmost(t.left).id != node && lo + |Ids(t)| <= |all|
    {
      hide Slots, FreeChain, Ascending, Slot, Handed, Segment, Threaded, NoDup;
      OrderedParts(t);
      DistinctParts(t);
      SegmentFits(all, lo, Ids(t));
      HeirOnList(list, all, lo, t);
    }

    // Delete below one child, then relink and, if the child became shorter, fix up.
    method DeleteBelow(node: Ref, d: Dir, key: Range, ghost t: Tree, ghost all: seq<Ref>, ghost lo: nat)
      returns (top: Ref, status: DeleteStatus, ghost calls: nat, ghost hops: nat)
      requires t.Node? && InPlace(node, t, all, lo) && RedBlack(t) && Ascending(Contents(t.Child(d)))
      modifies this`children, this`range, this`list, this`freeList, this`free
      ensures Rep(children, range, top, RbTree.DeleteBelow(t, d, RbTree.DeleteHelper(t.Child(d), key)).0)
      ensures status == RbTree.DeleteBelow(t, d, RbTree.DeleteHelper(t.Child(d), key)).1
      ensures calls == DeleteCalls(t.Child(d), key) && hops == DeleteHops(t.Child(d), key)
      ensures Pool() && Rewired(old(children), children, Ids(t)) && Rewired(old(range), range, Ids(t))
      ensures Removed(list, all, if d.Left? then lo else lo + |Ids(t.left)| + 1, t.Child(d), key,
                      old(list), old(free), free)
      decreases t.Child(d), 4
    {
      hide Rep, NoDup, Threaded, Slots, FreeChain, Segment, RemoveAt, Ids, SameOutside, Apart, Slot,
        PoolOf, InPlace, Handed, RbTree.DeleteHelper, RbTree.DeleteFixUp, Ascending, Find, VictimPos;
      StepDown(node, t, all, lo, d);
      ghost var lo' := if d.Left? then lo else lo + |Ids(t.left)| + 1;
      ghost var below := RbTree.DeleteHelper(t.Child(d), key);
      HelperSettles(t.Child(d), key);
      var child;
      child, status, calls, hops := DeleteHelper(Kid(children, node, d), key, t.Child(d), all, lo');
      ghost var ch1, rg1 := children, range;
      ShrunkStep(old(children), old(range), ch1, rg1, node, t, d, child, key, old(free), free);
      top, status := DeleteAbove(node, d, child, status, t, below);
      RewiredChain(old(children), ch1, children, Ids(t.Child(d)), Ids(t.SetChild(d, below.0)), Ids(t));
      RewiredWiden(old(range), range, Ids(t.Child(d)), Ids(t));
    }

    // After a step below: relink the child and, if it became shorter, fix up.
    method DeleteAbove(node: Ref, d: Dir, child: Ref, childStatus: DeleteStatus, ghost t: Tree, ghost below: (Tree, DeleteStatus))
      returns (top: Ref, status: DeleteStatus)
      requires t.Node? && RedBlack(t) && Relinkable(children, range, node, t, d, child, below.0) && childStatus == below.1
      requires Settled(BlackHeight(t.Child(d)), t.Child(d).IsRed(), below)
      requires Pool() && Apart(Ids(t.SetChild(d, below.0)), free)
      modifies this`children
      ensures Rep(children, range, top, RbTree.DeleteBelow(t, d, below).0) && status == RbTree.DeleteBelow(t, d, below).1
      ensures Pool() && Rewired(old(children), children, Ids(t.SetChild(d, below.0)))
    {
      hide Rep, NoDup, Slots, FreeChain, Ids, SameOutside, Apart, Slot, PoolOf, Handed, RbTree.DeleteFixUp, Settled, RedBlack;
      ghost var ch1 := children;
      ghost var linked := t.SetChild(d, below.0);
      Relink(node, d, child, t, below.0);
      ghost var ch2 := children;
      status := childStatus;
      if status == DeleteOk {
        top := node;
        RewiredWiden(ch1, ch2, [node], Ids(linked));
      } else {
        BelowShort(t, d, below);
        top, status := DeleteFixUp(node, d, linked, BlackHeight(t));
        RewiredTwice(ch1, ch2, children, node, Ids(linked));
      }
      PoolRewired(ch1, children, range, Handed(), freeList, free, Ids(linked));
    }

    method DeleteRoot(r: Range) returns (ghost calls: nat, ghost hops: nat)
      requires Valid()
      modifies this`root, this`children, this`range, this`list, this`freeList, this`free
      ensures Rep(children, range, root, RbTree.DeleteHelper(tree, r).0)
      ensures calls == DeleteCalls(tree, r) && hops == DeleteHops(tree, r)
      ensures Pool() && children.Keys == old(children.Keys)
      ensures Removed(list, Ids(tree), 0, tree, r, old(list), old(free), free)
    {
      hide NoDup, Threaded, Slots, FreeChain, Slot, Handed, Ascending, RedBlack, RbTree.DeleteHelper, Rep, Removed, InPlace, Conserved, SameOutside;
      WholeInPlace();
      var status;
      root, status, calls, hops := DeleteHelper(root, r, tree, Ids(tree), 0);
    }

    method Delete(r: Range) returns (ghost calls: nat, ghost hops: nat)
      requires Valid() && ValidRange(r)
      modifies this
      ensures Valid() && tree == RbTree.Delete(old(tree), r)
      ensures calls == DeleteCalls(old(tree), r) && Pow2(calls / 2) <= |old(Ids(tree))| + 1
      ensures hops == DeleteHops(old(tree), r) && Pow2((hops + 1) / 2) <= |old(Ids(tree))| + 1
      ensures pageCount == old(pageCount) && nodeCount == old(nodeCount)
      ensures r !in old(Contents(tree)) ==> tree == old(tree) && list == old(list) && free == old(free)
      ensures r in old(Contents(tree)) ==>
                && Find(old(tree), r).Some? && |old(Ids(tree))| == |old(Contents(tree))|
                && Contents(tree) == RemoveAt(old(Contents(tree)), Find(old(tree), r).value)
                && Ids(tree) == RemoveAt(old(Ids(tree)), VictimPos(old(tree), r))
                && free == [old(Ids(tree))[VictimPos(old(tree), r)]] + old(free)
    {
      hide NoDup, Threaded, Slots, FreeChain, Slot, Handed, RbTree.DeleteHelper, Rep, RemoveAt, Ids, Contents, Conserved, Find, VictimPos,
        InsertCalls, DeleteCalls, DeleteHops, Pow2;
      ghost var t := tree;
      ghost var t' := RbTree.DeleteHelper(t, r).0;
      DeleteCorrect(t, r);
      FindCorrect(t, r);
      BlackenKeepsOrder(t');
      if r in Contents(t) {
        ghost var v := VictimPos(t, r);
        RemoveNoDup(Ids(t), v);
        FreeConserves(children.Keys, Ids(t), v, free);
      } else {
        HelperAbsent(t, r);
      }
      CallsAreLogarithmic(t, r);
      calls, hops := DeleteRoot(r);
      BlackenRoot(t');
    }

    // ---------- initialisation and clearing ----------

    // `pageOk` says whether the first page could be had; without it the tree stays unusable.
    constructor (pageOk: bool)
      ensures pageOk ==> Valid() && tree == Nil && free == [] && Handed() == 0
      ensures !pageOk ==> pageCount == 0
    {
      range, list, children := map[], map[LIST := Pair(LIST, LIST)], map[];
      root, freeList := NIL, NULL;
      pageCount, nodeCount := if pageOk then 1 else 0, 0;
      tree, free := Nil, [];
      new;
      assert Ring([]) == [LIST, LIST];
    }

    method Clear()
      requires Valid()
      modifies this
      ensures Valid() && tree == Nil
      ensures free == FreedOrder(old(tree)) + old(free)
      ensures NoDup(free) && Handed() == old(Handed()) && forall p :: p in children ==> p in free
    {
      hide Slots, FreeChain, Slot, Rep, WellFormed, NoDup, Handed, Apart, Conserved, Ids, Threaded;
      ClearConserves(children.Keys, tree, free);
      NodeFree(root, true, tree);
      root := NIL;
      tree := Nil;
      list := list[LIST := Pair(LIST, LIST)];
      EmptyTree(children, range, list);
    }

    // ---------- queries ----------

    // The node with the greatest start strictly below the argument, or nil if there is none.
    method FindPrevByStart(start: Word) returns (best: Ref, ghost steps: nat)
      requires Valid()
      ensures steps == PrevSteps(tree, start) && Pow2((steps + 1) / 2) <= |Ids(tree)| + 1
      ensures best == NIL <==> forall x :: x in Contents(tree) ==> x.start >= start
      ensures best != NIL ==>
                exists k :: 0 <= k < |Ids(tree)| == |Contents(tree)| && best == Ids(tree)[k] &&
                            GreatestBelow(Contents(tree), k, start)
    {
      hide NoDup, Threaded, Pool, Conserved, Ascending, RedBlack, Window, GreatestBelow, LeastAbove, Ids, Contents, Pow2;
      var node := root;
      best, steps := NIL, 0;
      StepsAreLogarithmic(tree, start);
      ghost var s := tree;
      ghost var lo: nat := 0;
      WholeWindow(tree, start);
      RepIds(children, range, root, tree);
      while node != NIL
        invariant Rep(children, range, node, s)
        invariant Window(tree, s, lo, start)
        invariant best == NIL <==> lo == 0
        invariant lo > 0 ==> lo <= |Ids(tree)| && best == Ids(tree)[lo - 1]
        invariant steps + PrevSteps(s, start) == PrevSteps(tree, start)
        decreases s
      {
        steps := steps + 1;
        if range[node].start < start {
          best := node;
          node := Kid(children, node, Right);
          WindowRight(tree, s, lo, start);
          lo, s := lo + |Ids(s.left)| + 1, s.right;
        } else {
          node := Kid(children, node, Left);
          WindowLeft(tree, s, lo, start);
          s := s.left;
        }
      }
      RepAligned(children, range, node, s);
      WindowClosed(tree, lo, start);
    }

    // The node with the least start strictly above the argument, or nil if there is none.
    method FindNextByStart(start: Word) returns (best: Ref, ghost steps: nat)
      requires Valid()
      ensures steps == NextSteps(tree, start) && Pow2((steps + 1) / 2) <= |Ids(tree)| + 1
      ensures best == NIL <==> forall x :: x in Contents(tree) ==> x.start <= start
      ensures best != NIL ==>
                exists k :: 0 <= k < |Ids(tree)| == |Contents(tree)| && best == Ids(tree)[k] &&
                            LeastAbove(Contents(tree), k, start)
    {
      hide NoDup, Threaded, Pool, Conserved, Ascending, RedBlack, Window, GreatestBelow, LeastAbove, Ids, Contents, Pow2;
      var node := root;
      best, steps := NIL, 0;
      StepsAreLogarithmic(tree, start);
      ghost var s := tree;
      ghost var lo: nat := 0;
      ghost var hi: nat := |Ids(tree)|;
      WholeWindow(tree, start + 1);
      RepIds(children, range, root, tree);
      while node != NIL
        invariant Rep(children, range, node, s)
        invariant Window(tree, s, lo, start + 1) && hi == lo + |Ids(s)| <= |Ids(tree)|
        invariant best == NIL <==> hi == |Ids(tree)|
        invariant hi < |Ids(tree)| ==> best == Ids(tree)[hi]
        invariant steps + NextSteps(s, start) == NextSteps(tree, start)
        decreases s
      {
        steps := steps + 1;
        if range[node].start > start {
          best := node;
          node := Kid(children, node, Left);
          WindowLeft(tree, s, lo, start + 1);
          hi, s := lo + |Ids(s.left)|, s.left;
        } else {
          node := Kid(children, node, Right);
          WindowRight(tree, s, lo, start + 1);
          lo, s := lo + |Ids(s.left)| + 1, s.right;
        }
      }
      RepAligned(children, range, node, s);
      EmptyIds();
      WindowClosed(tree, lo, start + 1);
    }

    // Read from the sentinel, the list is the tree in order, in both directions, with ascending ranges.
    lemma ListIsInOrder(i: nat)
      requires Valid() && i < |Ids(tree)|
      ensures LIST in list && list[LIST].left in list && list[LIST].right in list
      ensures list[LIST].right == Ids(tree)[0] && list[LIST].left == Ids(tree)[|Ids(tree)| - 1]
      ensures Ids(tree)[i] in list && IsNodeRef(Ids(tree)[i])
      ensures list[Ids(tree)[i]].left == if i == 0 then LIST else Ids(tree)[i - 1]
      ensures list[Ids(tree)[i]].right == if i + 1 == |Ids(tree)| then LIST else Ids(tree)[i + 1]
      ensures i > 0 ==> Ids(tree)[i - 1] in range && Ids(tree)[i] in range && Compare(range[Ids(tree)[i - 1]], range[Ids(tree)[i]]) < 0
    {
      hide NoDup, Pool, Conserved, RedBlack, Threaded, Ids, Contents, Ascending, Rep;
      var ids := Ids(tree);
      RepIds(children, range, root, tree);
      RingEnds(list, ids);
      RingStep(list, ids, 0);
      RingStep(list, ids, i);
      RingStep(list, ids, i + 1);
      RingStep(list, ids, |ids|);
      NodeAt(children, range, root, tree, i);
    }

    // The validation of the list: the conjunction of its assertions, which always holds.
    method ListValidate() returns (ok: bool)
      requires Valid()
      ensures ok
    {
      hide NoDup, Pool, Conserved, RedBlack, Threaded, Ring, Ids, Contents, Ascending, Rep;
      ghost var ids := Ids(tree);
      RepIds(children, range, root, tree);
      RingEnds(list, ids);
      ok := list[list[LIST].left].right == LIST && list[list[LIST].right].left == LIST;
      ok := ok && list[LIST].left != NULL && list[LIST].right != NULL;
      var previous, node := LIST, list[LIST].right;
      ghost var i: nat := 0;
      while node != LIST
        invariant i <= |ids| && previous == Ring(ids)[i] && node == Ring(ids)[i + 1]
        invariant ok
        decreases |ids| - i
      {
        RingStep(list, ids, i);
        NodeAt(children, range, root, tree, i);
        ok := ok && node % 2 == 0 && node != NIL && list[node].left == previous && list[node].right != NULL;
        if previous != LIST {
          ok := ok && Compare(range[previous], range[node]) < 0;
        }
        previous, node, i := node, list[node].right, i + 1;
      }
      RingStep(list, ids, i);
      ok := ok && previous == list[LIST].left;
    }
  }
}
