/**
  The memory of the range tree: node records addressed by pointer, the colour bit in the left child
  word, the threaded list, the page-backed slots and the free list, with the frame lemmas that the
  pointer code in RbHeap rests on.
 */
module RbMemory {
  import opened Options
  import opened Ranges
  import opened Sequences
  import opened RbTree
  import opened RbInsert
  import opened RbDelete

  const NULL: Ref := 0
  const NIL: Ref := 64     // the address of the shared nil node
  const LIST: Ref := 128   // the address of the list sentinel inside the tree header

  const PAGE_SIZE := 4096
  const NODES_HEADER := 32
  const NODE_SIZE := 48
  const NODES_MAX := 84    // as many as fit behind the header of a page

  // The address of the n-th slot ever handed out; pages are filled one after the other.
  function Slot(n: nat): (p: Ref) {
    PAGE_SIZE * (n / NODES_MAX + 1) + NODES_HEADER + NODE_SIZE * (n % NODES_MAX)
  }

  // A node pointer: untagged, and neither NULL, nil nor the sentinel.
  predicate IsNodeRef(p: Ref) {
    p % 8 == 0 && p > LIST
  }

  lemma SlotFits(n: nat)
    ensures NODES_MAX == (PAGE_SIZE - NODES_HEADER) / NODE_SIZE
    ensures IsNodeRef(Slot(n))
    ensures Slot(n) % PAGE_SIZE + NODE_SIZE <= PAGE_SIZE
  {
    SlotPlace(n / NODES_MAX, n % NODES_MAX);
  }

  lemma SlotPlace(q: nat, i: nat)
    requires i < NODES_MAX
    ensures var p := PAGE_SIZE * (q + 1) + NODES_HEADER + NODE_SIZE * i;
            IsNodeRef(p) && p % PAGE_SIZE + NODE_SIZE <= PAGE_SIZE
  {
    var o := NODES_HEADER + NODE_SIZE * i;
    assert o + NODE_SIZE <= PAGE_SIZE;
    PageOffset(q + 1, o);
    Multiple(512 * (q + 1) + 4 + 6 * i);
  }

  lemma Multiple(k: nat)
    ensures 8 * k % 8 == 0
  {
  }

  lemma PageOffset(q: nat, o: nat)
    requires o < PAGE_SIZE
    ensures (PAGE_SIZE * q + o) / PAGE_SIZE == q
    ensures (PAGE_SIZE * q + o) % PAGE_SIZE == o
  {
  }

  lemma SlotInjective(m: nat, n: nat)
    requires Slot(m) == Slot(n)
    ensures m == n
  {
    PageOffset(m / NODES_MAX + 1, NODES_HEADER + NODE_SIZE * (m % NODES_MAX));
    PageOffset(n / NODES_MAX + 1, NODES_HEADER + NODE_SIZE * (n % NODES_MAX));
  }

  lemma SlotOfPage(q: nat, i: nat)
    requires i < NODES_MAX
    ensures Slot(q * NODES_MAX + i) == PAGE_SIZE * (q + 1) + NODES_HEADER + NODE_SIZE * i
  {
    var n := q * NODES_MAX + i;
    assert n / NODES_MAX == q && n % NODES_MAX == i;
  }

  // The slots handed out when `h` have been.
  ghost function Slots(h: nat): set<Ref> {
    set n | 0 <= n < h :: Slot(n)
  }

  lemma OneMoreSlot(h: nat)
    ensures Slots(h + 1) == Slots(h) + {Slot(h)}
    ensures Slot(h) !in Slots(h)
  {
    forall n | 0 <= n < h ensures Slot(n) != Slot(h) {
      if Slot(n) == Slot(h) {
        SlotInjective(n, h);
      }
    }
    assert forall n :: 0 <= n < h + 1 ==> n < h || Slot(n) == Slot(h);
  }

  // ---------- records ----------

  // A two-element array indexed by direction.
  datatype Pair = Pair(left: Ref, right: Ref) {
    function Get(d: Dir): Ref { if d.Left? then left else right }
    function Set(d: Dir, x: Ref): Pair { if d.Left? then this.(left := x) else this.(right := x) }
  }

  type Links = map<Ref, Pair>

  type RangeOf = map<Ref, Range>

  function Bit(c: Color): nat { if c == Red then 1 else 0 }

  function Untag(w: Ref): Ref { w - w % 2 }

  function ColorAt(ch: Links, p: Ref): Color
    requires p in ch
  {
    if ch[p].left % 2 == 1 then Red else Black
  }

  // The child pointer, with the colour bit masked out of the left word.
  function Kid(ch: Links, p: Ref, d: Dir): Ref
    requires p in ch
  {
    if d.Left? then Untag(ch[p].left) else ch[p].right
  }

  // Nil counts as black.
  predicate RedAt(ch: Links, p: Ref)
    requires p == NIL || p in ch
  {
    p != NIL && ColorAt(ch, p) == Red
  }

  // Store a colour, keeping the pointer it shares a word with.
  function Tint(ch: Links, p: Ref, c: Color): (r: Links)
    requires p in ch
  {
    ch[p := ch[p].(left := Untag(ch[p].left) + Bit(c))]
  }

  // Store a child pointer, keeping the colour bit.
  function Put(ch: Links, p: Ref, d: Dir, child: Ref): (r: Links)
    requires p in ch
  {
    if d.Left? then ch[p := ch[p].(left := child + Bit(ColorAt(ch, p)))]
    else ch[p := ch[p].(right := child)]
  }

  // The tagged word keeps pointer and colour apart: each store is read back, and leaves the other
  // field and the other child alone.
  lemma TaggedWord(ch: Links, p: Ref, d: Dir, child: Ref, c: Color)
    requires p in ch && child % 8 == 0
    ensures Kid(Put(ch, p, d, child), p, d) == child
    ensures Kid(Put(ch, p, d, child), p, d.Flip()) == Kid(ch, p, d.Flip())
    ensures ColorAt(Put(ch, p, d, child), p) == ColorAt(ch, p)
    ensures ColorAt(Tint(ch, p, c), p) == c
    ensures Kid(Tint(ch, p, c), p, d) == Kid(ch, p, d)
  {
    hide Untag;
    EvenWord(child);
    TagWord(child, ColorAt(ch, p));
    UntagEven(ch[p].left);
    TagWord(Untag(ch[p].left), c);
  }

  lemma Doubled(k: nat)
    ensures 2 * k % 2 == 0
  {
  }

  lemma EvenWord(w: Ref)
    requires w % 8 == 0
    ensures w % 2 == 0
  {
    Doubled(4 * (w / 8));
  }

  lemma UntagEven(w: Ref)
    ensures Untag(w) % 2 == 0
  {
  }

  lemma TagWord(w: Ref, c: Color)
    requires w % 2 == 0
    ensures Untag(w + Bit(c)) == w && (w + Bit(c)) % 2 == Bit(c)
  {
  }

  // ---------- the pointer structure denotes a tree ----------

  ghost predicate Rep(ch: Links, rg: RangeOf, p: Ref, t: Tree)
    decreases t
  {
    match t
    case Nil => p == NIL
    case Node(id, c, range, l, r) =>
      && p == id && IsNodeRef(p)
      && p in rg && rg[p] == range
      && p in ch && ColorAt(ch, p) == c
      && Rep(ch, rg, Kid(ch, p, Left), l)
      && Rep(ch, rg, Kid(ch, p, Right), r)
  }

  ghost predicate Apart<T>(a: seq<T>, b: seq<T>) {
    forall x :: x in a ==> x !in b
  }

  // `s` stands in `all` from position `lo` on.
  ghost predicate Segment<T>(all: seq<T>, lo: nat, s: seq<T>) {
    lo + |s| <= |all| && all[lo..lo + |s|] == s
  }

  lemma SegmentFits<T>(all: seq<T>, lo: nat, s: seq<T>)
    requires Segment(all, lo, s)
    ensures lo + |s| <= |all|
  {
  }

  lemma SegmentParts<T>(all: seq<T>, lo: nat, a: seq<T>, m: T, b: seq<T>)
    requires Segment(all, lo, a + [m] + b)
    ensures Segment(all, lo, a) && all[lo + |a|] == m && Segment(all, lo + |a| + 1, b)
  {
    var s := a + [m] + b;
    var part := all[lo..lo + |s|];
    assert part[..|a|] == a && part[|a|] == m && part[|a| + 1..] == b;
    assert all[lo..lo + |a|] == part[..|a|];
    assert all[lo + |a| + 1..lo + |a| + 1 + |b|] == part[|a| + 1..];
  }

  lemma SegmentSubset<T>(all: seq<T>, lo: nat, s: seq<T>)
    requires Segment(all, lo, s)
    ensures forall x :: x in s ==> x in all
  {
    forall x | x in all[lo..lo + |s|] ensures x in all {
    }
  }

  lemma SegmentApart<T>(all: seq<T>, lo: nat, s: seq<T>, free: seq<T>)
    requires Segment(all, lo, s) && Apart(all, free)
    ensures Apart(s, free)
  {
    SegmentSubset(all, lo, s);
  }

  lemma StillApart<T>(all: seq<T>, lo: nat, s: seq<T>, free: seq<T>, x: T)
    requires Segment(all, lo, s) && Apart(all, free) && x !in all
    ensures Apart(s, free) && x !in s
  {
    SegmentSubset(all, lo, s);
  }

  lemma NoDupSplit<T>(a: seq<T>, m: T, b: seq<T>)
    requires NoDup(a + [m] + b)
    ensures NoDup(a) && NoDup(b) && m !in a && m !in b
    ensures forall x :: x in a ==> x !in b
  {
    var s := a + [m] + b;
    assert s[|a|] == m;
    assert forall i :: 0 <= i < |a| ==> s[i] == a[i];
    assert forall j :: 0 <= j < |b| ==> s[|a| + 1 + j] == b[j];
  }

  lemma DistinctParts(t: Tree)
    requires t.Node? && NoDup(Ids(t))
    ensures NoDup(Ids(t.left)) && NoDup(Ids(t.right))
    ensures t.id !in Ids(t.left) && t.id !in Ids(t.right)
    ensures forall x :: x in Ids(t.left) ==> x !in Ids(t.right)
    ensures forall x :: x in Ids(t) <==> x == t.id || x in Ids(t.left) || x in Ids(t.right)
  {
    NoDupSplit(Ids(t.left), t.id, Ids(t.right));
  }

  // Two memories agree everywhere outside a set of addresses.
  ghost predicate SameOutside<V>(m: map<Ref, V>, m': map<Ref, V>, ids: seq<Ref>) {
    && (forall p :: p in m && p !in ids ==> p in m' && m'[p] == m[p])
    && (forall p :: p in m' && p !in ids ==> p in m)
  }

  // The same slots, with changes confined to a set of addresses.
  ghost predicate Rewired<V>(m: map<Ref, V>, m': map<Ref, V>, ids: seq<Ref>) {
    m.Keys == m'.Keys && SameOutside(m, m', ids)
  }

  lemma RewiredTwice<V>(m: map<Ref, V>, m1: map<Ref, V>, m2: map<Ref, V>, node: Ref, ids: seq<Ref>)
    requires Rewired(m, m1, [node]) && Rewired(m1, m2, ids) && node in ids
    ensures Rewired(m, m2, ids)
  {
  }

  lemma RewiredBoth<V>(m: map<Ref, V>, m1: map<Ref, V>, m2: map<Ref, V>, a: seq<Ref>, b: seq<Ref>)
    requires Rewired(m, m1, a) && Rewired(m1, m2, b)
    ensures Rewired(m, m2, a + b) && m2.Keys == m.Keys
  {
  }

  lemma RewiredLeaf<V>(m: map<Ref, V>, m1: map<Ref, V>, m2: map<Ref, V>, node: Ref, rest: seq<Ref>, ids: seq<Ref>)
    requires Rewired(m, m1, rest) && Rewired(m1, m2, [node])
    requires node in ids && forall p :: p in rest ==> p in ids
    ensures Rewired(m, m2, ids)
  {
  }

  lemma RewiredChain<V>(m: map<Ref, V>, m1: map<Ref, V>, m2: map<Ref, V>, a: seq<Ref>, b: seq<Ref>, ids: seq<Ref>)
    requires Rewired(m, m1, a) && Rewired(m1, m2, b)
    requires (forall p :: p in a ==> p in ids) && (forall p :: p in b ==> p in ids)
    ensures Rewired(m, m2, ids)
  {
  }

  lemma RewiredWiden<V>(m: map<Ref, V>, m1: map<Ref, V>, a: seq<Ref>, ids: seq<Ref>)
    requires Rewired(m, m1, a) && forall p :: p in a ==> p in ids
    ensures Rewired(m, m1, ids)
  {
  }

  lemma OutsideTwice<V>(m: map<Ref, V>, m1: map<Ref, V>, m2: map<Ref, V>, a: seq<Ref>, b: seq<Ref>, c: seq<Ref>)
    requires SameOutside(m, m1, a) && SameOutside(m1, m2, b)
    requires (forall p :: p in a ==> p in c) && (forall p :: p in b ==> p in c)
    ensures SameOutside(m, m2, c)
  {
  }

  ghost predicate SameOn<V>(m: map<Ref, V>, m': map<Ref, V>, ids: seq<Ref>) {
    forall p :: p in ids && p in m ==> p in m' && m'[p] == m[p]
  }

  lemma {:induction false} RepFrame(ch: Links, rg: RangeOf, ch': Links, rg': RangeOf, p: Ref, t: Tree)
    requires Rep(ch, rg, p, t)
    requires SameOn(ch, ch', Ids(t)) && SameOn(rg, rg', Ids(t))
    ensures Rep(ch', rg', p, t)
    decreases t
  {
    if t.Node? {
      assert forall x :: x in Ids(t) <==> x == t.id || x in Ids(t.left) || x in Ids(t.right);
      RepFrame(ch, rg, ch', rg', Kid(ch, p, Left), t.left);
      RepFrame(ch, rg, ch', rg', Kid(ch, p, Right), t.right);
    }
  }

  lemma {:induction false} RepIds(ch: Links, rg: RangeOf, p: Ref, t: Tree)
    requires Rep(ch, rg, p, t)
    ensures forall x :: x in Ids(t) ==> IsNodeRef(x) && x in ch && x in rg
    decreases t
  {
    if t.Node? {
      RepIds(ch, rg, Kid(ch, p, Left), t.left);
      RepIds(ch, rg, Kid(ch, p, Right), t.right);
    }
  }

  // A store into a node outside a tree does not disturb the tree.
  lemma RepElsewhere(ch: Links, rg: RangeOf, ch': Links, p: Ref, t: Tree, q: Ref)
    requires Rep(ch, rg, p, t) && q !in Ids(t) && SameOutside(ch, ch', [q])
    ensures Rep(ch', rg, p, t)
  {
    RepFrame(ch, rg, ch', rg, p, t);
  }

  // Storing a child whose tree is already in place.
  lemma RepPut(ch: Links, rg: RangeOf, p: Ref, t: Tree, d: Dir, c: Ref, tc: Tree)
    requires t.Node? && p == t.id && IsNodeRef(p) && p in rg && rg[p] == t.range && p in ch
    requires ColorAt(ch, p) == t.color
    requires Rep(ch, rg, Kid(ch, p, d.Flip()), t.Child(d.Flip())) && Rep(ch, rg, c, tc)
    requires p !in Ids(t.Child(d.Flip())) && p !in Ids(tc)
    ensures Rep(Put(ch, p, d, c), rg, p, t.SetChild(d, tc))
  {
    var ch' := Put(ch, p, d, c);
    assert c % 8 == 0 by {
      if tc.Node? { assert IsNodeRef(c); }
    }
    TaggedWord(ch, p, d, c, Red);
    RepElsewhere(ch, rg, ch', Kid(ch, p, d.Flip()), t.Child(d.Flip()), p);
    RepElsewhere(ch, rg, ch', c, tc, p);
  }

  lemma RepTint(ch: Links, rg: RangeOf, p: Ref, t: Tree, c: Color)
    requires t.Node? && Rep(ch, rg, p, t) && p !in Ids(t.left) && p !in Ids(t.right)
    ensures Rep(Tint(ch, p, c), rg, p, t.SetColor(c))
  {
    var ch' := Tint(ch, p, c);
    TaggedWord(ch, p, Left, NIL, c);
    TaggedWord(ch, p, Right, NIL, c);
    RepElsewhere(ch, rg, ch', Kid(ch, p, Left), t.left, p);
    RepElsewhere(ch, rg, ch', Kid(ch, p, Right), t.right, p);
  }

  // Storing a range.
  lemma RepRange(ch: Links, rg: RangeOf, p: Ref, t: Tree, r: Range)
    requires t.Node? && Rep(ch, rg, p, t) && p !in Ids(t.left) && p !in Ids(t.right)
    ensures Rep(ch, rg[p := r], p, t.(range := r))
  {
    RepFrame(ch, rg, ch, rg[p := r], Kid(ch, p, Left), t.left);
    RepFrame(ch, rg, ch, rg[p := r], Kid(ch, p, Right), t.right);
  }

  // Recolouring a child in place.
  lemma RepTintChild(ch: Links, rg: RangeOf, p: Ref, t: Tree, d: Dir, c: Color)
    requires t.Node? && t.Child(d).Node? && Rep(ch, rg, p, t) && NoDup(Ids(t))
    ensures Kid(ch, p, d) in ch
    ensures Rep(Tint(ch, Kid(ch, p, d), c), rg, p, t.SetChild(d, t.Child(d).SetColor(c)))
  {
    var s := t.Child(d);
    DistinctParts(t);
    DistinctParts(s);
    var q := Kid(ch, p, d);
    assert q in Ids(t.Child(d));
    var ch' := Tint(ch, q, c);
    RepTint(ch, rg, q, s, c);
    RepElsewhere(ch, rg, ch', Kid(ch, p, d.Flip()), t.Child(d.Flip()), q);
  }

  // A node whose child in direction `d` is about to be replaced by a subtree already in place.
  ghost predicate Relinkable(ch: Links, rg: RangeOf, node: Ref, t: Tree, d: Dir, child: Ref, tc: Tree) {
    && t.Node? && node == t.id && IsNodeRef(node)
    && node in rg && rg[node] == t.range
    && node in ch && ColorAt(ch, node) == t.color
    && Rep(ch, rg, Kid(ch, node, d.Flip()), t.Child(d.Flip()))
    && Rep(ch, rg, child, tc)
    && NoDup(Ids(t.SetChild(d, tc)))
  }

  // ---------- the threaded list ----------

  // The list as it is met on a walk around the sentinel.
  ghost function Ring(all: seq<Ref>): seq<Ref> {
    [LIST] + all + [LIST]
  }

  // Right links lead along the ring, left links lead back.
  ghost predicate Threaded(list: Links, all: seq<Ref>) {
    var ring := Ring(all);
    && NoDup(all) && LIST !in all
    && (forall i :: 0 <= i < |ring| ==> ring[i] in list)
    && (forall i, j :: 0 <= i < j < |ring| && j == i + 1 ==>
          list[ring[i]].right == ring[j] && list[ring[j]].left == ring[i])
  }

  // The right neighbour of the last node of a segment is the node behind it.
  lemma NextOnList(list: Links, all: seq<Ref>, lo: nat, a: seq<Ref>, m: Ref, b: seq<Ref>)
    requires Threaded(list, all) && Segment(all, lo, a + [m] + b) && a != []
    ensures a[|a| - 1] in list && list[a[|a| - 1]].right == m
  {
    SegmentParts(all, lo, a, m, b);
    var n := lo + |a|;
    assert all[lo..lo + |a|][|a| - 1] == all[n - 1];
    assert Ring(all)[n] == all[n - 1] && Ring(all)[n + 1] == all[n];
  }

  // Links of nodes that are not on the list do not matter.
  lemma ThreadedFrame(list: Links, list': Links, all: seq<Ref>, node: Ref)
    requires Threaded(list, all) && node !in all && node != LIST && SameOutside(list, list', [node])
    ensures Threaded(list', all)
  {
    var ring := Ring(all);
    assert forall i :: 0 <= i < |ring| ==> ring[i] != node;
  }

  // Splice a node in next to an anchor, in four stores.
  function Splice(list: Links, node: Ref, anchor: Ref, d: Dir): (r: Links)
    requires anchor in list && list[anchor].Get(d) in list && node != anchor && node != list[anchor].Get(d)
  {
    var far := list[anchor].Get(d);
    var l1 := list[node := Pair(NULL, NULL).Set(d, far).Set(d.Flip(), anchor)];
    var l2 := l1[anchor := l1[anchor].Set(d, node)];
    l2[far := l2[far].Set(d.Flip(), node)]
  }

  // Where the anchor of a subtree stands: just right of it for a left splice, just left of it for
  // a right splice.
  ghost predicate AnchorFor(all: seq<Ref>, lo: nat, n: nat, anchor: Ref, d: Dir) {
    && lo + n <= |all|
    && anchor == (if d.Left? then Ring(all)[lo + n + 1] else Ring(all)[lo])
  }

  // A child stands next to its parent.
  lemma AnchorBelow(all: seq<Ref>, lo: nat, t: Tree, d: Dir)
    requires t.Node? && Segment(all, lo, Ids(t))
    ensures var lo' := if d.Left? then lo else lo + |Ids(t.left)| + 1;
            Segment(all, lo', Ids(t.Child(d))) && AnchorFor(all, lo', |Ids(t.Child(d))|, t.id, d)
  {
    hide Segment, AnchorFor;
    AnchorParts(all, lo, Ids(t.left), t.id, Ids(t.right));
  }

  lemma AnchorParts(all: seq<Ref>, lo: nat, a: seq<Ref>, m: Ref, b: seq<Ref>)
    requires Segment(all, lo, a + [m] + b)
    ensures Segment(all, lo, a) && Segment(all, lo + |a| + 1, b)
    ensures AnchorFor(all, lo, |a|, m, Left) && AnchorFor(all, lo + |a| + 1, |b|, m, Right)
  {
    hide Segment, Ring;
    SegmentParts(all, lo, a, m, b);
    SegmentFits(all, lo, a);
    SegmentFits(all, lo + |a| + 1, b);
    RingAt(all, lo + |a|);
  }

  lemma RingAt(all: seq<Ref>, i: nat)
    requires i < |all|
    ensures |Ring(all)| == |all| + 2 && Ring(all)[i + 1] == all[i]
  {
  }

  lemma SpliceThreads(list: Links, all: seq<Ref>, k: nat, node: Ref, anchor: Ref, d: Dir)
    requires Threaded(list, all) && k <= |all| && node !in all && node != LIST
    requires AnchorFor(all, k, 0, anchor, d)
    ensures anchor in list && list[anchor].Get(d) in list
    ensures list[anchor].Get(d) == (if d.Left? then Ring(all)[k] else Ring(all)[k + 1])
    ensures node != anchor && node != list[anchor].Get(d)
    ensures Threaded(Splice(list, node, anchor, d), InsertAt(all, k, node))
  {
    hide NoDup, Splice, Ring, InsertAt;
    Neighbours(list, all, k);
    var (a, b) := (Ring(all)[k], Ring(all)[k + 1]);
    RingMembers(all, k, node);
    var list' := Splice(list, node, anchor, d);
    SpliceLinks(list, a, b, node, anchor, d);
    InsertNoDup(all, k, node);
    var ring' := Ring(InsertAt(all, k, node));
    RingLength(InsertAt(all, k, node));
    InsertLength(all, k, node);
    forall i: nat | i + 1 < |ring'| ensures Joined(list', ring', i) {
      SplicedPair(list, list', all, k, node, i);
    }
    JoinedIsThreaded(list', InsertAt(all, k, node));
  }

  // Positions `i` and `i + 1` of a ring are linked with each other.
  ghost predicate Joined(list: Links, ring: seq<Ref>, i: nat)
    requires i + 1 < |ring|
  {
    && ring[i] in list && ring[i + 1] in list
    && list[ring[i]].right == ring[i + 1] && list[ring[i + 1]].left == ring[i]
  }

  lemma JoinedIsThreaded(list: Links, all: seq<Ref>)
    requires NoDup(all) && LIST !in all && forall i: nat :: i + 1 < |Ring(all)| ==> Joined(list, Ring(all), i)
    ensures Threaded(list, all)
  {
    hide NoDup;
    var ring := Ring(all);
    forall i | 0 <= i < |ring| ensures ring[i] in list {
      assert Joined(list, ring, if i == 0 then 0 else i - 1);
    }
    forall i, j | 0 <= i < j < |ring| && j == i + 1
      ensures list[ring[i]].right == ring[j] && list[ring[j]].left == ring[i]
    {
      assert Joined(list, ring, i);
    }
  }

  lemma RingLength(all: seq<Ref>)
    ensures |Ring(all)| == |all| + 2
  {
  }

  lemma InsertLength<T>(s: seq<T>, k: nat, x: T)
    requires k <= |s|
    ensures |InsertAt(s, k, x)| == |s| + 1
  {
  }

  lemma Neighbours(list: Links, all: seq<Ref>, i: nat)
    requires Threaded(list, all) && i <= |all|
    ensures NoDup(all) && LIST !in all && |Ring(all)| == |all| + 2 && Joined(list, Ring(all), i)
  {
    hide NoDup;
  }

  lemma RingMembers(all: seq<Ref>, k: nat, node: Ref)
    requires k <= |all| && node !in all && node != LIST
    ensures |Ring(all)| == |all| + 2 && Ring(all)[k] != node && Ring(all)[k + 1] != node
  {
  }

  // What a splice between `a` and `b` does to the links.
  lemma SpliceLinks(list: Links, a: Ref, b: Ref, node: Ref, anchor: Ref, d: Dir)
    requires a in list && b in list && list[a].right == b && list[b].left == a && node != a && node != b
    requires anchor == (if d.Left? then b else a)
    ensures SplicedBetween(list, Splice(list, node, anchor, d), a, b, node)
  {
  }

  ghost predicate SplicedBetween(list: Links, list': Links, a: Ref, b: Ref, node: Ref) {
    && a in list' && b in list' && node in list'
    && list'[a].right == node && list'[node] == Pair(a, b) && list'[b].left == node
    && forall p :: p in list && p != node ==>
         p in list' && (p != a ==> list'[p].right == list[p].right) && (p != b ==> list'[p].left == list[p].left)
  }

  lemma SplicedPair(list: Links, list': Links, all: seq<Ref>, k: nat, node: Ref, i: nat)
    requires Threaded(list, all) && k <= |all| && node !in all && node != LIST && i <= |all| + 1
    requires |Ring(all)| == |all| + 2 && SplicedBetween(list, list', Ring(all)[k], Ring(all)[k + 1], node)
    ensures |Ring(InsertAt(all, k, node))| == |all| + 3 && Joined(list', Ring(InsertAt(all, k, node)), i)
  {
    hide NoDup, Threaded;
    var (ring, ring') := (Ring(all), Ring(InsertAt(all, k, node)));
    assert ring' == ring[..k + 1] + [node] + ring[k + 1..];
    if i != k && i != k + 1 {
      var o := if i < k then i else i - 1;
      Neighbours(list, all, o);
      RingRight(all, o, k);
      RingLeft(all, o + 1, k + 1);
      RingMembers(all, o, node);
    }
  }

  // Positions that hold the same node on the ring are the same, up to the two ends.
  lemma RingRight(all: seq<Ref>, i: nat, k: nat)
    requires NoDup(all) && LIST !in all && i <= |all| && k <= |all| && i != k
    ensures Ring(all)[i] != Ring(all)[k]
  {
  }

  lemma RingLeft(all: seq<Ref>, i: nat, k: nat)
    requires NoDup(all) && LIST !in all && 1 <= i <= |all| + 1 && 1 <= k <= |all| + 1 && i != k
    ensures Ring(all)[i] != Ring(all)[k]
  {
  }

  lemma InsertNoDup<T>(s: seq<T>, k: nat, x: T)
    requires NoDup(s) && x !in s && k <= |s|
    ensures NoDup(InsertAt(s, k, x))
    ensures forall y :: y in InsertAt(s, k, x) <==> y == x || y in s
  {
    var r := InsertAt(s, k, x);
    assert forall i :: 0 <= i < |r| ==> r[i] == (if i < k then s[i] else if i == k then x else s[i - 1]);
    forall y | y in s ensures y in r {
      var i :| 0 <= i < |s| && s[i] == y;
      assert r[if i < k then i else i + 1] == y;
    }
    assert r[k] == x;
  }

  lemma RemoveNoDup<T>(s: seq<T>, k: nat)
    requires NoDup(s) && k < |s|
    ensures NoDup(RemoveAt(s, k))
    ensures forall y :: y in RemoveAt(s, k) <==> y != s[k] && y in s
  {
    var r := RemoveAt(s, k);
    assert forall i :: 0 <= i < |r| ==> r[i] == s[if i < k then i else i + 1];
    forall y | y in s && y != s[k] ensures y in r {
      var i :| 0 <= i < |s| && s[i] == y;
      assert r[if i < k then i else i - 1] == y;
    }
  }

  // Take a node out, in two stores.
  function Unlink(list: Links, node: Ref): (r: Links)
    requires node in list && list[node].left in list && list[node].right in list
  {
    var (a, b) := (list[node].left, list[node].right);
    var l1 := list[a := list[a].(right := b)];
    l1[b := l1[b].(left := a)]
  }

  lemma UnlinkThreads(list: Links, all: seq<Ref>, k: nat)
    requires Threaded(list, all) && k < |all|
    ensures all[k] in list && list[all[k]].left in list && list[all[k]].right in list
    ensures Threaded(Unlink(list, all[k]), RemoveAt(all, k))
  {
    hide NoDup;
    var ring := Ring(all);
    var node := all[k];
    assert ring[k + 1] == node;
    var (a, b) := (ring[k], ring[k + 2]);
    assert list[a].right == node && list[node].left == a;
    assert list[node].right == b && list[b].left == node;
    var all' := RemoveAt(all, k);
    var ring' := Ring(all');
    var list' := Unlink(list, node);
    RemoveNoDup(all, k);
    assert ring' == ring[..k + 1] + ring[k + 2..];
    forall i, j | 0 <= i < j < |ring'| && j == i + 1
      ensures ring'[i] in list' && ring'[j] in list'
      ensures list'[ring'[i]].right == ring'[j] && list'[ring'[j]].left == ring'[i]
    {
      if i == k {
        assert ring'[i] == a && ring'[j] == b;
      } else {
        var o := if i < k then i else i + 1;
        assert ring'[i] == ring[o] && ring'[j] == ring[o + 1];
        RingRight(all, o, k);
        RingLeft(all, o + 1, k + 2);
      }
    }
    assert forall i :: 0 <= i < |ring'| ==> ring'[i] in list';
  }

  // ---------- the free list ----------

  // The chain of free slots, linked through the right child word.
  ghost predicate FreeChain(ch: Links, head: Ref, free: seq<Ref>)
    decreases |free|
  {
    if free == [] then head == NULL
    else head == free[0] && head in ch && IsNodeRef(head) && FreeChain(ch, ch[head].right, free[1..])
  }

  // Unlinking the node in the middle of a segment.
  lemma SegmentUnlinks(list: Links, all: seq<Ref>, lo: nat, a: seq<Ref>, m: Ref, b: seq<Ref>)
    requires Threaded(list, all) && Segment(all, lo, a + [m] + b)
    ensures m in all && m in list && list[m].left in list && list[m].right in list
    ensures lo + |a| < |all| && Threaded(Unlink(list, m), RemoveAt(all, lo + |a|))
  {
    hide Threaded, RemoveAt, Unlink, Segment;
    SegmentFits(all, lo, a + [m] + b);
    SegmentParts(all, lo, a, m, b);
    UnlinkThreads(list, all, lo + |a|);
  }

  lemma FreeListEnds(ch: Links, head: Ref, free: seq<Ref>)
    requires FreeChain(ch, head, free)
    ensures head == NULL <==> free == []
  {
  }

  lemma {:induction false} FreeFrame(ch: Links, ch': Links, head: Ref, free: seq<Ref>)
    requires FreeChain(ch, head, free) && SameOn(ch, ch', free)
    ensures FreeChain(ch', head, free)
    decreases |free|
  {
    if free != [] {
      FreeFrame(ch, ch', ch[head].right, free[1..]);
    }
  }

  // The pool: the memory holds exactly the slots handed out, and the free list is a chain of some
  // of them without repetition.
  ghost predicate PoolOf(ch: Links, rg: RangeOf, handed: nat, head: Ref, free: seq<Ref>) {
    && ch.Keys == Slots(handed) && rg.Keys == Slots(handed)
    && FreeChain(ch, head, free) && NoDup(free)
    && (forall p :: p in free ==> p in ch)
  }

  lemma PoolRewired(ch: Links, ch': Links, rg: RangeOf, handed: nat, head: Ref, free: seq<Ref>, ids: seq<Ref>)
    requires PoolOf(ch, rg, handed, head, free) && Rewired(ch, ch', ids)
    requires Apart(ids, free)
    ensures PoolOf(ch', rg, handed, head, free)
  {
    FreeFrame(ch, ch', head, free);
  }

  // Pushing a node that is not free.
  lemma PushPool(ch: Links, rg: RangeOf, handed: nat, head: Ref, free: seq<Ref>, node: Ref)
    requires PoolOf(ch, rg, handed, head, free) && node in ch && IsNodeRef(node) && node !in free
    ensures var ch' := ch[node := ch[node].(right := head)];
            PoolOf(ch', rg, handed, node, [node] + free) && Rewired(ch, ch', [node])
  {
    hide Slots;
    var ch' := ch[node := ch[node].(right := head)];
    FreeFrame(ch, ch', head, free);
    assert ([node] + free)[1..] == free;
    assert ch'.Keys == ch.Keys;
  }

  // Conservation: every slot handed out is either in the tree or on the free list, never both.
  ghost predicate Conserved(slots: set<Ref>, ids: seq<Ref>, free: seq<Ref>) {
    Apart(ids, free) && forall p :: p in slots ==> p in ids || p in free
  }

  lemma ConservedApart(slots: set<Ref>, ids: seq<Ref>, free: seq<Ref>)
    requires Conserved(slots, ids, free)
    ensures Apart(ids, free)
  {
  }

  // Exactly one slot has left the pool: the head of the free list if there was one, and otherwise
  // one that was never handed out before.
  ghost predicate TookSlot(free: seq<Ref>, handed: nat, free': seq<Ref>, handed': nat, id: Ref) {
    && id !in free'
    && (free != [] ==> free == [id] + free' && handed' == handed)
    && (free == [] ==> free' == free && handed' == handed + 1 && id == Slot(handed))
  }

  // A new node has been taken from the pool and spliced into the list at position `k`.
  ghost predicate Spliced(list: Links, all: seq<Ref>, k: nat, id: Ref,
                          free: seq<Ref>, handed: nat, free': seq<Ref>, handed': nat) {
    && k <= |all| && Threaded(list, InsertAt(all, k, id))
    && id !in all && Apart(all, free') && TookSlot(free, handed, free', handed', id)
  }

  // One slot moves into the tree, from the free list or freshly carved.
  lemma TakeConserves(handed: nat, handed': nat, ids: seq<Ref>, free: seq<Ref>, free': seq<Ref>, k: nat, id: Ref)
    requires Conserved(Slots(handed), ids, free) && NoDup(ids) && id !in ids && k <= |ids|
    requires TookSlot(free, handed, free', handed', id)
    ensures Conserved(Slots(handed'), InsertAt(ids, k, id), free')
  {
    OneMoreSlot(handed);
    InsertNoDup(ids, k, id);
    hide InsertAt, Slots, Slot, NoDup;
  }

  // The nodes of a subtree after a deletion in it: `list` and `free` lose and gain the freed node,
  // if the range was found at all.
  ghost predicate Removed(list: Links, all: seq<Ref>, lo: nat, t: Tree, r: Range,
                          list0: Links, free: seq<Ref>, free': seq<Ref>) {
    if Find(t, r).None? then list == list0 && free' == free
    else
      && lo + |Ids(t)| <= |all|
      && Threaded(list, RemoveAt(all, lo + VictimPos(t, r)))
      && free' == [Ids(t)[VictimPos(t, r)]] + free
  }

  lemma StepAcross(t: Tree, r: Range)
    requires t.Node? && Compare(t.range, r) != 0
    ensures var d := SearchDir(r, t.range);
            && (Find(t, r).Some? <==> Find(t.Child(d), r).Some?)
            && RbTree.DeleteHelper(t, r) == RbTree.DeleteBelow(t, d, RbTree.DeleteHelper(t.Child(d), r))
  {
    hide RbTree.DeleteBelow;
  }

  // The same deletion, seen from one level up.
  lemma RemovedUp(list: Links, all: seq<Ref>, lo: nat, t: Tree, r: Range, list0: Links, free: seq<Ref>, free': seq<Ref>)
    requires t.Node? && Compare(t.range, r) != 0 && lo + |Ids(t)| <= |all|
    requires var d := SearchDir(r, t.range);
             Removed(list, all, if d.Left? then lo else lo + |Ids(t.left)| + 1, t.Child(d), r, list0, free, free')
    ensures Removed(list, all, lo, t, r, list0, free, free')
    ensures RbTree.DeleteHelper(t, r) ==
            RbTree.DeleteBelow(t, SearchDir(r, t.range), RbTree.DeleteHelper(t.Child(SearchDir(r, t.range)), r))
  {
    hide Threaded, RemoveAt, RbTree.DeleteBelow, RbTree.DeleteHelper, Find, VictimPos, Compare;
    StepAcross(t, r);
    if Find(t, r).Some? {
      StepBelow(t, r);
    }
  }

  // A node with at most one child is itself the freed node.
  lemma RemovedLeaf(list: Links, all: seq<Ref>, lo: nat, t: Tree, r: Range, list0: Links, free: seq<Ref>, free': seq<Ref>)
    requires t.Node? && Compare(t.range, r) == 0 && (t.left.Nil? || t.right.Nil?)
    requires lo + |Ids(t)| <= |all| && Threaded(list, RemoveAt(all, lo + |Ids(t.left)|)) && free' == [t.id] + free
    ensures Removed(list, all, lo, t, r, list0, free, free')
    ensures RbTree.DeleteHelper(t, r) == RbTree.DeleteHelper(t, t.range)
  {
    hide Threaded, RemoveAt;
  }

  // The heir's deletion is the deletion of the node's own range.
  lemma RemovedHeir(list: Links, all: seq<Ref>, lo: nat, t: Tree, r: Range, list0: Links, free: seq<Ref>, free': seq<Ref>)
    requires t.Node? && Compare(t.range, r) == 0 && t.left.Node? && t.right.Node?
    requires lo + |Ids(t)| <= |all| && Ascending(Contents(t.left))
    requires Removed(list, all, lo, t.left, Rightmost(t.left).range, list0, free, free')
    ensures Removed(list, all, lo, t, r, list0, free, free')
    ensures RbTree.DeleteHelper(t, r) == RbTree.DeleteBelow(t.(range := Rightmost(t.left).range), Left,
                                                            RbTree.DeleteHelper(t.left, Rightmost(t.left).range))
  {
    hide Threaded, RemoveAt, RbTree.DeleteBelow;
    RightmostIsLast(t.left);
    StepHeir(t, r);
  }

  // One slot moves from the tree to the free list.
  lemma FreeConserves(slots: set<Ref>, ids: seq<Ref>, k: nat, free: seq<Ref>)
    requires Conserved(slots, ids, free) && NoDup(ids) && k < |ids|
    ensures Conserved(slots, RemoveAt(ids, k), [ids[k]] + free)
  {
    RemoveNoDup(ids, k);
    hide RemoveAt;
  }

  // The order in which a whole subtree ends up on the free list.
  function FreedOrder(t: Tree): seq<Ref> {
    match t
    case Nil => []
    case Node(id, _, _, l, r) => [id] + FreedOrder(r) + FreedOrder(l)
  }

  // After all nodes have been freed, every slot is free.
  lemma ClearConserves(slots: set<Ref>, t: Tree, free: seq<Ref>)
    requires Conserved(slots, Ids(t), free)
    ensures Apart(Ids(t), free) && Conserved(slots, Ids(Nil), FreedOrder(t) + free)
    ensures forall p :: p in slots ==> p in FreedOrder(t) + free
  {
    FreedOrderIsAll(t);
  }

  lemma {:induction false} FreedOrderIsAll(t: Tree)
    ensures multiset(FreedOrder(t)) == multiset(Ids(t))
    ensures forall x :: x in FreedOrder(t) <==> x in Ids(t)
  {
    if t.Node? {
      FreedOrderIsAll(t.left);
      FreedOrderIsAll(t.right);
    }
  }

  // Freeing the left subtree keeps the right one and the node apart from the free list.
  lemma FreedApart(t: Tree, free: seq<Ref>)
    requires t.Node? && NoDup(Ids(t)) && Apart(Ids(t), free)
    ensures Apart(Ids(t.left), free) && Apart(Ids(t.right), FreedOrder(t.left) + free)
    ensures t.id !in FreedOrder(t.right) + (FreedOrder(t.left) + free)
  {
    hide NoDup, FreedOrder;
    DistinctParts(t);
    FreedOrderIsAll(t.left);
    FreedOrderIsAll(t.right);
  }

  // A subtree is still in place when only nodes of another one have been rewired.
  lemma FreedFrame(ch: Links, ch': Links, ids: seq<Ref>, rg: RangeOf, node: Ref, t: Tree)
    requires Rewired(ch, ch', ids) && node in ch && node !in ids && Rep(ch, rg, Kid(ch, node, Right), t)
    requires forall x :: x in ids ==> x !in Ids(t)
    ensures node in ch' && Kid(ch', node, Right) == Kid(ch, node, Right) && Rep(ch', rg, Kid(ch, node, Right), t)
  {
    hide Rep, Ids;
    RepIds(ch, rg, Kid(ch, node, Right), t);
    RepFrame(ch, rg, ch', rg, Kid(ch, node, Right), t);
  }
}
