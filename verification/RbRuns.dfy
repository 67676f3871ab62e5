/**
  Whole runs of the range tree: every run refines a plain set of disjoint ranges, and the height of
  every tree met on the way, and with it the depth of the recursions, is logarithmic.
 */
module RbRuns {
  import opened Options
  import opened Ranges
  import opened RbTree
  import opened RbInsert
  import opened RbDelete
  import opened RbHeight

  // ---------- runs ----------

  // One public operation; `slot` is what the pool would hand out to an insertion.
  datatype Op =
    | OpInsert(range: Range, slot: Option<Ref>)
    | OpDelete(range: Range)
    | OpClear
  {
    predicate Valid() {
      OpClear? || ValidRange(range)
    }
  }

  function Step(t: Tree, op: Op): (t': Tree)
    requires op.Valid() && AllValid(t)
  {
    match op
    case OpInsert(range, slot) => Insert(t, range, slot).0
    case OpDelete(range) => Delete(t, range)
    case OpClear => Nil
  }

  // The same operation on a plain set of ranges.
  ghost function SetStep(s: set<Range>, op: Op): (s': set<Range>)
    requires op.Valid() && forall x :: x in s ==> ValidRange(x)
  {
    match op
    case OpInsert(range, slot) =>
      if slot.None? || (exists x :: x in s && Overlap(range, x)) then s else s + {range}
    case OpDelete(range) => s - {range}
    case OpClear => {}
  }

  ghost function Stored(t: Tree): set<Range> {
    set x | x in Contents(t)
  }

  lemma StepRefines(t: Tree, op: Op)
    requires WellFormed(t) && op.Valid()
    ensures AllValid(t) && forall x :: x in Stored(t) ==> ValidRange(x)
    ensures WellFormed(Step(t, op))
    ensures Stored(Step(t, op)) == SetStep(Stored(t), op)
  {
    hide WellFormed;
    StoredValid(t);
    match op
    case OpInsert(range, slot) => InsertRefines(t, range, slot);
    case OpDelete(range) => DeleteRefines(t, range);
    case OpClear => EmptyRefines();
  }

  lemma StoredValid(t: Tree)
    requires WellFormed(t)
    ensures AllValid(t) && forall x :: x in Stored(t) ==> ValidRange(x)
  {
    OrderedIsValid(t);
  }

  lemma EmptyRefines()
    ensures WellFormed(Nil) && Stored(Nil) == {}
  {
  }

  lemma InsertRefines(t: Tree, range: Range, slot: Option<Ref>)
    requires WellFormed(t) && ValidRange(range)
    ensures AllValid(t) && forall x :: x in Stored(t) ==> ValidRange(x)
    ensures WellFormed(Insert(t, range, slot).0)
    ensures Stored(Insert(t, range, slot).0) == SetStep(Stored(t), OpInsert(range, slot))
  {
    hide WellFormed, Insert, Overlap, InsertPos;
    InsertCorrect(t, range, slot);
    assert OverlapsAny(range, Contents(t)) <==> exists x :: x in Stored(t) && Overlap(range, x);
    var (t', status) := Insert(t, range, slot);
    if status == InsertOk {
      var k := InsertPos(t, range);
      assert forall x :: x in InsertAt(Contents(t), k, range) <==> x == range || x in Contents(t)[..k] || x in Contents(t)[k..];
      assert Contents(t) == Contents(t)[..k] + Contents(t)[k..];
    }
  }

  lemma DeleteRefines(t: Tree, range: Range)
    requires WellFormed(t)
    ensures WellFormed(Delete(t, range))
    ensures Stored(Delete(t, range)) == Stored(t) - {range}
  {
    DeleteCorrect(t, range);
    if range in Contents(t) {
      var k := Find(t, range).value;
      RemovedStaysAscending(Contents(t), k);
      assert forall x :: x in RemoveAt(Contents(t), k) ==> x in Contents(t);
    }
  }

  ghost predicate ValidRun(ops: seq<Op>) {
    forall i :: 0 <= i < |ops| ==> ops[i].Valid()
  }

  // The tree after a run from a freshly initialised tree.
  ghost function Run(ops: seq<Op>): Tree
    requires ValidRun(ops)
  {
    if ops == [] then Nil
    else
      var t := Run(ops[..|ops| - 1]);
      if AllValid(t) then Step(t, ops[|ops| - 1]) else t
  }

  ghost function SetRun(ops: seq<Op>): set<Range>
    requires ValidRun(ops)
  {
    if ops == [] then {}
    else
      var s := SetRun(ops[..|ops| - 1]);
      if forall x :: x in s ==> ValidRange(x) then SetStep(s, ops[|ops| - 1]) else s
  }

  // Every run keeps all invariants, and holds exactly what the plain set would hold.
  lemma {:induction false} RunRefinesSet(ops: seq<Op>)
    requires ValidRun(ops)
    ensures WellFormed(Run(ops))
    ensures Stored(Run(ops)) == SetRun(ops)
  {
    if ops != [] {
      var front := ops[..|ops| - 1];
      RunRefinesSet(front);
      StepRefines(Run(front), ops[|ops| - 1]);
    }
  }

  // Hence no two ranges stored at the same time ever share an address.
  lemma RunStaysDisjoint(ops: seq<Op>, a: Range, b: Range, address: int)
    requires ValidRun(ops)
    requires a in SetRun(ops) && b in SetRun(ops) && Covers(a, address) && Covers(b, address)
    ensures a == b
  {
    RunRefinesSet(ops);
    var s := Contents(Run(ops));
    var i :| 0 <= i < |s| && s[i] == a;
    var j :| 0 <= j < |s| && s[j] == b;
    assert !Before(a, b) && !Before(b, a);
  }

  // ---------- depth ----------

  // After any run, each recursion makes at most 2 * log2(n + 1) calls besides the last one, and each
  // loop along a path at most as many steps.
  lemma RunDepth(ops: seq<Op>, range: Range, start: Word)
    requires ValidRun(ops) && ValidRange(range)
    ensures var t := Run(ops);
            && AllValid(t)
            && Pow2(InsertCalls(t, range) / 2) <= |Ids(t)| + 1
            && Pow2(DeleteCalls(t, range) / 2) <= |Ids(t)| + 1
            && Pow2((DeleteHops(t, range) + 1) / 2) <= |Ids(t)| + 1
            && Pow2((PrevSteps(t, start) + 1) / 2) <= |Ids(t)| + 1
            && Pow2((NextSteps(t, start) + 1) / 2) <= |Ids(t)| + 1
  {
    hide *;
    RunRefinesSet(ops);
    CallsAreLogarithmic(Run(ops), range);
    StepsAreLogarithmic(Run(ops), start);
  }
}
