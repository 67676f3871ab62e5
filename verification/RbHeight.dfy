/**
  The height of well-formed trees is logarithmic, and bounds every recursion and every loop along a
  path.
 */
module RbHeight {
  import opened Ranges
  import opened RbTree
  import opened RbDelete

  // ---------- height ----------

  // Nodes on the longest path.
  function Height(t: Tree): nat {
    match t
    case Nil => 0
    case Node(_, _, _, l, r) => 1 + (if Height(l) < Height(r) then Height(r) else Height(l))
  }

  function Pow2(n: nat): nat {
    if n == 0 then 1 else 2 * Pow2(n - 1)
  }

  lemma {:induction false} Pow2Grows(a: nat, b: nat)
    requires a <= b
    ensures Pow2(a) <= Pow2(b)
  {
    if a < b {
      Pow2Grows(a, b - 1);
    }
  }

  lemma {:induction false} HeightByBlackHeight(t: Tree)
    requires RedBlack(t)
    ensures Height(t) <= 2 * BlackHeight(t) + (if t.IsRed() then 1 else 0)
  {
    if t.Node? {
      HeightByBlackHeight(t.left);
      HeightByBlackHeight(t.right);
    }
  }

  lemma {:induction false} SizeByBlackHeight(t: Tree)
    requires Balanced(t)
    ensures Pow2(BlackHeight(t)) <= |Ids(t)| + 1
  {
    if t.Node? {
      SizeByBlackHeight(t.left);
      SizeByBlackHeight(t.right);
      if t.color == Black {
        assert Pow2(BlackHeight(t)) == 2 * Pow2(BlackHeight(t.left));
      }
    }
  }

  // 2^ceil(h/2) <= n + 1 in every well-formed tree.
  lemma HeightIsLogarithmic(t: Tree)
    requires WellFormed(t)
    ensures Pow2((Height(t) + 1) / 2) <= |Ids(t)| + 1
  {
    HeightByBlackHeight(t);
    SizeByBlackHeight(t);
    Pow2Grows((Height(t) + 1) / 2, BlackHeight(t));
  }

  // ---------- what each operation does along its path ----------

  // Recursive calls made by an insertion, and by a deletion.
  function InsertCalls(t: Tree, range: Range): nat
    requires ValidRange(range) && AllValid(t)
  {
    if t.Nil? || Overlap(range, t.range) then 1
    else 1 + InsertCalls(t.Child(SearchDir(range, t.range)), range)
  }

  function DeleteCalls(t: Tree, range: Range): nat {
    if t.Nil? then 1
    else if Compare(t.range, range) != 0 then 1 + DeleteCalls(t.Child(SearchDir(range, t.range)), range)
    else if t.left.Nil? || t.right.Nil? then 1
    else 1 + DeleteCalls(t.left, Rightmost(t.left).range)
  }

  lemma {:induction false} InsertCallsByHeight(t: Tree, range: Range)
    requires ValidRange(range) && AllValid(t)
    ensures InsertCalls(t, range) <= Height(t) + 1
  {
    if t.Node? && !Overlap(range, t.range) {
      InsertCallsByHeight(t.Child(SearchDir(range, t.range)), range);
    }
  }

  lemma {:induction false} DeleteCallsByHeight(t: Tree, range: Range)
    ensures DeleteCalls(t, range) <= Height(t) + 1
  {
    if t.Node? {
      if Compare(t.range, range) != 0 {
        DeleteCallsByHeight(t.Child(SearchDir(range, t.range)), range);
      } else if t.left.Node? && t.right.Node? {
        DeleteCallsByHeight(t.left, Rightmost(t.left).range);
      }
    }
  }

  // Steps of the loop that looks for the heir.
  function RightSteps(t: Tree): nat {
    if t.Nil? || t.right.Nil? then 0 else 1 + RightSteps(t.right)
  }

  lemma {:induction false} RightStepsByHeight(t: Tree)
    ensures t.Node? ==> RightSteps(t) < Height(t)
  {
    if t.Node? && t.right.Node? {
      RightStepsByHeight(t.right);
    }
  }

  // Steps of all such loops in one deletion.
  function DeleteHops(t: Tree, range: Range): nat {
    if t.Nil? then 0
    else if Compare(t.range, range) != 0 then DeleteHops(t.Child(SearchDir(range, t.range)), range)
    else if t.left.Nil? || t.right.Nil? then 0
    else RightSteps(t.left) + DeleteHops(t.left, Rightmost(t.left).range)
  }

  // The heir has no heir of its own: there is at most one such loop in a deletion.
  lemma {:induction false} HeirHasNoHops(t: Tree)
    requires t.Node? && Ascending(Contents(t))
    ensures DeleteHops(t, Rightmost(t).range) == 0
  {
    hide Ascending;
    OrderedParts(t);
    if t.right.Node? {
      RightmostAbove(t);
      HeirHasNoHops(t.right);
    }
  }

  lemma RightmostAbove(t: Tree)
    requires t.Node? && t.right.Node? && Ascending(Contents(t))
    ensures Compare(t.range, Rightmost(t).range) != 0 && SearchDir(Rightmost(t).range, t.range) == Right
  {
    OrderedParts(t);
    RightmostIsLast(t.right);
    assert Rightmost(t).range in Contents(t.right);
  }

  lemma {:induction false} DeleteHopsByHeight(t: Tree, range: Range)
    requires Ascending(Contents(t))
    ensures DeleteHops(t, range) <= Height(t)
  {
    hide Ascending;
    if t.Node? {
      OrderedParts(t);
      if Compare(t.range, range) != 0 {
        DeleteHopsByHeight(t.Child(SearchDir(range, t.range)), range);
      } else if t.left.Node? && t.right.Node? {
        HeirHasNoHops(t.left);
        RightStepsByHeight(t.left);
      }
    }
  }

  // Steps of the two searches by start.
  function PrevSteps(t: Tree, start: Word): nat {
    if t.Nil? then 0 else 1 + PrevSteps(if t.range.start < start then t.right else t.left, start)
  }

  function NextSteps(t: Tree, start: Word): nat {
    if t.Nil? then 0 else 1 + NextSteps(if t.range.start > start then t.left else t.right, start)
  }

  lemma {:induction false} StepsByHeight(t: Tree, start: Word)
    ensures PrevSteps(t, start) <= Height(t) && NextSteps(t, start) <= Height(t)
  {
    if t.Node? {
      StepsByHeight(t.left, start);
      StepsByHeight(t.right, start);
    }
  }

  // ---------- logarithmic bounds ----------

  lemma CallsAreLogarithmic(t: Tree, range: Range)
    requires WellFormed(t) && ValidRange(range)
    ensures AllValid(t)
    ensures Pow2(InsertCalls(t, range) / 2) <= |Ids(t)| + 1
    ensures Pow2(DeleteCalls(t, range) / 2) <= |Ids(t)| + 1
    ensures Pow2((DeleteHops(t, range) + 1) / 2) <= |Ids(t)| + 1
  {
    hide InsertCalls, DeleteCalls, DeleteHops, Pow2, Height, Ids, RedBlack, Ascending, AllValid;
    OrderedIsValid(t);
    HeightIsLogarithmic(t);
    InsertCallsByHeight(t, range);
    DeleteCallsByHeight(t, range);
    DeleteHopsByHeight(t, range);
    Pow2Grows(InsertCalls(t, range) / 2, (Height(t) + 1) / 2);
    Pow2Grows(DeleteCalls(t, range) / 2, (Height(t) + 1) / 2);
    Pow2Grows((DeleteHops(t, range) + 1) / 2, (Height(t) + 1) / 2);
  }

  lemma StepsAreLogarithmic(t: Tree, start: Word)
    requires WellFormed(t)
    ensures Pow2((PrevSteps(t, start) + 1) / 2) <= |Ids(t)| + 1
    ensures Pow2((NextSteps(t, start) + 1) / 2) <= |Ids(t)| + 1
  {
    hide PrevSteps, NextSteps, Pow2, Height, Ids, WellFormed;
    HeightIsLogarithmic(t);
    StepsByHeight(t, start);
    Pow2Grows((PrevSteps(t, start) + 1) / 2, (Height(t) + 1) / 2);
    Pow2Grows((NextSteps(t, start) + 1) / 2, (Height(t) + 1) / 2);
  }
}
