/**
  Single bits of 64-bit words: setting and clearing one bit affects that bit and no other.
 */
module BitWords {

  type Word64 = bv64

  function Or(a: Word64, b: Word64): Word64 { a | b }

  function And(a: Word64, b: Word64): Word64 { a & b }

  function AndNot(a: Word64, b: Word64): Word64 { a & !b }

  // `1 << i`, by doubling.
  function Mask(i: nat): Word64 {
    if i == 0 then 1 else Mask(i - 1) << 1
  }

  predicate TestBit(w: Word64, i: nat) {
    And(w, Mask(i)) != 0
  }

  function SetBit(w: Word64, i: nat): Word64 {
    Or(w, Mask(i))
  }

  function ClearBit(w: Word64, i: nat): Word64 {
    AndNot(w, Mask(i))
  }

  // ---------- masks are single bits ----------

  lemma ShiftedOne(y: Word64)
    ensures And(1, y << 1) == 0
  {
  }

  lemma ShiftedBoth(x: Word64, y: Word64)
    requires And(x, y) == 0
    ensures And(x << 1, y << 1) == 0 && And(y, x) == 0
  {
  }

  lemma {:induction false} MasksApart(i: nat, j: nat)
    requires i < j
    ensures And(Mask(i), Mask(j)) == 0 && And(Mask(j), Mask(i)) == 0
  {
    hide And;
    if i == 0 {
      ShiftedOne(Mask(j - 1));
    } else {
      MasksApart(i - 1, j - 1);
      ShiftedBoth(Mask(i - 1), Mask(j - 1));
    }
    ShiftedBoth(Mask(i), Mask(j));
  }

  // The masks are the powers of two, in order.
  lemma MaskOrder(i: nat)
    ensures Mask(0) == 1 && Mask(i + 1) == Double(Mask(i))
  {
    hide Double;
    Twice(Mask(i));
  }

  function Double(x: Word64): Word64 { x + x }

  lemma Twice(x: Word64)
    ensures x << 1 == Double(x)
  {
  }

  lemma {:induction false} ZeroStaysZero(i: nat, j: nat)
    requires i <= j && Mask(i) == 0
    ensures Mask(j) == 0
  {
    if i < j {
      ZeroStaysZero(i, j - 1);
    }
  }

  lemma TopMask()
    ensures Mask(63) != 0
  {
    assert Mask(6) == 0x40;
    assert Mask(12) == 0x1000;
    assert Mask(18) == 0x40000;
    assert Mask(24) == 0x1000000;
    assert Mask(30) == 0x40000000;
    assert Mask(36) == 0x1000000000;
    assert Mask(42) == 0x40000000000;
    assert Mask(48) == 0x1000000000000;
    assert Mask(54) == 0x40000000000000;
    assert Mask(60) == 0x1000000000000000;
    assert Mask(63) == 0x8000000000000000;
  }

  lemma MaskNonzero(i: nat)
    requires i < 64
    ensures Mask(i) != 0
  {
    hide Mask;
    TopMask();
    if Mask(i) == 0 {
      ZeroStaysZero(i, 63);
    }
  }

  // ---------- one bit at a time ----------

  lemma OrFacts(w: Word64, m: Word64, k: Word64)
    ensures And(m, k) == 0 ==> And(Or(w, m), k) == And(w, k)
    ensures m != 0 ==> And(Or(w, m), m) != 0
  {
  }

  lemma AndNotFacts(w: Word64, m: Word64, k: Word64)
    ensures And(m, k) == 0 ==> And(AndNot(w, m), k) == And(w, k)
    ensures And(AndNot(w, m), m) == 0
  {
  }

  lemma SetBitTest(w: Word64, i: nat, j: nat)
    requires i < 64 && j < 64
    ensures TestBit(SetBit(w, i), j) <==> i == j || TestBit(w, j)
  {
    hide Mask, And, Or;
    MaskNonzero(i);
    OrFacts(w, Mask(i), Mask(j));
    if i < j {
      MasksApart(i, j);
    } else if j < i {
      MasksApart(j, i);
    }
  }

  lemma ClearBitTest(w: Word64, i: nat, j: nat)
    requires i < 64 && j < 64
    ensures TestBit(ClearBit(w, i), j) <==> i != j && TestBit(w, j)
  {
    hide Mask, And, AndNot;
    AndNotFacts(w, Mask(i), Mask(j));
    if i < j {
      MasksApart(i, j);
    } else if j < i {
      MasksApart(j, i);
    }
  }

  lemma ZeroWord(i: nat)
    ensures !TestBit(0, i)
  {
  }
}
