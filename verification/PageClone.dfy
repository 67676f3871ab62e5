/**
  What it means for one tree of tables to be a deep copy of another, and the facts that the cloning
  loops need: copies walk alike, and stay copies when pages they do not use are written.
 */
module PageClone {
  import opened Options
  import opened Amd64
  import opened PageTables
  import opened PageMap

  // ---------- the source ----------

  // The kernel copies what is behind an entry of a table of level `n`: at the top level, it does not
  // look at the page-size bit, which is reserved there.
  predicate Copied(e: Entry, n: nat) {
    Present(e) && (n == 4 || !Large(e))
  }

  // The pages that the kernel takes for tables behind `s`, `n` levels deep, are in memory, outside the
  // set `avoid`, with pointers that fit the kernel's address mask.
  ghost predicate Clonable(m: Memory, s: Frame, n: nat, avoid: set<Frame>)
    decreases n
  {
    && s in m && s !in avoid
    && (n > 1 ==> forall i: Index :: Copied(EntryAt(m, s, i), n) ==>
          Narrow(EntryAt(m, s, i)) && Clonable(m, TableFrame(EntryAt(m, s, i)), n - 1, avoid))
  }

  // How many tables are behind `s`, `n` levels deep; one that is reached twice counts twice.
  ghost function Tables(m: Memory, s: Frame, n: nat): nat
    decreases n, 513 as bv64
  {
    if n <= 1 then 1 else 1 + TablesBelow(m, s, n, 512)
  }

  // How many of them are behind the first `i` entries of `s`.
  ghost function TablesBelow(m: Memory, s: Frame, n: nat, i: bv64): nat
    requires n > 1 && i <= 512
    decreases n, i
  {
    if i == 0 then 0 else TablesBelow(m, s, n, i - 1) + TablesBehind(m, EntryAt(m, s, Index((i - 1) as bv9)), n)
  }

  ghost function TablesBehind(m: Memory, e: Entry, n: nat): nat
    requires n > 1
    decreases n, 0 as bv64
  {
    if Copied(e, n) then Tables(m, TableFrame(e), n - 1) else 0
  }

  lemma TablesNext(m: Memory, s: Frame, n: nat, i: bv64)
    requires n > 1 && i < 512
    ensures TablesBelow(m, s, n, i + 1) == TablesBelow(m, s, n, i) + TablesBehind(m, EntryAt(m, s, Index(i as bv9)), n)
  {
    hide EntryAt, TablesBehind;
    assert i + 1 - 1 == i;
  }

  lemma TablesNone(m: Memory, s: Frame, n: nat)
    requires n > 1
    ensures TablesBelow(m, s, n, 0) == 0
  {
  }

  lemma NoneBehind(m: Memory, e: Entry, n: nat)
    requires n > 1 && !Copied(e, n)
    ensures TablesBehind(m, e, n) == 0
  {
  }

  lemma {:induction false} TablesGrow(m: Memory, s: Frame, n: nat, i: bv64)
    requires n > 1 && i <= 512
    ensures TablesBelow(m, s, n, i) <= TablesBelow(m, s, n, 512)
    decreases 512 - i
  {
    hide EntryAt, TablesBehind, TablesBelow;
    if i < 512 {
      TablesNext(m, s, n, i);
      TablesGrow(m, s, n, i + 1);
    }
  }

  // ---------- the copy ----------

  // The table `c` in `m` is a copy, `n` levels deep, of the table `s` in `m0`.
  ghost predicate Same(m0: Memory, s: Frame, m: Memory, c: Frame, n: nat)
    decreases n, 1
  {
    && s in m0 && c in m
    && forall i: Index :: SameEntry(m0, EntryAt(m0, s, i), m, EntryAt(m, c, i), n)
  }

  // Leaf entries are equal; an entry that points to a table points to a copy of it, with the same
  // flags.
  ghost predicate SameEntry(m0: Memory, e: Entry, m: Memory, e': Entry, n: nat)
    decreases n, 0
  {
    if n > 1 && Descends(e) then
      Redirected(e, e') && Same(m0, TableFrame(e), m, TableFrame(e'), n - 1)
    else if n > 1 && Copied(e, n) then Redirected(e, e')
    else e' == e
  }

  predicate Redirected(e: Entry, e': Entry) {
    Narrow(e) && IsFrame(TableFrame(e')) && e' == UpdateAddress(e, TableFrame(e'))
  }

  lemma RedirectedFields(e: Entry, e': Entry)
    requires Redirected(e, e')
    ensures Present(e') == Present(e) && Large(e') == Large(e) && FlagsOf(e') == FlagsOf(e) && Narrow(e')
    ensures Descends(e') == Descends(e)
  {
    hide UpdateAddress, IsFrame, Narrow, FlagsOf, TableFrame;
    UpdateFields(e, TableFrame(e'));
  }

  // A copy translates every address as its source does.
  lemma {:induction false} SameWalk(m0: Memory, s: Frame, m: Memory, c: Frame, idx: Path)
    requires 1 <= |idx| <= 4 && Same(m0, s, m, c, |idx|)
    ensures WalkFrom(m, c, idx) == WalkFrom(m0, s, idx)
    decreases |idx|
  {
    hide Present, Large, TableFrame, FlagsOf, LeafAt, EntryAt, Redirected;
    var (e, e') := (EntryAt(m0, s, idx[0]), EntryAt(m, c, idx[0]));
    assert SameEntry(m0, e, m, e', |idx|);
    if |idx| > 1 && Copied(e, |idx|) {
      RedirectedFields(e, e');
    }
    if |idx| > 1 && Descends(e) {
      SameWalk(m0, TableFrame(e), m, TableFrame(e'), idx[1..]);
    }
  }

  // ---------- the pages of a copy ----------

  // All tables less than `n` steps below `c` are in `own`.
  ghost predicate Within(m: Memory, c: Frame, n: nat, own: set<Frame>) {
    forall p: Path :: |p| < n && TableAt(m, c, p).Some? ==> TableAt(m, c, p).value in own
  }

  // No table less than `n` steps below `c` is reached twice.
  ghost predicate Inj(m: Memory, c: Frame, n: nat) {
    forall p: Path, q: Path ::
      (|p| < n && |q| < n && TableAt(m, c, p).Some? && TableAt(m, c, p) == TableAt(m, c, q)) ==> p == q
  }

  ghost predicate Agree(m: Memory, m': Memory, own: set<Frame>) {
    forall b :: b in own && b in m ==> b in m' && m'[b] == m[b]
  }

  // The tables below an entry are among those below its table.
  lemma WithinBelow(m: Memory, c: Frame, n: nat, own: set<Frame>, i: Index)
    requires n > 1 && Within(m, c, n, own) && Descends(EntryAt(m, c, i))
    ensures Within(m, TableFrame(EntryAt(m, c, i)), n - 1, own)
    ensures c in own
  {
    hide Descends, TableFrame, EntryAt;
    var t := TableFrame(EntryAt(m, c, i));
    forall p: Path | |p| < n - 1 && TableAt(m, t, p).Some? ensures TableAt(m, t, p).value in own {
      assert ([i] + p)[1..] == p;
      assert TableAt(m, c, [i] + p) == TableAt(m, t, p);
    }
    assert TableAt(m, c, []) == Some(c);
  }

  lemma WithinSelf(m: Memory, c: Frame, n: nat, own: set<Frame>)
    requires n > 0 && Within(m, c, n, own)
    ensures c in own
  {
    assert TableAt(m, c, []) == Some(c);
  }

  lemma AgreeEntry(m: Memory, m': Memory, own: set<Frame>, b: Frame, i: Index)
    requires Agree(m, m', own) && b in own && b in m
    ensures EntryAt(m', b, i) == EntryAt(m, b, i) && b in m'
  {
  }

  lemma {:induction false} AgreeTables(m: Memory, m': Memory, c: Frame, n: nat, own: set<Frame>, p: Path, m0: Memory, s: Frame)
    requires Same(m0, s, m, c, n) && Within(m, c, n, own) && Agree(m, m', own) && |p| < n
    ensures TableAt(m', c, p) == TableAt(m, c, p)
    decreases |p|
  {
    hide Present, Large, TableFrame, EntryAt, Redirected, Within, Agree;
    if p != [] {
      var (e0, e) := (EntryAt(m0, s, p[0]), EntryAt(m, c, p[0]));
      assert SameEntry(m0, e0, m, e, n);
      WithinSelf(m, c, n, own);
      AgreeEntry(m, m', own, c, p[0]);
      if Descends(e) {
        SourceDescends(m0, e0, m, e, n);
        WithinBelow(m, c, n, own, p[0]);
        AgreeTables(m, m', TableFrame(e), n - 1, own, p[1..], m0, TableFrame(e0));
      }
    }
  }

  lemma SourceDescends(m0: Memory, e0: Entry, m: Memory, e: Entry, n: nat)
    requires SameEntry(m0, e0, m, e, n) && n > 1
    ensures Descends(e) <==> Descends(e0)
  {
    hide Present, Large, TableFrame, Redirected, Same;
    if Copied(e0, n) {
      RedirectedFields(e0, e);
    }
  }

  // Writing pages that a copy does not use leaves it a copy.
  lemma {:induction false} SameFrame(m0: Memory, s: Frame, m: Memory, c: Frame, n: nat, m': Memory, own: set<Frame>)
    requires Same(m0, s, m, c, n) && Within(m, c, n, own) && Agree(m, m', own) && n > 0
    ensures Same(m0, s, m', c, n)
    decreases n
  {
    hide Present, Large, TableFrame, EntryAt, Redirected, Within, Agree;
    WithinSelf(m, c, n, own);
    forall i: Index ensures SameEntry(m0, EntryAt(m0, s, i), m', EntryAt(m', c, i), n) {
      var (e0, e) := (EntryAt(m0, s, i), EntryAt(m, c, i));
      assert SameEntry(m0, e0, m, e, n);
      AgreeEntry(m, m', own, c, i);
      if n > 1 && Descends(e0) {
        SourceDescends(m0, e0, m, e, n);
        WithinBelow(m, c, n, own, i);
        SameFrame(m0, TableFrame(e0), m, TableFrame(e), n - 1, m', own);
      }
    }
    AgreeEntry(m, m', own, c, Index(0));
  }

  lemma CopyFrame(m0: Memory, s: Frame, m: Memory, c: Frame, n: nat, m': Memory, own: set<Frame>)
    requires Same(m0, s, m, c, n) && Within(m, c, n, own) && Inj(m, c, n) && Agree(m, m', own) && n > 0
    ensures Same(m0, s, m', c, n) && Within(m', c, n, own) && Inj(m', c, n)
  {
    hide TableAt, Same, Agree;
    SameFrame(m0, s, m, c, n, m', own);
    forall p: Path | |p| < n ensures TableAt(m', c, p) == TableAt(m, c, p) {
      AgreeTables(m, m', c, n, own, p, m0, s);
    }
  }

  // ---------- progress of a cloning loop ----------

  predicate Done(j: Index, i: bv64) {
    (j.bits as bv64) < i
  }

  lemma DoneNext(j: Index, i: bv64)
    requires i < 512
    ensures Done(j, i + 1) <==> Done(j, i) || j == Index(i as bv9)
    ensures !Done(Index(i as bv9), i)
  {
  }

  lemma DoneEnds(j: Index)
    ensures !Done(j, 0) && Done(j, 512)
  {
  }

  // An entry of the copy whose subtree is finished and uses pages of `own` only.
  ghost predicate BranchOk(m0: Memory, e: Entry, m: Memory, e': Entry, n: nat, own: set<Frame>)
    requires n > 1
  {
    if Copied(e, n) then
      && Redirected(e, e') && Same(m0, TableFrame(e), m, TableFrame(e'), n - 1)
      && Within(m, TableFrame(e'), n - 1, own) && Inj(m, TableFrame(e'), n - 1)
    else e' == e
  }

  // No table is both below `a` and below `b`.
  ghost predicate Cross(m: Memory, a: Frame, b: Frame, n: nat) {
    forall p: Path, q: Path ::
      |p| < n && |q| < n && TableAt(m, a, p).Some? ==> TableAt(m, a, p) != TableAt(m, b, q)
  }

  // The entries below `i` are finished, the others are still those of the source.
  ghost predicate Progress(m0: Memory, s: Frame, m: Memory, c: Frame, n: nat, i: bv64, own: set<Frame>)
    requires n > 1
  {
    && s in m0 && c in m && c !in own
    && (forall j: Index :: Done(j, i) ==> BranchOk(m0, EntryAt(m0, s, j), m, EntryAt(m, c, j), n, own))
    && (forall j: Index :: !Done(j, i) ==> EntryAt(m, c, j) == EntryAt(m0, s, j))
    && (forall j: Index, k: Index ::
          (Done(j, i) && Done(k, i) && j != k && Descends(EntryAt(m0, s, j)) && Descends(EntryAt(m0, s, k)))
          ==> Cross(m, TableFrame(EntryAt(m, c, j)), TableFrame(EntryAt(m, c, k)), n - 1))
  }

  lemma ProgressStart(m0: Memory, s: Frame, m: Memory, c: Frame, n: nat)
    requires n > 1 && s in m0 && c in m && m[c] == m0[s]
    ensures Progress(m0, s, m, c, n, 0, {})
  {
    hide Descends, TableFrame, BranchOk, Cross, Done;
    forall j: Index ensures !Done(j, 0) && EntryAt(m, c, j) == EntryAt(m0, s, j) {
      DoneEnds(j);
    }
  }

  // An entry that points to no table is finished as it is.
  lemma ProgressSkip(m0: Memory, s: Frame, m: Memory, c: Frame, n: nat, i: bv64, own: set<Frame>)
    requires n > 1 && i < 512 && Progress(m0, s, m, c, n, i, own)
    requires !Copied(EntryAt(m, c, Index(i as bv9)), n)
    ensures Progress(m0, s, m, c, n, i + 1, own)
  {
    hide Present, Large, TableFrame, Cross, Done, EntryAt, Same, Within, Inj, Redirected;
    forall j: Index ensures Done(j, i + 1) <==> Done(j, i) || j == Index(i as bv9) {
      DoneNext(j, i);
    }
    DoneNext(Index(i as bv9), i);
  }

  // A new branch on fresh pages joins the finished ones.
  lemma ProgressBranch(m0: Memory, s: Frame, m: Memory, m': Memory, c: Frame, n: nat, i: bv64, own: set<Frame>, added: set<Frame>)
    requires n > 1 && i < 512 && Progress(m0, s, m, c, n, i, own)
    requires own !! added && c !in added && c in m' && Agree(m, m', own)
    requires forall j: Index :: j != Index(i as bv9) ==> EntryAt(m', c, j) == EntryAt(m, c, j)
    requires BranchOk(m0, EntryAt(m0, s, Index(i as bv9)), m', EntryAt(m', c, Index(i as bv9)), n, added)
    ensures Progress(m0, s, m', c, n, i + 1, own + added)
  {
    hide Descends, TableFrame, Done, EntryAt, Cross, BranchOk, Agree;
    var x := Index(i as bv9);
    DoneNext(x, i);
    forall j: Index ensures Done(j, i + 1) <==> Done(j, i) || j == x {
      DoneNext(j, i);
    }
    forall j: Index | Done(j, i + 1)
      ensures BranchOk(m0, EntryAt(m0, s, j), m', EntryAt(m', c, j), n, own + added)
    {
      if j == x {
        BranchWiden(m0, EntryAt(m0, s, j), m', EntryAt(m', c, j), n, added, own + added);
      } else {
        BranchFrame(m0, EntryAt(m0, s, j), m, EntryAt(m, c, j), n, m', own);
        BranchWiden(m0, EntryAt(m0, s, j), m', EntryAt(m', c, j), n, own, own + added);
      }
    }
    forall j: Index, k: Index |
      Done(j, i + 1) && Done(k, i + 1) && j != k && Descends(EntryAt(m0, s, j)) && Descends(EntryAt(m0, s, k))
      ensures Cross(m', TableFrame(EntryAt(m', c, j)), TableFrame(EntryAt(m', c, k)), n - 1)
    {
      if j != x {
        BranchFrame(m0, EntryAt(m0, s, j), m, EntryAt(m, c, j), n, m', own);
      }
      if k != x {
        BranchFrame(m0, EntryAt(m0, s, k), m, EntryAt(m, c, k), n, m', own);
      }
      if j == x {
        CrossApart(m0, EntryAt(m0, s, j), EntryAt(m0, s, k), m', EntryAt(m', c, j), EntryAt(m', c, k), n, added, own);
      } else if k == x {
        CrossApart(m0, EntryAt(m0, s, j), EntryAt(m0, s, k), m', EntryAt(m', c, j), EntryAt(m', c, k), n, own, added);
      } else {
        CrossFrame(m0, EntryAt(m0, s, j), EntryAt(m0, s, k), m, EntryAt(m, c, j), EntryAt(m, c, k), n, m', own);
      }
    }
  }

  lemma BranchWiden(m0: Memory, e: Entry, m: Memory, e': Entry, n: nat, own: set<Frame>, wide: set<Frame>)
    requires n > 1 && BranchOk(m0, e, m, e', n, own) && own <= wide
    ensures BranchOk(m0, e, m, e', n, wide)
  {
    hide Descends, TableFrame, Same, Inj, Redirected, TableAt;
  }

  lemma BranchFrame(m0: Memory, e: Entry, m: Memory, e': Entry, n: nat, m': Memory, own: set<Frame>)
    requires n > 1 && BranchOk(m0, e, m, e', n, own) && Agree(m, m', own)
    ensures BranchOk(m0, e, m', e', n, own)
  {
    hide Copied, TableFrame, Same, Within, Inj, Agree, Redirected;
    if Copied(e, n) {
      CopyFrame(m0, TableFrame(e), m, TableFrame(e'), n - 1, m', own);
    }
  }

  // Branches on disjoint sets of pages share no table.
  lemma CrossApart(m0: Memory, e: Entry, f: Entry, m: Memory, e': Entry, f': Entry, n: nat, a: set<Frame>, b: set<Frame>)
    requires n > 1 && Descends(e) && Descends(f) && a !! b
    requires BranchOk(m0, e, m, e', n, a) && BranchOk(m0, f, m, f', n, b)
    ensures Cross(m, TableFrame(e'), TableFrame(f'), n - 1)
  {
    hide Present, Large, TableFrame, Same, Inj, Redirected, TableAt;
  }

  lemma CrossFrame(m0: Memory, e: Entry, f: Entry, m: Memory, e': Entry, f': Entry, n: nat, m': Memory, own: set<Frame>)
    requires n > 1 && Descends(e) && Descends(f) && Agree(m, m', own)
    requires BranchOk(m0, e, m, e', n, own) && BranchOk(m0, f, m, f', n, own)
    requires Cross(m, TableFrame(e'), TableFrame(f'), n - 1)
    ensures Cross(m', TableFrame(e'), TableFrame(f'), n - 1)
  {
    hide Present, Large, TableFrame, Same, Inj, Redirected, TableAt, Within, Agree;
    forall p: Path | |p| < n - 1
      ensures TableAt(m', TableFrame(e'), p) == TableAt(m, TableFrame(e'), p)
      ensures TableAt(m', TableFrame(f'), p) == TableAt(m, TableFrame(f'), p)
    {
      AgreeTables(m, m', TableFrame(e'), n - 1, own, p, m0, TableFrame(e));
      AgreeTables(m, m', TableFrame(f'), n - 1, own, p, m0, TableFrame(f));
    }
  }

  // All branches together are a copy.
  lemma ProgressEnd(m0: Memory, s: Frame, m: Memory, c: Frame, n: nat, own: set<Frame>)
    requires n > 1 && Progress(m0, s, m, c, n, 512, own)
    ensures Same(m0, s, m, c, n) && Within(m, c, n, own + {c}) && Inj(m, c, n)
  {
    hide Present, Large, TableFrame, Done, EntryAt, Cross, Within, Inj, Redirected;
    forall j: Index ensures Done(j, 512) {
      DoneEnds(j);
    }
    assert Same(m0, s, m, c, n) by {
      forall j: Index ensures SameEntry(m0, EntryAt(m0, s, j), m, EntryAt(m, c, j), n) {
        assert BranchOk(m0, EntryAt(m0, s, j), m, EntryAt(m, c, j), n, own);
      }
    }
    EndWithin(m0, s, m, c, n, own);
    EndInj(m0, s, m, c, n, own);
  }

  // One step from the root of a finished copy leads into a branch.
  lemma EndStep(m0: Memory, s: Frame, m: Memory, c: Frame, n: nat, own: set<Frame>, p: Path)
    requires n > 1 && Progress(m0, s, m, c, n, 512, own)
    requires p != [] && |p| < n && TableAt(m, c, p).Some?
    ensures var (e, e') := (EntryAt(m0, s, p[0]), EntryAt(m, c, p[0]));
            && Descends(e) && Descends(e') && BranchOk(m0, e, m, e', n, own)
            && TableAt(m, c, p) == TableAt(m, TableFrame(e'), p[1..])
            && TableAt(m, c, p).value in own
  {
    hide Present, Large, TableFrame, Done, EntryAt, Cross, Inj, Redirected;
    var (e, e') := (EntryAt(m0, s, p[0]), EntryAt(m, c, p[0]));
    DoneEnds(p[0]);
    assert BranchOk(m0, e, m, e', n, own);
    if Copied(e, n) {
      RedirectedFields(e, e');
    }
  }

  lemma EndWithin(m0: Memory, s: Frame, m: Memory, c: Frame, n: nat, own: set<Frame>)
    requires n > 1 && Progress(m0, s, m, c, n, 512, own)
    ensures Within(m, c, n, own + {c})
  {
    hide Progress, BranchOk;
    forall p: Path | |p| < n && TableAt(m, c, p).Some? ensures TableAt(m, c, p).value in own + {c} {
      if p != [] {
        EndStep(m0, s, m, c, n, own, p);
      }
    }
  }

  lemma EndInj(m0: Memory, s: Frame, m: Memory, c: Frame, n: nat, own: set<Frame>)
    requires n > 1 && Progress(m0, s, m, c, n, 512, own)
    ensures Inj(m, c, n)
  {
    hide Descends, TableFrame, Done, EntryAt, Cross, Within, Redirected, TableAt, Same;
    RootTable(m, c);
    forall p: Path, q: Path | |p| < n && |q| < n && TableAt(m, c, p).Some? && TableAt(m, c, p) == TableAt(m, c, q)
      ensures p == q
    {
      if p != [] {
        EndStep(m0, s, m, c, n, own, p);
      }
      if q != [] {
        EndStep(m0, s, m, c, n, own, q);
      }
      if p != [] && q != [] {
        DoneEnds(p[0]);
        DoneEnds(q[0]);
        EndSameBranch(m0, s, m, c, n, own, p, q);
      }
    }
  }

  lemma EndSameBranch(m0: Memory, s: Frame, m: Memory, c: Frame, n: nat, own: set<Frame>, p: Path, q: Path)
    requires n > 1 && Progress(m0, s, m, c, n, 512, own)
    requires p != [] && q != [] && |p| < n && |q| < n && TableAt(m, c, p).Some? && TableAt(m, c, p) == TableAt(m, c, q)
    ensures p == q
  {
    hide Present, Large, TableFrame, Done, EntryAt, Within, Redirected, TableAt, Same;
    EndStep(m0, s, m, c, n, own, p);
    EndStep(m0, s, m, c, n, own, q);
    DoneEnds(p[0]);
    DoneEnds(q[0]);
    assert p[0] == q[0];
    assert p == [p[0]] + p[1..] && q == [q[0]] + q[1..];
  }

  // ---------- no page is wasted ----------

  // `b` is a table less than `n` steps below `t`.
  ghost predicate TableBelow(m: Memory, t: Frame, n: nat, b: Frame) {
    exists p: Path :: |p| < n && TableAt(m, t, p) == Some(b)
  }

  // Every page of `own` is a table of a finished branch.
  ghost predicate Filled(m0: Memory, s: Frame, m: Memory, c: Frame, n: nat, i: bv64, own: set<Frame>)
    requires n > 1
  {
    forall b :: b in own ==> exists j: Index :: InBranch(m0, s, m, c, n, i, j, b)
  }

  ghost predicate InBranch(m0: Memory, s: Frame, m: Memory, c: Frame, n: nat, i: bv64, j: Index, b: Frame)
    requires n > 1
  {
    Done(j, i) && Copied(EntryAt(m0, s, j), n) && TableBelow(m, TableFrame(EntryAt(m, c, j)), n - 1, b)
  }

  lemma FilledSkip(m0: Memory, s: Frame, m: Memory, c: Frame, n: nat, i: bv64, own: set<Frame>)
    requires n > 1 && i < 512 && Filled(m0, s, m, c, n, i, own)
    ensures Filled(m0, s, m, c, n, i + 1, own)
  {
    hide Done, EntryAt, TableBelow, TableFrame, Copied;
    var next := i + 1;
    forall b | b in own ensures exists j: Index :: InBranch(m0, s, m, c, n, next, j, b) {
      var j: Index :| InBranch(m0, s, m, c, n, i, j, b);
      DoneNext(j, i);
      assert InBranch(m0, s, m, c, n, next, j, b);
    }
  }

  lemma FilledBranch(m0: Memory, s: Frame, m: Memory, m': Memory, c: Frame, n: nat, i: bv64, own: set<Frame>, added: set<Frame>)
    requires n > 1 && i < 512 && Progress(m0, s, m, c, n, i, own) && Filled(m0, s, m, c, n, i, own) && Agree(m, m', own)
    requires forall j: Index :: j != Index(i as bv9) ==> EntryAt(m', c, j) == EntryAt(m, c, j)
    requires Copied(EntryAt(m0, s, Index(i as bv9)), n)
    requires forall b :: b in added ==> TableBelow(m', TableFrame(EntryAt(m', c, Index(i as bv9))), n - 1, b)
    ensures Filled(m0, s, m', c, n, i + 1, own + added)
  {
    hide Done, EntryAt, TableBelow, TableFrame, Copied, BranchOk, Agree, Cross;
    var x := Index(i as bv9);
    var next := i + 1;
    DoneNext(x, i);
    forall b | b in own + added ensures exists j: Index :: InBranch(m0, s, m', c, n, next, j, b) {
      if b in added {
        assert InBranch(m0, s, m', c, n, next, x, b);
      } else {
        var j: Index :| InBranch(m0, s, m, c, n, i, j, b);
        DoneNext(j, i);
        BelowFrame(m0, EntryAt(m0, s, j), m, EntryAt(m, c, j), n, m', own, b);
        assert InBranch(m0, s, m', c, n, next, j, b);
      }
    }
  }

  lemma BelowFrame(m0: Memory, e: Entry, m: Memory, e': Entry, n: nat, m': Memory, own: set<Frame>, b: Frame)
    requires n > 1 && Copied(e, n) && BranchOk(m0, e, m, e', n, own) && Agree(m, m', own) && TableBelow(m, TableFrame(e'), n - 1, b)
    ensures TableBelow(m', TableFrame(e'), n - 1, b)
  {
    hide Copied, TableFrame, Same, Within, Inj, Agree, Redirected, TableAt;
    var p: Path :| |p| < n - 1 && TableAt(m, TableFrame(e'), p) == Some(b);
    AgreeTables(m, m', TableFrame(e'), n - 1, own, p, m0, TableFrame(e));
  }

  // In a finished copy, every page of `own` is a table behind an entry that the kernel copies.
  ghost predicate Full(m: Memory, c: Frame, n: nat, own: set<Frame>)
    requires n > 1
  {
    forall b :: b in own ==> exists j: Index :: Copied(EntryAt(m, c, j), n) && TableBelow(m, TableFrame(EntryAt(m, c, j)), n - 1, b)
  }

  lemma FilledEnd(m0: Memory, s: Frame, m: Memory, c: Frame, n: nat, own: set<Frame>)
    requires n > 1 && Progress(m0, s, m, c, n, 512, own) && Filled(m0, s, m, c, n, 512, own)
    ensures Full(m, c, n, own)
  {
    hide Done, EntryAt, TableBelow, TableFrame, Present, Large, Cross, Same, Within, Inj, Redirected;
    forall b | b in own ensures exists j: Index :: Copied(EntryAt(m, c, j), n) && TableBelow(m, TableFrame(EntryAt(m, c, j)), n - 1, b) {
      var j: Index :| InBranch(m0, s, m, c, n, 512, j, b);
      assert BranchOk(m0, EntryAt(m0, s, j), m, EntryAt(m, c, j), n, own);
      RedirectedFields(EntryAt(m0, s, j), EntryAt(m, c, j));
    }
  }

  // TableBelow the top level, that makes them tables of the copy.
  lemma FullIsBelow(m: Memory, c: Frame, n: nat, own: set<Frame>)
    requires 1 < n < 4 && Full(m, c, n, own)
    ensures forall b :: b in own ==> TableBelow(m, c, n, b)
  {
    hide EntryAt, TableFrame, Present, Large;
    forall b | b in own ensures TableBelow(m, c, n, b) {
      var j: Index :| Copied(EntryAt(m, c, j), n) && TableBelow(m, TableFrame(EntryAt(m, c, j)), n - 1, b);
      var p: Path :| |p| < n - 1 && TableAt(m, TableFrame(EntryAt(m, c, j)), p) == Some(b);
      assert ([j] + p)[1..] == p;
      assert TableAt(m, c, [j] + p) == Some(b);
    }
  }

  lemma SelfBelow(m: Memory, t: Frame, n: nat)
    requires n > 0
    ensures TableBelow(m, t, n, t)
  {
    assert TableAt(m, t, []) == Some(t);
  }

  // Every entry behind which the kernel copies something points to a page of `own` in the end.
  ghost predicate Repointed(m0: Memory, s: Frame, m: Memory, c: Frame, n: nat, own: set<Frame>) {
    forall j: Index :: Copied(EntryAt(m0, s, j), n) ==> TableFrame(EntryAt(m, c, j)) in own
  }

  lemma EndRepointed(m0: Memory, s: Frame, m: Memory, c: Frame, n: nat, own: set<Frame>)
    requires n > 1 && Progress(m0, s, m, c, n, 512, own)
    ensures Repointed(m0, s, m, c, n, own)
  {
    hide Done, EntryAt, TableFrame, Copied, Cross, Same, Inj, Redirected, Within;
    forall j: Index | Copied(EntryAt(m0, s, j), n) ensures TableFrame(EntryAt(m, c, j)) in own {
      DoneEnds(j);
      assert BranchOk(m0, EntryAt(m0, s, j), m, EntryAt(m, c, j), n, own);
      WithinSelf(m, TableFrame(EntryAt(m, c, j)), n - 1, own);
    }
  }
}
