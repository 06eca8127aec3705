/** A seeding run as its variables see it: where the inspection told it to start, whatever the
    tables really hold. */
module SplitResume {
  import opened Wrappers
  import opened SplitLayout

  /** The row counts of the tables, and the variables of the run: current split, rows believed
      to be in it, rows still to insert. */
  datatype Progress = Progress(counts: seq<nat>, split: nat, seen: nat, left: int)

  /** The start of a run whose inspection counted the first k splits. */
  function Resume(counts: seq<nat>, k: nat, target: int): Progress
    requires k <= |counts|
  {
    Progress(counts, Max(1, k), if k == 0 then 0 else counts[k - 1], target - Total(counts[..k]))
  }

  /** One database operation: open the next split unless it exists, or flush one batch. A
      flush into a missing table is refused. */
  function Advance(p: Params, s: Progress): Progress
    requires p.Valid()
  {
    if s.left <= 0 then s
    else if s.seen >= p.cap then
      Progress(if s.split == |s.counts| then s.counts + [0] else s.counts, s.split + 1, 0, s.left)
    else if 1 <= s.split <= |s.counts| then
      var rows := Min(p.batch, s.left);
      Progress(s.counts[s.split - 1 := s.counts[s.split - 1] + rows], s.split, s.seen + rows, s.left - rows)
    else s
  }

  function After(p: Params, s: Progress, k: nat): Progress
    requires p.Valid()
  {
    if k == 0 then s else Advance(p, After(p, s, k - 1))
  }

  /** The run on an existing split, or on none it believes to be filled. */
  predicate OnTable(s: Progress) {
    1 <= s.split <= |s.counts|
  }

  /** The run to its end. */
  function Finish(p: Params, s: Progress): Progress
    requires p.Valid()
    decreases Max(0, s.left), if s.seen >= p.cap then 1 else 0
  {
    if s.left <= 0 || !OnTable(s) then s else Finish(p, Advance(p, s))
  }

  lemma AdvanceOnTable(p: Params, s: Progress)
    requires p.Valid() && OnTable(s)
    ensures OnTable(Advance(p, s))
  {}

  /** Stopping anywhere and going on with the same variables changes nothing. */
  lemma {:induction false} FinishAfter(p: Params, s: Progress, k: nat)
    requires p.Valid() && OnTable(s)
    ensures OnTable(After(p, s, k)) && Finish(p, After(p, s, k)) == Finish(p, s)
  {
    if k > 0 {
      FinishAfter(p, s, k - 1);
      AdvanceOnTable(p, After(p, s, k - 1));
    }
  }

  // ---------- rows are conserved ----------

  lemma {:induction false} TotalUpdate(l: seq<nat>, i: nat, rows: nat)
    requires i < |l|
    ensures Total(l[i := l[i] + rows]) == Total(l) + rows
  {
    var m := l[i := l[i] + rows];
    if i < |l| - 1 {
      TotalUpdate(l[..|l| - 1], i, rows);
      assert m[..|m| - 1] == l[..|l| - 1][i := l[i] + rows];
    } else {
      assert m[..|m| - 1] == l[..|l| - 1];
    }
  }

  lemma TotalSnoc(l: seq<nat>)
    ensures Total(l + [0]) == Total(l)
  {
    assert (l + [0])[..|l|] == l;
  }

  lemma AdvanceTotal(p: Params, s: Progress)
    requires p.Valid()
    ensures Total(Advance(p, s).counts) + Max(0, Advance(p, s).left) == Total(s.counts) + Max(0, s.left)
  {
    hide Total;
    TotalSnoc(s.counts);
    if OnTable(s) {
      TotalUpdate(s.counts, s.split - 1, Min(p.batch, Max(0, s.left)));
    }
  }

  /** A run that ends adds exactly the rows it set out to add, whatever it has seen. */
  lemma {:induction false} FinishTotal(p: Params, s: Progress)
    requires p.Valid() && OnTable(s)
    ensures Finish(p, s).left <= 0
    ensures Total(Finish(p, s).counts) == Total(s.counts) + Max(0, s.left)
    decreases Max(0, s.left), if s.seen >= p.cap then 1 else 0
  {
    if s.left > 0 {
      AdvanceTotal(p, s);
      AdvanceOnTable(p, s);
      FinishTotal(p, Advance(p, s));
    }
  }

  // ---------- runs that see the truth ----------

  /** The variables describe the tables. */
  predicate Faithful(s: Progress, target: int) {
    && s.counts != [] && s.split == |s.counts| && s.seen == Last(s.counts)
    && s.left == target - Total(s.counts)
  }

  /** The run stands on the last closed split and has not seen the empty one behind it. */
  predicate Lagging(p: Params, s: Progress, target: int) {
    && |s.counts| >= 2 && s.split == |s.counts| - 1 && Last(s.counts) == 0
    && s.seen >= p.cap && s.left == target - Total(s.counts)
  }

  lemma AdvanceFaithful(p: Params, s: Progress, target: int)
    requires p.Valid() && Faithful(s, target)
    ensures Advance(p, s).counts == Step(p, target, s.counts) && Faithful(Advance(p, s), target)
  {
    hide Total;
    TotalSetLast(s.counts, Last(s.counts) + Min(p.batch, Max(0, s.left)));
  }

  lemma {:induction false} AfterFaithful(p: Params, s: Progress, target: int, k: nat)
    requires p.Valid() && Faithful(s, target)
    ensures Faithful(After(p, s, k), target)
    ensures After(p, s, k).counts == Iterate(p, target, s.counts, k)
  {
    if k > 0 {
      AfterFaithful(p, s, target, k - 1);
      AdvanceFaithful(p, After(p, s, k - 1), target);
    }
  }

  /** Opening a split that already exists brings a lagging run up to date. */
  lemma {:induction false} AfterLagging(p: Params, s: Progress, target: int, k: nat)
    requires p.Valid() && Lagging(p, s, target) && s.left > 0 && k >= 1
    ensures Faithful(After(p, s, k), target)
    ensures After(p, s, k).counts == Iterate(p, target, s.counts, k - 1)
  {
    if k == 1 {
      assert After(p, s, 0) == s;
    } else {
      AfterLagging(p, s, target, k - 1);
      AdvanceFaithful(p, After(p, s, k - 1), target);
    }
  }

  lemma {:induction false} FinishFaithful(p: Params, s: Progress, target: int)
    requires p.Valid() && Faithful(s, target)
    ensures Finish(p, s).counts == Complete(p, target, s.counts)
    decreases Max(0, s.left), if s.seen >= p.cap then 1 else 0
  {
    if s.left > 0 {
      AdvanceFaithful(p, s, target);
      FinishFaithful(p, Advance(p, s), target);
    }
  }

  // ---------- the exact condition ----------

  /** The inspection saw all rows, or enough of them to leave nothing to do. */
  predicate Harmless(counts: seq<nat>, k: nat, target: int)
    requires k <= |counts|
  {
    Total(counts[..k]) >= target || Total(counts[..k]) == Total(counts)
  }

  lemma {:induction false} PrefixTotal(counts: seq<nat>, k: nat)
    requires k <= |counts|
    ensures Total(counts[..k]) <= Total(counts)
    ensures Total(counts[..k]) == Total(counts) ==> forall j :: k <= j < |counts| ==> counts[j] == 0
  {
    if k == |counts| {
      assert counts[..k] == counts;
    } else {
      PrefixTotal(counts[..|counts| - 1], k);
      assert counts[..|counts| - 1][..k] == counts[..k];
    }
  }

  /** An inspection that saw all rows leaves the run faithful, or lagging by an empty split. */
  lemma SeenAll(p: Params, counts: Layout, k: nat, target: int)
    requires p.Valid() && ClosedFull(p, counts) && k <= |counts| && Total(counts[..k]) == Total(counts)
    ensures Faithful(Resume(counts, k, target), target) || Lagging(p, Resume(counts, k, target), target)
  {
    hide Total;
    PrefixTotal(counts, k);
    assert k < |counts| ==> counts[k] == 0;
  }

  /** A run that failed after a harmless inspection, at any operation, left a layout of the
      uninterrupted run. */
  lemma HarmlessLeaves(p: Params, counts: Layout, k: nat, target: int, i: nat)
    requires p.Valid() && ClosedFull(p, counts) && k <= |counts| && Harmless(counts, k, target)
    ensures After(p, Resume(counts, k, target), i).counts != []
    ensures Leaves(p, target, counts, After(p, Resume(counts, k, target), i).counts)
  {
    var s := Resume(counts, k, target);
    FinishAfter(p, s, i);
    if s.left <= 0 {
      NothingLeft(p, s, i);
      assert Iterate(p, target, counts, 0) == counts;
    } else {
      SeenAll(p, counts, k, target);
      if Faithful(s, target) {
        AfterFaithful(p, s, target, i);
      } else if i > 0 {
        AfterLagging(p, s, target, i);
      } else {
        assert Iterate(p, target, counts, 0) == counts;
      }
    }
  }

  lemma {:induction false} NothingLeft(p: Params, s: Progress, i: nat)
    requires p.Valid() && s.left <= 0
    ensures After(p, s, i) == s && Finish(p, s) == s
  {
    if i > 0 {
      NothingLeft(p, s, i - 1);
    }
  }

  /** Main result: a run that ends leaves what an uninterrupted, all-seeing run leaves if and
      only if its inspection counted at least the target, or all rows there are. */
  lemma ResumeCorrectIff(p: Params, counts: Layout, k: nat, target: int)
    requires p.Valid() && ClosedFull(p, counts) && k <= |counts|
    ensures Finish(p, Resume(counts, k, target)).counts == Complete(p, target, counts)
            <==> Harmless(counts, k, target)
    ensures Total(Finish(p, Resume(counts, k, target)).counts)
            == Total(counts) + Max(0, target - Total(counts[..k]))
  {
    var s := Resume(counts, k, target);
    PrefixTotal(counts, k);
    FinishTotal(p, s);
    CompleteReachesTarget(p, target, counts);
    if Harmless(counts, k, target) {
      HarmlessFinish(p, counts, k, target);
    }
  }

  lemma HarmlessFinish(p: Params, counts: Layout, k: nat, target: int)
    requires p.Valid() && ClosedFull(p, counts) && k <= |counts| && Harmless(counts, k, target)
    ensures Finish(p, Resume(counts, k, target)).counts == Complete(p, target, counts)
  {
    var s := Resume(counts, k, target);
    PrefixTotal(counts, k);
    if s.left > 0 {
      SeenAll(p, counts, k, target);
      if !Faithful(s, target) {
        assert Advance(p, s) == After(p, s, 1) by { assert After(p, s, 0) == s; }
        AfterLagging(p, s, target, 1);
        assert Iterate(p, target, counts, 0) == counts;
        FinishFaithful(p, Advance(p, s), target);
      } else {
        FinishFaithful(p, s, target);
      }
    }
  }

  /** The damage at the smallest input: with the one split's count failing, a whole target is
      added to the rows that are there, past the cap if the two exceed it. */
  lemma UnseenSplitOverfilled(p: Params, c: nat, target: nat)
    requires p.Valid() && c >= 1 && 1 <= target <= p.cap
    ensures Finish(p, Resume([c], 0, target)).counts == [c + target]
    ensures c < p.cap ==> Complete(p, target, [c]) == [Max(c, target)] != [c + target]
  {
    assert [c][..0] == [] && Total([]) == 0;
    TotalOne(c);
    FillOne(p, c, 0, target);
    if c < p.cap && c < target {
      RunClosedForm(p, target, [c]);
      RoomRoundsUp(p, c);
    }
  }

  lemma {:induction false} FillOne(p: Params, c: nat, seen: nat, left: nat)
    requires p.Valid() && seen + left <= p.cap
    ensures Finish(p, Progress([c], 1, seen, left)).counts == [c + left]
    decreases left
  {
    if left > 0 {
      var rows := Min(p.batch, left);
      assert Advance(p, Progress([c], 1, seen, left)) == Progress([c + rows], 1, seen + rows, left - rows);
      FillOne(p, c + rows, seen + rows, left - rows);
    }
  }
}
