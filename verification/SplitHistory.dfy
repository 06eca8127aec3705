/** Any number of runs with the same target, each started from whatever its inspection counted
    and stopped at any operation: when they still end where one uninterrupted run ends. */
module SplitHistory {
  import opened Wrappers
  import opened SplitLayout
  import opened SplitResume

  // ---------- any inspection keeps the closed splits full ----------

  /** A run never believes its split to hold more rows than it does. */
  ghost predicate Sound(p: Params, s: Progress) {
    OnTable(s) && ClosedFull(p, s.counts) && s.seen <= s.counts[s.split - 1]
  }

  lemma AdvanceSound(p: Params, s: Progress)
    requires p.Valid() && Sound(p, s)
    ensures Sound(p, Advance(p, s))
  {}

  /** Splits are only added and rows are only added. */
  ghost predicate Grows(l: seq<nat>, m: seq<nat>) {
    |l| <= |m| && forall j :: 0 <= j < |l| ==> l[j] <= m[j]
  }

  /** Whatever the inspection counted and wherever the run stopped, closed splits are full. */
  lemma {:induction false} AfterSound(p: Params, s: Progress, k: nat)
    requires p.Valid() && Sound(p, s)
    ensures Sound(p, After(p, s, k)) && Grows(s.counts, After(p, s, k).counts)
  {
    if k > 0 {
      AfterSound(p, s, k - 1);
      AdvanceSound(p, After(p, s, k - 1));
    }
  }

  lemma ResumeSound(p: Params, l: Layout, k: nat, target: int)
    requires p.Valid() && ClosedFull(p, l) && k <= |l|
    ensures Sound(p, Resume(l, k, target))
  {}

  lemma {:induction false} AfterTotal(p: Params, s: Progress, k: nat)
    requires p.Valid()
    ensures Total(After(p, s, k).counts) + Max(0, After(p, s, k).left) == Total(s.counts) + Max(0, s.left)
    ensures After(p, s, k).left <= s.left
  {
    if k > 0 {
      hide Total;
      AfterTotal(p, s, k - 1);
      AdvanceTotal(p, After(p, s, k - 1));
    }
  }

  lemma {:induction false} AfterShift(p: Params, s: Progress, k: nat)
    requires p.Valid()
    ensures After(p, s, k + 1) == After(p, Advance(p, s), k)
  {
    if k > 0 {
      AfterShift(p, s, k - 1);
    } else {
      assert After(p, s, 0) == s && After(p, Advance(p, s), 0) == Advance(p, s);
    }
  }

  // ---------- what an uninterrupted run does to the splits there are ----------

  /** It leaves closed splits alone and fills the open one by at most its room. */
  lemma CompleteOnLayout(p: Params, target: int, l: Layout)
    requires p.Valid()
    ensures var m := Complete(p, target, l);
            && |m| >= |l| && (forall j :: 0 <= j < |l| - 1 ==> m[j] == l[j])
            && Last(l) <= m[|l| - 1] <= Last(l) + Room(p, Last(l))
  {
    hide Complete, Total, Room;
    RunClosedForm(p, target, l);
    PourFirst(p, Last(l), Max(0, target - Total(l)));
  }

  lemma PourFirst(p: Params, c: nat, rows: nat)
    requires p.Valid()
    ensures Pour(p, c, rows)[0] == c + Min(rows, Room(p, c))
  {}

  /** It never ends with an empty split. */
  lemma {:induction false} CompleteEndsFilled(p: Params, target: int, l: Layout)
    requires p.Valid() && Total(l) < target
    ensures Last(Complete(p, target, l)) > 0
    decreases Max(0, target - Total(l)), if Last(l) >= p.cap then 1 else 0
  {
    var next := Step(p, target, l);
    TotalSetLast(l, Last(l) + Min(p.batch, target - Total(l)));
    hide Total;
    if Total(next) < target {
      CompleteEndsFilled(p, target, next);
    }
  }

  // ---------- harmful inspections ----------

  /** The first state of a harmful run from which it writes: at the first split it did not see. */
  function Unseen(l: Layout, k: nat, target: int): Progress
    requires k < |l|
  {
    Progress(l, k + 1, 0, target - Total(l[..k]))
  }

  lemma HarmfulMeans(l: Layout, k: nat, target: int)
    requires k <= |l| && !Harmless(l, k, target)
    ensures k < |l| && Total(l[..k]) < Min(target, Total(l))
    ensures k == |l| - 1 ==> Total(l[..k]) == Total(l) - Last(l) && Last(l) > 0
  {
    assert l[..|l|] == l;
    PrefixTotal(l, k);
  }

  /** Up to opening a split that exists, a harmful run starts there. */
  lemma HarmfulFrom(p: Params, l: Layout, k: nat, target: int, i: nat) returns (j: nat)
    requires p.Valid() && ClosedFull(p, l) && k <= |l| && !Harmless(l, k, target)
    ensures k < |l| && After(p, Resume(l, k, target), i).counts == After(p, Unseen(l, k, target), j).counts
  {
    HarmfulMeans(l, k, target);
    hide Total;
    var s := Resume(l, k, target);
    assert After(p, Unseen(l, k, target), 0).counts == l;
    if k == 0 {
      j := i;
    } else if i == 0 {
      j := 0;
    } else {
      assert Advance(p, s) == Unseen(l, k, target);
      AfterShift(p, s, i - 1);
      j := i - 1;
    }
  }

  /** Either it has done nothing yet, or the first unseen split has gained rows. */
  lemma HarmfulWrites(p: Params, l: Layout, k: nat, target: int, j: nat)
    requires p.Valid() && ClosedFull(p, l) && k < |l| && !Harmless(l, k, target)
    ensures var m := After(p, Unseen(l, k, target), j).counts;
            |m| >= |l| && (m == l || (m[k] > l[k] && Total(m) > Total(l)))
  {
    HarmfulMeans(l, k, target);
    var s := Unseen(l, k, target);
    hide Total;
    if j > 0 {
      var next := Advance(p, s);
      var rows := Min(p.batch, s.left);
      assert rows > 0 && next.counts == l[k := l[k] + rows];
      TotalUpdate(l, k, rows);
      AdvanceTotal(p, s);
      AdvanceSound(p, s);
      AfterShift(p, s, j - 1);
      AfterSound(p, next, j - 1);
      AfterTotal(p, next, j - 1);
      GrownTotal(p, next, j - 1);
    }
  }

  lemma GrownTotal(p: Params, s: Progress, j: nat)
    requires p.Valid()
    ensures Total(After(p, s, j).counts) >= Total(s.counts)
  {
    hide Total, Advance;
    AfterTotal(p, s, j);
  }

  // ---------- the exact condition for one run ----------

  /** Nothing was missed; or nothing was written; or only the open split was missed, it took no
      more than its room, and the rows are within the target, with no empty split behind a
      reached target. */
  predicate KeepsEnd(p: Params, target: int, l: Layout, k: nat, m: seq<nat>)
    requires p.Valid() && k <= |l| <= |m|
  {
    || Harmless(l, k, target)
    || m == l
    || (&& k == |l| - 1
        && m[|l| - 1] <= Last(l) + Room(p, Last(l))
        && Total(m) <= target
        && (Total(m) == target ==> m[|m| - 1] > 0))
  }

  /** Within these limits a run that missed the open split does what an all-seeing one does. */
  ghost predicate OnPath(p: Params, l: Layout, s: Progress)
    requires p.Valid()
  {
    if s.split == |l| then
      s.counts == l[|l| - 1 := Last(l) + s.seen] && Room(p, Last(l)) == s.seen + Room(p, Last(l) + s.seen)
    else
      s.split == |s.counts| > |l| && s.seen == s.counts[|s.counts| - 1]
  }

  ghost predicate WithinLimits(p: Params, target: int, l: Layout, m: seq<nat>)
    requires p.Valid()
  {
    && |m| >= |l| && m[|l| - 1] <= Last(l) + Room(p, Last(l))
    && Total(m) <= target && (Total(m) == target ==> m[|m| - 1] > 0)
  }

  /** Being within the limits now means having been within them before. */
  lemma LimitsBefore(p: Params, target: int, l: Layout, s: Progress)
    requires p.Valid() && Sound(p, s) && Grows(l, s.counts) && s.left > 0
    requires WithinLimits(p, target, l, Advance(p, s).counts)
    ensures WithinLimits(p, target, l, s.counts)
  {
    AdvanceTotal(p, s);
    hide Total, Room;
    AdvanceSound(p, s);
    if s.seen >= p.cap {
      TotalSnoc(s.counts);
    }
  }

  lemma {:induction false} HarmfulPath(p: Params, target: int, l: Layout, j: nat)
    requires p.Valid() && ClosedFull(p, l) && Last(l) > 0
    requires !Harmless(l, |l| - 1, target)
    requires WithinLimits(p, target, l, After(p, Unseen(l, |l| - 1, target), j).counts)
    ensures var s := After(p, Unseen(l, |l| - 1, target), j);
            OnPath(p, l, s) && Leaves(p, target, l, s.counts)
  {
    hide After, Unseen, Harmless, Advance, Total, ClosedFull, OnPath, Room, Leaves, Step;
    if j == 0 {
      PathStart(p, target, l);
    } else {
      var s := After(p, Unseen(l, |l| - 1, target), j - 1);
      AfterNext(p, Unseen(l, |l| - 1, target), j - 1);
      assert Total(Advance(p, s).counts) <= target;
      hide WithinLimits, Sound, Grows;
      FirstSound(p, target, l, j - 1);
      LimitsBefore(p, target, l, s);
      HarmfulPath(p, target, l, j - 1);
      SoundTotal(p, target, l, s);
      PathStep(p, target, l, s);
      PathLeaves(p, target, l, s.counts);
    }
  }

  lemma AfterNext(p: Params, s: Progress, k: nat)
    requires p.Valid()
    ensures After(p, s, k + 1) == Advance(p, After(p, s, k))
  {}

  lemma PathStart(p: Params, target: int, l: Layout)
    requires p.Valid() && !Harmless(l, |l| - 1, target)
    ensures var s := After(p, Unseen(l, |l| - 1, target), 0);
            OnPath(p, l, s) && Leaves(p, target, l, s.counts)
  {
    hide Total, Harmless, Room;
    assert Iterate(p, target, l, 0) == l;
    assert l[|l| - 1 := Last(l) + 0] == l;
  }

  lemma SoundTotal(p: Params, target: int, l: Layout, s: Progress)
    requires p.Valid() && WithinLimits(p, target, l, s.counts) && Sound(p, s)
    ensures s.counts != [] && Total(s.counts) <= target
  {
    hide Total, Room;
  }

  lemma FirstSound(p: Params, target: int, l: Layout, j: nat)
    requires p.Valid() && ClosedFull(p, l) && !Harmless(l, |l| - 1, target)
    requires Total(After(p, Unseen(l, |l| - 1, target), j + 1).counts) <= target
    ensures var s := After(p, Unseen(l, |l| - 1, target), j);
            && Sound(p, s) && Grows(l, s.counts)
            && s.left > 0 && Total(s.counts) + s.left == target + Last(l)
  {
    var first := Unseen(l, |l| - 1, target);
    HarmfulMeans(l, |l| - 1, target);
    hide Total, Harmless;
    AfterSound(p, first, j);
    AfterTotal(p, first, j);
    AfterTotal(p, first, j + 1);
    AdvanceTotal(p, After(p, first, j));
  }

  lemma PathLeaves(p: Params, target: int, l: Layout, m: Layout)
    requires p.Valid() && Leaves(p, target, l, m)
    ensures Leaves(p, target, l, Step(p, target, m))
  {
    var i: nat :| m == Iterate(p, target, l, i);
    assert Iterate(p, target, l, i + 1) == Step(p, target, m);
  }

  lemma PathStep(p: Params, target: int, l: Layout, s: Progress)
    requires p.Valid() && OnPath(p, l, s) && s.counts != [] && Total(s.counts) <= target
    requires Last(l) > 0 && Total(s.counts) + s.left == target + Last(l)
    requires WithinLimits(p, target, l, Advance(p, s).counts)
    ensures OnPath(p, l, Advance(p, s)) && Advance(p, s).counts == Step(p, target, s.counts)
  {
    if s.seen >= p.cap {
      PathOpens(p, target, l, s);
    } else {
      PathFlushes(p, target, l, s);
    }
  }

  lemma PathOpens(p: Params, target: int, l: Layout, s: Progress)
    requires p.Valid() && OnPath(p, l, s) && s.counts != [] && Total(s.counts) <= target
    requires s.left > 0 && s.seen >= p.cap
    requires WithinLimits(p, target, l, Advance(p, s).counts)
    ensures OnPath(p, l, Advance(p, s)) && Advance(p, s).counts == Step(p, target, s.counts)
  {
    hide Total, Room;
    TotalSnoc(s.counts);
    assert Advance(p, s) == Progress(s.counts + [0], s.split + 1, 0, s.left);
  }

  /** The limits leave no flush smaller than a batch, and none beyond the room. */
  lemma PathFlushes(p: Params, target: int, l: Layout, s: Progress)
    requires p.Valid() && OnPath(p, l, s) && s.counts != [] && Total(s.counts) <= target
    requires Last(l) > 0 && Total(s.counts) + s.left == target + Last(l) && s.seen < p.cap
    requires WithinLimits(p, target, l, Advance(p, s).counts)
    ensures OnPath(p, l, Advance(p, s)) && Advance(p, s).counts == Step(p, target, s.counts)
  {
    AdvanceTotal(p, s);
    hide Total;
    var rows, n := Min(p.batch, s.left), |s.counts|;
    assert Advance(p, s) == Progress(s.counts[n - 1 := s.counts[n - 1] + rows], n, s.seen + rows, s.left - rows);
    assert rows == p.batch;
    if s.split == |l| {
      RoomStep(p, Last(l) + s.seen);
    }
    hide Room;
    assert Last(s.counts) < p.cap;
    assert Min(p.batch, target - Total(s.counts)) == p.batch;
  }

  lemma RoomStep(p: Params, c: nat)
    requires p.Valid()
    ensures Room(p, c) == if c >= p.cap then 0 else p.batch + Room(p, c + p.batch)
  {}

  lemma AfterResume(p: Params, target: int, l: Layout, k: nat, i: nat)
    requires p.Valid() && ClosedFull(p, l) && k <= |l|
    ensures var m := After(p, Resume(l, k, target), i).counts;
            m != [] && ClosedFull(p, m) && Grows(l, m)
  {
    hide Total;
    ResumeSound(p, l, k, target);
    AfterSound(p, Resume(l, k, target), i);
  }

  lemma EndOfLeaves(p: Params, target: int, l: Layout, m: Layout)
    requires p.Valid() && Leaves(p, target, l, m)
    ensures Complete(p, target, m) == Complete(p, target, l)
  {
    var i: nat :| m == Iterate(p, target, l, i);
    CompleteAfterIterate(p, target, l, i);
  }

  /** Necessary: a harmful run that wrote, and behind which later rows can still make the runs
      end right, stayed within the limits. What it breaks is never repaired. */
  lemma EndKeptMeans(p: Params, target: int, l: Layout, k: nat, m: Layout, later: Layout)
    requires p.Valid() && k < |l| && Grows(l, m) && Total(m) > Total(l) && m[k] > l[k] && Grows(m, later)
    requires Complete(p, target, later) == Complete(p, target, l)
    ensures k == |l| - 1 && WithinLimits(p, target, l, m)
  {
    EndTotals(p, target, l, later);
    CompleteOnLayout(p, target, l);
    CompleteOnLayout(p, target, later);
    GrowsTotal(m, later);
    hide Total, Room, Complete;
    if Total(m) == target {
      TargetFilled(p, target, l, m, later);
    }
  }

  lemma EndTotals(p: Params, target: int, l: Layout, later: Layout)
    requires p.Valid() && Complete(p, target, later) == Complete(p, target, l)
    ensures Max(Total(later), target) == Max(Total(l), target)
  {
    CompleteReachesTarget(p, target, l);
    CompleteReachesTarget(p, target, later);
  }

  /** No empty split is left behind a reached target. */
  lemma TargetFilled(p: Params, target: int, l: Layout, m: Layout, later: Layout)
    requires p.Valid() && Total(l) < target && Total(m) == Total(later) == target && Grows(m, later)
    requires Complete(p, target, later) == Complete(p, target, l)
    ensures Last(m) > 0
  {
    CompleteEndsFilled(p, target, l);
    AlreadyComplete(p, target, later);
    GrowsTotal(m, later);
  }

  lemma AlreadyComplete(p: Params, target: int, l: Layout)
    requires p.Valid() && Total(l) >= target
    ensures Complete(p, target, l) == l
  {}

  /** Growing adds rows, and with equal totals only empty splits. */
  lemma {:induction false} GrowsTotal(l: seq<nat>, m: seq<nat>)
    requires Grows(l, m)
    ensures Total(l) <= Total(m)
    ensures Total(l) == Total(m) ==>
              (forall j :: 0 <= j < |l| ==> m[j] == l[j]) && (forall j :: |l| <= j < |m| ==> m[j] == 0)
  {
    if m != [] {
      if |m| > |l| {
        GrowsTotal(l, m[..|m| - 1]);
      } else {
        GrowsTotal(l[..|l| - 1], m[..|m| - 1]);
      }
    }
  }

  /** Main result: from any layout whose closed splits are full, with any inspection and stopped
      at any operation, a run leaves the runs ending where they would have ended if and only if
      it keeps the condition above. */
  lemma RunKeepsEndIff(p: Params, target: int, l: Layout, k: nat, i: nat)
    requires p.Valid() && ClosedFull(p, l) && k <= |l|
    ensures var m := After(p, Resume(l, k, target), i).counts;
            && m != [] && Grows(l, m)
            && (Complete(p, target, m) == Complete(p, target, l) <==> KeepsEnd(p, target, l, k, m))
  {
    AfterResume(p, target, l, k, i);
    var m := After(p, Resume(l, k, target), i).counts;
    hide Total, After, Complete, Room;
    if Harmless(l, k, target) {
      HarmlessLeaves(p, l, k, target, i);
      EndOfLeaves(p, target, l, m);
    } else {
      HarmfulMeans(l, k, target);
      var j := HarmfulFrom(p, l, k, target, i);
      HarmfulWrites(p, l, k, target, j);
      if m != l {
        if Complete(p, target, m) == Complete(p, target, l) {
          EndKeptMeans(p, target, l, k, m, m);
        }
        if KeepsEnd(p, target, l, k, m) {
          HarmfulPath(p, target, l, j);
          EndOfLeaves(p, target, l, m);
        }
      }
    }
  }

  /** Harmful and yet harmless: nothing counted, five rows there, stopped after ten more. And
      harmful at the very last moment: the target is reached, but a split was opened behind it. */
  lemma HarmfulExamples()
    ensures var p := Params(100, 10);
            var m := After(p, Resume([5], 0, 50), 1).counts;
            !Harmless([5], 0, 50) && m == [15] && Complete(p, 50, m) == Complete(p, 50, [5])
    ensures var p := Params(100, 100);
            var m := After(p, Resume([1], 0, 101), 2).counts;
            m == [101, 0] && Complete(p, 101, m) != Complete(p, 101, [1])
  {
    TotalOne(1);
    TotalOne(5);
    TotalOne(15);
    TotalOne(101);
    TotalSnoc([101]);
    assert [5][..0] == [] && [1][..0] == [] && [101] + [0] == [101, 0];
    var p, q := Params(100, 10), Params(100, 100);
    AfterNext(p, Resume([5], 0, 50), 0);
    AfterNext(q, Resume([1], 0, 101), 0);
    AfterNext(q, Resume([1], 0, 101), 1);
    assert After(q, Resume([1], 0, 101), 1) == Progress([101], 1, 100, 1);
    hide Total, Complete, Room;
    RoomStep(p, 5);
    RunKeepsEndIff(p, 50, [5], 0, 1);
    RunKeepsEndIff(q, 101, [1], 0, 2);
  }

  // ---------- any number of runs ----------

  /** A run of the history: how many splits its inspection counted, and how many operations it
      got to. A run that ends is one that got far enough. */
  datatype Attempt = Attempt(seen: nat, ops: nat)

  function Seen(l: Layout, a: Attempt): nat {
    Min(a.seen, |l|)
  }

  lemma {:induction false} AfterSome(p: Params, s: Progress, k: nat)
    requires p.Valid()
    ensures |After(p, s, k).counts| >= |s.counts|
  {
    if k > 0 {
      AfterSome(p, s, k - 1);
    }
  }

  function LayoutAfter(p: Params, target: int, l: Layout, attempts: seq<Attempt>): Layout
    requires p.Valid()
  {
    if attempts == [] then l
    else
      var before, a := LayoutAfter(p, target, l, attempts[..|attempts| - 1]), attempts[|attempts| - 1];
      AfterSome(p, Resume(before, Seen(before, a), target), a.ops);
      After(p, Resume(before, Seen(before, a), target), a.ops).counts
  }

  /** Every run of the history met the condition. */
  ghost predicate AllKeepEnd(p: Params, target: int, l: Layout, attempts: seq<Attempt>)
    requires p.Valid()
  {
    attempts != [] ==>
      var front, a := attempts[..|attempts| - 1], attempts[|attempts| - 1];
      var before, after := LayoutAfter(p, target, l, front), LayoutAfter(p, target, l, attempts);
      && AllKeepEnd(p, target, l, front)
      && |before| <= |after|
      && KeepsEnd(p, target, before, Seen(before, a), after)
  }

  lemma HistoryNext(p: Params, target: int, l: Layout, attempts: seq<Attempt>, a: Attempt)
    requires p.Valid()
    ensures var before := LayoutAfter(p, target, l, attempts);
            var after := LayoutAfter(p, target, l, attempts + [a]);
            && after == After(p, Resume(before, Seen(before, a), target), a.ops).counts
            && |before| <= |after|
            && (AllKeepEnd(p, target, l, attempts + [a]) <==>
                AllKeepEnd(p, target, l, attempts) && KeepsEnd(p, target, before, Seen(before, a), after))
  {
    hide KeepsEnd, After, Resume;
    assert (attempts + [a])[..|attempts|] == attempts;
    var before := LayoutAfter(p, target, l, attempts);
    AfterSome(p, Resume(before, Seen(before, a), target), a.ops);
    ResumeCounts(before, Seen(before, a), target);
  }

  lemma ResumeCounts(l: Layout, k: nat, target: int)
    requires k <= |l|
    ensures Resume(l, k, target).counts == l
  {}

  lemma {:induction false} HistoryFull(p: Params, target: int, l: Layout, attempts: seq<Attempt>)
    requires p.Valid() && ClosedFull(p, l)
    ensures ClosedFull(p, LayoutAfter(p, target, l, attempts))
  {
    if attempts != [] {
      hide After, Resume;
      var front, a := attempts[..|attempts| - 1], attempts[|attempts| - 1];
      HistoryFull(p, target, l, front);
      AfterResume(p, target, LayoutAfter(p, target, l, front), Seen(LayoutAfter(p, target, l, front), a), a.ops);
    }
  }

  ghost predicate EndsTheSame(p: Params, target: int, l: Layout, m: Layout)
    requires p.Valid()
  {
    Complete(p, target, m) == Complete(p, target, l)
  }

  /** Once broken, never repaired: if later rows can still make the runs end right, so could the
      layout the run left. */
  lemma NeverRepaired(p: Params, target: int, l: Layout, k: nat, i: nat, later: Layout)
    requires p.Valid() && ClosedFull(p, l) && k <= |l|
    requires Grows(After(p, Resume(l, k, target), i).counts, later)
    requires EndsTheSame(p, target, l, later)
    ensures After(p, Resume(l, k, target), i).counts != []
    ensures EndsTheSame(p, target, l, After(p, Resume(l, k, target), i).counts)
  {
    RunKeepsEndIff(p, target, l, k, i);
    hide Total, After, Complete, Room, Resume, Harmless, KeepsEnd, WithinLimits, ClosedFull, Grows;
    var m := After(p, Resume(l, k, target), i).counts;
    EasilyKept(p, target, l, k, m);
    if !Harmless(l, k, target) && m != l {
      HarmfulGains(p, target, l, k, i);
      EndKeptMeans(p, target, l, k, m, later);
      EasilyKept(p, target, l, k, m);
    }
  }

  lemma EasilyKept(p: Params, target: int, l: Layout, k: nat, m: Layout)
    requires p.Valid() && k <= |l| && Grows(l, m)
    ensures Harmless(l, k, target) || m == l || (k == |l| - 1 && WithinLimits(p, target, l, m)) ==>
              KeepsEnd(p, target, l, k, m)
  {
    hide Total, Room;
  }

  lemma HarmfulGains(p: Params, target: int, l: Layout, k: nat, i: nat)
    requires p.Valid() && ClosedFull(p, l) && k <= |l| && !Harmless(l, k, target)
    ensures var m := After(p, Resume(l, k, target), i).counts;
            k < |l| <= |m| && (m == l || (m[k] > l[k] && Total(m) > Total(l)))
  {
    HarmfulMeans(l, k, target);
    var j := HarmfulFrom(p, l, k, target, i);
    HarmfulWrites(p, l, k, target, j);
  }

  lemma {:induction false} HistoryUnbroken(p: Params, target: int, l: Layout, attempts: seq<Attempt>, later: Layout)
    requires p.Valid() && ClosedFull(p, l)
    requires Grows(LayoutAfter(p, target, l, attempts), later) && EndsTheSame(p, target, l, later)
    ensures AllKeepEnd(p, target, l, attempts) && EndsTheSame(p, target, l, LayoutAfter(p, target, l, attempts))
  {
    if attempts != [] {
      var front, a := attempts[..|attempts| - 1], attempts[|attempts| - 1];
      var before := LayoutAfter(p, target, l, front);
      HistoryFull(p, target, l, front);
      RunKeepsEndIff(p, target, before, Seen(before, a), a.ops);
      HistoryUnbroken(p, target, l, front, later);
      hide KeepsEnd, Complete, Resume, Seen, After;
      NeverRepaired(p, target, before, Seen(before, a), a.ops, later);
    }
  }

  /** Over any history: the runs still end where one uninterrupted run from the first layout
      ends if and only if every run met the condition. */
  lemma {:induction false} HistoryKeepsEndIff(p: Params, target: int, l: Layout, attempts: seq<Attempt>)
    requires p.Valid() && ClosedFull(p, l)
    ensures EndsTheSame(p, target, l, LayoutAfter(p, target, l, attempts)) <==> AllKeepEnd(p, target, l, attempts)
  {
    var last := LayoutAfter(p, target, l, attempts);
    if EndsTheSame(p, target, l, last) {
      HistoryUnbroken(p, target, l, attempts, last);
    }
    if AllKeepEnd(p, target, l, attempts) && attempts != [] {
      var front, a := attempts[..|attempts| - 1], attempts[|attempts| - 1];
      var before := LayoutAfter(p, target, l, front);
      HistoryFull(p, target, l, front);
      HistoryKeepsEndIff(p, target, l, front);
      hide Complete, Resume, Seen, After;
      RunKeepsEndIff(p, target, before, Seen(before, a), a.ops);
    }
  }

  /** A run that then succeeds leaves the layout of one uninterrupted run, from an empty first
      split the canonical one, if and only if every run before met the condition and its own
      inspection was harmless. */
  lemma SuccessIff(p: Params, target: nat, l: Layout, attempts: seq<Attempt>, k: nat)
    requires p.Valid() && ClosedFull(p, l) && k <= |LayoutAfter(p, target, l, attempts)|
    ensures var last := LayoutAfter(p, target, l, attempts);
            && (Finish(p, Resume(last, k, target)).counts == Settled(p, target, l)
                <==> AllKeepEnd(p, target, l, attempts) && Harmless(last, k, target))
            && (l == [0] ==> Settled(p, target, l) == Canonical(p, target))
  {
    HistoryKeepsEndIff(p, target, l, attempts);
    HistoryFull(p, target, l, attempts);
    var last := LayoutAfter(p, target, l, attempts);
    ResumeCorrectIff(p, last, k, target);
    CrashResumeConfluence(p, target, [l]);
    RunClosedForm(p, target, l);
    var final := Finish(p, Resume(last, k, target)).counts;
    FinishEnds(p, target, last, k);
    if final == Settled(p, target, l) {
      hide LayoutAfter, AllKeepEnd, Harmless, Finish, Resume, Complete, Settled;
      HistoryUnbroken(p, target, l, attempts, final);
    }
  }

  /** A finished run has reached the target, and only added rows. */
  lemma FinishEnds(p: Params, target: int, l: Layout, k: nat)
    requires p.Valid() && ClosedFull(p, l) && k <= |l|
    ensures var m := Finish(p, Resume(l, k, target)).counts;
            m != [] && Grows(l, m) && Complete(p, target, m) == m
  {
    var s := Resume(l, k, target);
    PrefixTotal(l, k);
    FinishTotal(p, s);
    var n := FinishIsAfter(p, s);
    AfterResume(p, target, l, k, n);
    AlreadyComplete(p, target, Finish(p, s).counts);
  }

  lemma {:induction false} FinishIsAfter(p: Params, s: Progress) returns (n: nat)
    requires p.Valid()
    ensures Finish(p, s) == After(p, s, n)
    decreases Max(0, s.left), if s.seen >= p.cap then 1 else 0
  {
    n := 0;
    if s.left > 0 && OnTable(s) {
      n := FinishIsAfter(p, Advance(p, s));
      AfterShift(p, s, n);
      n := n + 1;
    }
  }

  /** The same for the run that succeeds, as part of the history. */
  lemma SuccessInHistory(p: Params, target: int, l: Layout, attempts: seq<Attempt>, k: nat)
    requires p.Valid() && ClosedFull(p, l) && attempts != []
    requires var before := LayoutAfter(p, target, l, attempts[..|attempts| - 1]);
             k <= |before| && LayoutAfter(p, target, l, attempts) == Finish(p, Resume(before, k, target)).counts
    ensures LayoutAfter(p, target, l, attempts) == Settled(p, target, l) <==> AllKeepEnd(p, target, l, attempts)
  {
    HistoryKeepsEndIff(p, target, l, attempts);
    HistoryFull(p, target, l, attempts[..|attempts| - 1]);
    FinishEnds(p, target, LayoutAfter(p, target, l, attempts[..|attempts| - 1]), k);
    RunClosedForm(p, target, l);
  }
}
