/** Row counts of the numbered split tables of one shard, and how a seeding run changes them.
    A layout lists the customers counts of splits _1, _2, ... in order. */
module SplitLayout {
  import opened Wrappers
  import opened Arith

  type Layout = l: seq<nat> | |l| > 0 witness [0]

  /** Split row cap and insert batch size; the program runs with both at least 1. */
  datatype Params = Params(cap: nat, batch: nat) {
    predicate Valid() {
      cap >= 1 && batch >= 1
    }
  }

  function Total(l: seq<nat>): nat {
    if l == [] then 0 else Total(l[..|l| - 1]) + l[|l| - 1]
  }

  function Last(l: Layout): nat {
    l[|l| - 1]
  }

  function SetLast(l: Layout, n: nat): Layout {
    l[|l| - 1 := n]
  }

  /** One database operation of a run: open the next split, or flush one batch. */
  function Step(p: Params, target: int, l: Layout): Layout
    requires p.Valid()
  {
    if Total(l) >= target then l
    else if Last(l) >= p.cap then l + [0]
    else SetLast(l, Last(l) + Min(p.batch, target - Total(l)))
  }

  lemma TotalSetLast(l: Layout, n: nat)
    ensures Total(SetLast(l, n)) == Total(l) - Last(l) + n
    ensures Total(l + [0]) == Total(l)
  {
    assert SetLast(l, n)[..|l| - 1] == l[..|l| - 1];
    assert (l + [0])[..|l|] == l;
  }

  lemma TotalOne(n: nat)
    ensures Total([n]) == n
  {
    assert [n][..0] == [];
  }

  /** What k operations of a run leave behind: the state of a run stopped there. */
  function Iterate(p: Params, target: int, l: Layout, k: nat): Layout
    requires p.Valid()
  {
    if k == 0 then l else Step(p, target, Iterate(p, target, l, k - 1))
  }

  lemma IterateNext(p: Params, target: int, l: Layout, k: nat)
    requires p.Valid()
    ensures Iterate(p, target, l, k + 1) == Step(p, target, Iterate(p, target, l, k))
  {}

  /** An uninterrupted run. */
  function Complete(p: Params, target: int, l: Layout): Layout
    requires p.Valid()
    decreases Max(0, target - Total(l)), if Last(l) >= p.cap then 1 else 0
  {
    if Total(l) >= target then l
    else
      TotalSetLast(l, Last(l) + Min(p.batch, target - Total(l)));
      Complete(p, target, Step(p, target, l))
  }

  /** A run that failed somewhere leaves one of these layouts. */
  ghost predicate Leaves(p: Params, target: int, l: Layout, l': Layout)
    requires p.Valid()
  {
    exists k: nat :: l' == Iterate(p, target, l, k)
  }

  lemma {:induction false} CompleteAfterIterate(p: Params, target: int, l: Layout, k: nat)
    requires p.Valid()
    ensures Complete(p, target, Iterate(p, target, l, k)) == Complete(p, target, l)
  {
    if k > 0 {
      CompleteAfterIterate(p, target, l, k - 1);
      var m := Iterate(p, target, l, k - 1);
      assert Complete(p, target, Step(p, target, m)) == Complete(p, target, m);
    }
  }

  /** Rows still flushed, in whole batches, into a split of c rows before it is closed. */
  function Room(p: Params, c: nat): nat
    requires p.Valid()
    decreases Max(0, p.cap - c)
  {
    if c >= p.cap then 0 else p.batch + Room(p, c + p.batch)
  }

  /** Rows of a split that was opened empty and then closed. */
  function FullSplit(p: Params): nat
    requires p.Valid()
  {
    Room(p, 0)
  }

  lemma {:induction false} RoomRoundsUp(p: Params, c: nat)
    requires p.Valid() && c < p.cap
    ensures Room(p, c) == p.batch * ((p.cap - c + p.batch - 1) / p.batch)
    ensures p.cap <= c + Room(p, c) < p.cap + p.batch
    decreases p.cap - c
  {
    var x := p.cap - c - 1;
    DivStep(x, p.batch);
    DivMod(x, p.batch);
    Distribute(p.batch, x / p.batch, 1);
    if c + p.batch < p.cap {
      RoomRoundsUp(p, c + p.batch);
      assert x == p.cap - (c + p.batch) + p.batch - 1;
    } else {
      DivUnique(x, p.batch, 0, x);
    }
  }

  /** Closed form: pouring rows into an open split of c rows and, once it is closed, into
      fresh ones. */
  function Pour(p: Params, c: nat, rows: nat): Layout
    requires p.Valid()
    decreases rows, if c >= p.cap then 1 else 0
  {
    if rows <= Room(p, c) then [c + rows]
    else [c + Room(p, c)] + Pour(p, 0, rows - Room(p, c))
  }

  /** The layout of rows poured into empty splits. */
  function Canonical(p: Params, rows: nat): Layout
    requires p.Valid()
  {
    Pour(p, 0, rows)
  }

  /** Closed form of an uninterrupted run from any layout. */
  function Settled(p: Params, target: int, l: Layout): Layout
    requires p.Valid()
  {
    l[..|l| - 1] + Pour(p, Last(l), Max(0, target - Total(l)))
  }

  /** Main result: an uninterrupted run computes the closed form. */
  lemma {:induction false} RunClosedForm(p: Params, target: int, l: Layout)
    requires p.Valid()
    ensures Complete(p, target, l) == Settled(p, target, l)
    decreases Max(0, target - Total(l)), if Last(l) >= p.cap then 1 else 0
  {
    if Total(l) < target {
      TotalSetLast(l, Last(l) + Min(p.batch, target - Total(l)));
      RunClosedForm(p, target, Step(p, target, l));
      StepSettles(p, target, l);
    } else {
      assert l == l[..|l| - 1] + [Last(l)];
    }
  }

  /** One operation does not change where the run ends. */
  lemma StepSettles(p: Params, target: int, l: Layout)
    requires p.Valid() && Total(l) < target
    ensures Settled(p, target, Step(p, target, l)) == Settled(p, target, l)
  {
    hide Total;
    hide Pour;
    var c, rest := Last(l), target - Total(l);
    TotalSetLast(l, c + Min(p.batch, rest));
    var front := l[..|l| - 1];
    assert l == front + [c];
    if c >= p.cap {
      PourOnward(p, c, rest);
      assert (l + [0])[..|l|] == l;
      assert front + ([c] + Pour(p, 0, rest)) == l + Pour(p, 0, rest);
    } else {
      PourBatch(p, c, rest);
      assert SetLast(l, c + Min(p.batch, rest))[..|l| - 1] == front;
    }
  }

  lemma PourOnward(p: Params, c: nat, rows: nat)
    requires p.Valid() && c >= p.cap && rows > 0
    ensures Pour(p, c, rows) == [c] + Pour(p, 0, rows)
  {}

  lemma PourBatch(p: Params, c: nat, rows: nat)
    requires p.Valid() && c < p.cap
    ensures Pour(p, c, rows) == Pour(p, c + Min(p.batch, rows), rows - Min(p.batch, rows))
  {
    assert Room(p, c) == p.batch + Room(p, c + p.batch);
  }

  /** Crash/resume confluence. `history` lists the layouts found by successive runs with the
      same target; every run but the one to come failed somewhere. When that run succeeds, the
      layout is the one a single uninterrupted run would have left, and running again changes
      nothing. */
  lemma {:induction false} CrashResumeConfluence(p: Params, target: nat, history: seq<Layout>)
    requires p.Valid() && |history| > 0
    requires forall i :: 0 <= i < |history| - 1 ==> Leaves(p, target, history[i], history[i + 1])
    ensures var final := Complete(p, target, history[|history| - 1]);
            && final == Settled(p, target, history[0])
            && (history[0] == [0] ==> final == Canonical(p, target))
            && Complete(p, target, final) == final
  {
    var last := |history| - 1;
    if last == 0 {
      RunClosedForm(p, target, history[0]);
      TotalOne(0);
    } else {
      assert Leaves(p, target, history[last - 1], history[last]);
      var k: nat :| history[last] == Iterate(p, target, history[last - 1], k);
      CompleteAfterIterate(p, target, history[last - 1], k);
      CrashResumeConfluence(p, target, history[..last]);
    }
    CompleteReachesTarget(p, target, history[last]);
  }

  /** A finished run holds at least its target and is a fixed point. */
  lemma {:induction false} CompleteReachesTarget(p: Params, target: int, l: Layout)
    requires p.Valid()
    ensures Total(Complete(p, target, l)) == Max(Total(l), target)
    ensures Complete(p, target, Complete(p, target, l)) == Complete(p, target, l)
    decreases Max(0, target - Total(l)), if Last(l) >= p.cap then 1 else 0
  {
    if Total(l) < target {
      TotalSetLast(l, Last(l) + Min(p.batch, target - Total(l)));
      CompleteReachesTarget(p, target, Step(p, target, l));
    }
  }

  /** Canonical layouts spelled out: S is the cap rounded up to whole batches, and split j + 1
      of ceil(rows / S) splits holds min(S, rows - j * S) rows. */
  lemma {:induction false} CanonicalShape(p: Params, rows: nat)
    requires p.Valid() && rows >= 1
    ensures FullSplit(p) == p.batch * ((p.cap + p.batch - 1) / p.batch)
    ensures |Canonical(p, rows)| == (rows + FullSplit(p) - 1) / FullSplit(p)
    ensures forall j :: 0 <= j < |Canonical(p, rows)| ==>
              Canonical(p, rows)[j] == Min(FullSplit(p), rows - j * FullSplit(p)) > 0
    decreases rows
  {
    RoomRoundsUp(p, 0);
    var size := FullSplit(p);
    assert size == Room(p, 0);
    DivStep(rows - 1, size);
    if rows <= size {
      DivUnique(rows - 1, size, 0, rows - 1);
    } else {
      CanonicalShape(p, rows - size);
      var rest := Canonical(p, rows - size);
      assert Canonical(p, rows) == [size] + rest;
      hide *;
      ShapeNext(rest, rows, size);
    }
  }

  lemma ShapeNext(rest: seq<nat>, rows: nat, size: nat)
    requires rows > size > 0
    requires forall j :: 0 <= j < |rest| ==> rest[j] == Min(size, rows - size - j * size) > 0
    ensures forall j :: 0 <= j <= |rest| ==> ([size] + rest)[j] == Min(size, rows - j * size) > 0
  {
    forall j | 0 <= j <= |rest|
      ensures ([size] + rest)[j] == Min(size, rows - j * size) > 0
    {
      if j > 0 {
        Distribute(size, j - 1, 1);
        assert ([size] + rest)[j] == rest[j - 1];
      }
    }
  }

  /** Every split but the last is full and no split exceeds the cap by a whole batch. */
  ghost predicate WithinCapacity(p: Params, l: Layout) {
    && (forall j :: 0 <= j < |l| - 1 ==> p.cap <= l[j] < p.cap + p.batch)
    && Last(l) < p.cap + p.batch
  }

  /** Every split but the last is full, however many rows it or the last one holds. */
  ghost predicate ClosedFull(p: Params, l: seq<nat>) {
    forall j :: 0 <= j < |l| - 1 ==> p.cap <= l[j]
  }

  /** Closed splits stay full, and every split keeps its rows. */
  lemma {:induction false} ClosedFullKept(p: Params, target: int, l: Layout, k: nat)
    requires p.Valid() && ClosedFull(p, l)
    ensures ClosedFull(p, Iterate(p, target, l, k))
  {
    if k > 0 {
      ClosedFullKept(p, target, l, k - 1);
      hide Total;
    }
  }

  /** Closed splits keep their rows and the open one may grow. */
  ghost predicate Extends(l: Layout, m: Layout) {
    && |l| <= |m| && l[|l| - 1] <= m[|l| - 1]
    && forall j :: 0 <= j < |l| - 1 ==> m[j] == l[j]
  }

  /** Every reachable layout, over any runs with any targets, stopped anywhere, stays
      within capacity; closed splits never change and no run overshoots its target. */
  lemma {:induction false} CapacityKept(p: Params, target: int, l: Layout, k: nat)
    requires p.Valid() && WithinCapacity(p, l)
    ensures var m := Iterate(p, target, l, k);
            WithinCapacity(p, m) && Extends(l, m) && Total(l) <= Total(m) <= Max(Total(l), target)
  {
    if k > 0 {
      CapacityKept(p, target, l, k - 1);
      IterateNext(p, target, l, k - 1);
      hide Iterate;
      CapacityStep(p, target, l, Iterate(p, target, l, k - 1));
    }
  }

  lemma CapacityStep(p: Params, target: int, l: Layout, m: Layout)
    requires p.Valid() && WithinCapacity(p, m) && Extends(l, m)
    requires Total(l) <= Total(m) <= Max(Total(l), target)
    ensures var m' := Step(p, target, m);
            WithinCapacity(p, m') && Extends(l, m') && Total(l) <= Total(m') <= Max(Total(l), target)
  {
    hide Total;
    TotalSetLast(m, Last(m) + Min(p.batch, Max(0, target - Total(m))));
  }

  /** The cap is documented as the maximum of rows per split. One run from empty respects it
      exactly when the target fits into one split or the batch size divides the cap. */
  lemma CapRespectedIff(p: Params, rows: nat)
    requires p.Valid()
    ensures (forall j :: 0 <= j < |Canonical(p, rows)| ==> Canonical(p, rows)[j] <= p.cap)
            <==> rows <= p.cap || p.cap % p.batch == 0
  {
    RoomRoundsUp(p, 0);
    RoomExactIff(p, 0);
    if rows > 0 {
      CanonicalShape(p, rows);
    }
    assert Canonical(p, rows)[0] == Min(FullSplit(p), rows);
  }

  /** Runs with growing targets can overfill even when the batch divides the cap: after a run
      that stopped short of the cap at t1 rows, the next run pushes split _1 beyond the cap
      exactly when its own target does and the space left is no multiple of the batch size.
      (With cap 1,000,000 and batch 5,000 the default first target of 500 is such a t1.) */
  lemma SecondRunOverfillsIff(p: Params, t1: nat, t2: nat)
    requires p.Valid() && t1 < p.cap
    ensures Complete(p, t2, Complete(p, t1, [0]))[0] > p.cap
            <==> t2 > p.cap && (p.cap - t1) % p.batch != 0
  {
    TotalOne(0);
    TotalOne(t1);
    hide Total;
    hide Complete;
    RunClosedForm(p, t1, [0]);
    RunClosedForm(p, t2, [t1]);
    RoomRoundsUp(p, 0);
    RoomRoundsUp(p, t1);
    RoomExactIff(p, t1);
  }

  lemma RoomExactIff(p: Params, c: nat)
    requires p.Valid() && c < p.cap
    ensures c + Room(p, c) == p.cap <==> (p.cap - c) % p.batch == 0
  {
    RoomRoundsUp(p, c);
    var left := p.cap - c;
    var q := (left + p.batch - 1) / p.batch;
    DivMod(left, p.batch);
    if left % p.batch == 0 {
      DivUnique(left + p.batch - 1, p.batch, left / p.batch, p.batch - 1);
    } else if Room(p, c) == left {
      DivUnique(left, p.batch, q, 0);
      assert false;
    }
  }
}
