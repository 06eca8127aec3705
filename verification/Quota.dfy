/** Token buckets of one property: counters with rolling windows, refined to a log of every
    admitted request. Times are nanoseconds on a clock that never steps back. */
module Quota {

  import Arith

  const HOUR: nat := 3_600_000_000_000
  const DAY: nat := 24 * HOUR

  const DAILY_TOKEN_LIMIT: nat := 200_000
  const HOURLY_TOKEN_LIMIT: nat := 40_000
  const REALTIME_DAILY_LIMIT: nat := 10_000

  /** Start of the aligned window of the given width that contains t. */
  function Truncate(t: nat, width: nat): (w: nat)
    requires width > 0
    ensures w <= t < w + width
  {
    t - t % width
  }

  /** An admitted request. */
  datatype Entry = Entry(at: nat, cost: nat)

  /** Tokens admitted at times in [from, to). */
  function Spent(log: seq<Entry>, from: int, to: int): nat {
    if log == [] then 0
    else
      var e := log[|log| - 1];
      Spent(log[..|log| - 1], from, to) + if from <= e.at < to then e.cost else 0
  }

  function SpentInWindow(log: seq<Entry>, t: nat, width: nat): nat
    requires width > 0
  {
    Spent(log, Truncate(t, width), Truncate(t, width) + width)
  }

  /** The policy: a request is admitted when neither its hour nor its day would overrun. */
  predicate Admits(log: seq<Entry>, now: nat, n: nat) {
    && SpentInWindow(log, now, HOUR) + n <= HOURLY_TOKEN_LIMIT
    && SpentInWindow(log, now, DAY) + n <= DAILY_TOKEN_LIMIT
  }

  function Admitted(log: seq<Entry>, now: nat, n: nat): seq<Entry> {
    if Admits(log, now, n) then log + [Entry(now, n)] else log
  }

  /** A log every entry of which the policy admitted on the log before it. */
  predicate Budgeted(log: seq<Entry>) {
    log != [] ==>
      && Admits(log[..|log| - 1], log[|log| - 1].at, log[|log| - 1].cost)
      && Budgeted(log[..|log| - 1])
  }

  predicate AdmitsRealtime(log: seq<Entry>, now: nat) {
    SpentInWindow(log, now, DAY) + 1 <= REALTIME_DAILY_LIMIT
  }

  /** A realtime log every request of which was admitted at cost one. */
  predicate RealtimeBudgeted(log: seq<Entry>) {
    log != [] ==>
      && AdmitsRealtime(log[..|log| - 1], log[|log| - 1].at) && log[|log| - 1].cost == 1
      && RealtimeBudgeted(log[..|log| - 1])
  }

  ghost predicate AllBefore(log: seq<Entry>, t: int) {
    forall i :: 0 <= i < |log| ==> log[i].at < t
  }

  // ---------- the bucket ----------

  /** A counter stands for the part of the log from its window start on; nothing in the log
      lies beyond the window. */
  ghost predicate Counts(tokens: int, window: nat, width: nat, log: seq<Entry>)
    requires width > 0
  {
    && window % width == 0
    && tokens == Spent(log, window, window + width)
    && AllBefore(log, window + width)
  }

  /** The fields of a bucket. */
  datatype Counters = Counters(hourly: int, daily: int, realtime: int, hourWindow: nat, dayWindow: nat)

  /** Created with two clock readings, one per window. */
  function NewCounters(t1: nat, t2: nat): Counters {
    Counters(0, 0, 0, Truncate(t1, HOUR), Truncate(t2, DAY))
  }

  function Rolled(c: Counters, now: nat): Counters {
    var c' := if now - c.hourWindow >= HOUR then c.(hourly := 0, hourWindow := Truncate(now, HOUR)) else c;
    if now - c.dayWindow >= DAY then c'.(daily := 0, realtime := 0, dayWindow := Truncate(now, DAY)) else c'
  }

  /** A charge of n tokens, and whether it is refused. */
  function Charged(c: Counters, n: nat, now: nat): (Counters, bool) {
    var r := Rolled(c, now);
    if r.hourly + n > HOURLY_TOKEN_LIMIT || r.daily + n > DAILY_TOKEN_LIMIT then (r, true)
    else (r.(hourly := r.hourly + n, daily := r.daily + n), false)
  }

  function ChargedRealtime(c: Counters, now: nat): (Counters, bool) {
    var r := Rolled(c, now);
    if r.realtime + 1 > REALTIME_DAILY_LIMIT then (r, true) else (r.(realtime := r.realtime + 1), false)
  }

  /** The counters stand for the logs of all requests admitted up to a time. */
  ghost predicate Ledger(c: Counters, log: seq<Entry>, realtime: seq<Entry>, last: nat) {
    && c.hourWindow <= last && c.dayWindow <= last && Budgeted(log) && RealtimeBudgeted(realtime)
    && AllBefore(log, last + 1) && AllBefore(realtime, last + 1)
    && Counts(c.hourly, c.hourWindow, HOUR, log)
    && Counts(c.daily, c.dayWindow, DAY, log)
    && Counts(c.realtime, c.dayWindow, DAY, realtime)
  }

  lemma NewLedger(t1: nat, t2: nat)
    requires t1 <= t2
    ensures Ledger(NewCounters(t1, t2), [], [], t2)
  {
    TruncateAligned(t1, HOUR);
    TruncateAligned(t2, DAY);
  }

  lemma LedgerLater(c: Counters, log: seq<Entry>, realtime: seq<Entry>, last: nat, now: nat)
    requires Ledger(c, log, realtime, last) && last <= now
    ensures Ledger(c, log, realtime, now)
  {
    hide Counts, Budgeted, RealtimeBudgeted;
  }

  /** After rolling, each counter is the sum over the aligned window of the clock. */
  lemma RolledLedger(c: Counters, log: seq<Entry>, realtime: seq<Entry>, last: nat, now: nat)
    requires Ledger(c, log, realtime, last) && last <= now
    ensures var r := Rolled(c, now);
            && Ledger(r, log, realtime, now)
            && r.hourly == SpentInWindow(log, now, HOUR) && r.hourWindow == Truncate(now, HOUR)
            && r.daily == SpentInWindow(log, now, DAY) && r.dayWindow == Truncate(now, DAY)
            && r.realtime == SpentInWindow(realtime, now, DAY)
  {
    hide Spent, Truncate, Budgeted, RealtimeBudgeted, AllBefore, Counts;
    AllBeforeLater(log, last, now);
    AllBeforeLater(realtime, last, now);
    RollCounter(c.hourly, c.hourWindow, HOUR, log, now);
    RollCounter(c.daily, c.dayWindow, DAY, log, now);
    RollCounter(c.realtime, c.dayWindow, DAY, realtime, now);
  }

  /** A charge is refused exactly when the policy refuses it on the log. */
  lemma ChargedLedger(c: Counters, log: seq<Entry>, realtime: seq<Entry>, last: nat, n: nat, now: nat)
    requires Ledger(c, log, realtime, last) && last <= now
    ensures Charged(c, n, now).1 <==> !Admits(log, now, n)
    ensures Ledger(Charged(c, n, now).0, Admitted(log, now, n), realtime, now)
  {
    RolledLedger(c, log, realtime, last, now);
    hide Spent, Truncate, Counts, AllBefore, Budgeted, RealtimeBudgeted, Rolled;
    var r := Rolled(c, now);
    if Admits(log, now, n) {
      CountEntry(r.hourly, r.hourWindow, HOUR, log, now, n);
      CountEntry(r.daily, r.dayWindow, DAY, log, now, n);
      AllBeforeAppend(log, now, n);
      BudgetedAppend(log, now, n);
    }
  }

  function AdmittedRealtime(log: seq<Entry>, now: nat): seq<Entry> {
    if AdmitsRealtime(log, now) then log + [Entry(now, 1)] else log
  }

  lemma ChargedRealtimeLedger(c: Counters, log: seq<Entry>, realtime: seq<Entry>, last: nat, now: nat)
    requires Ledger(c, log, realtime, last) && last <= now
    ensures ChargedRealtime(c, now).1 <==> !AdmitsRealtime(realtime, now)
    ensures Ledger(ChargedRealtime(c, now).0, log, AdmittedRealtime(realtime, now), now)
  {
    RolledLedger(c, log, realtime, last, now);
    hide Spent, Truncate, Counts, AllBefore, Budgeted, RealtimeBudgeted, Rolled;
    var r := Rolled(c, now);
    if AdmitsRealtime(realtime, now) {
      CountEntry(r.realtime, r.dayWindow, DAY, realtime, now, 1);
      AllBeforeAppend(realtime, now, 1);
      RealtimeAppend(realtime, now);
    }
  }

  class Bucket {
    var hourlyTokens: int
    var dailyTokens: int
    var rtDailyTokens: int
    var hourWindow: nat
    var dayWindow: nat
    ghost var log: seq<Entry>
    ghost var realtime: seq<Entry>
    ghost var last: nat

    function State(): Counters
      reads this
    {
      Counters(hourlyTokens, dailyTokens, rtDailyTokens, hourWindow, dayWindow)
    }

    ghost predicate Valid()
      reads this
    {
      Ledger(State(), log, realtime, last)
    }

    constructor (t1: nat, t2: nat)
      requires t1 <= t2
      ensures Valid() && log == [] && realtime == [] && last == t2 && State() == NewCounters(t1, t2)
    {
      hourlyTokens, dailyTokens, rtDailyTokens := 0, 0, 0;
      hourWindow := Truncate(t1, HOUR);
      dayWindow := Truncate(t2, DAY);
      log, realtime, last := [], [], t2;
      new;
      NewLedger(t1, t2);
    }

    method Roll(now: nat)
      requires Valid() && now >= last
      modifies this
      ensures State() == Rolled(old(State()), now)
      ensures Valid() && log == old(log) && realtime == old(realtime) && last == now
      ensures hourlyTokens == SpentInWindow(log, now, HOUR)
      ensures dailyTokens == SpentInWindow(log, now, DAY)
      ensures rtDailyTokens == SpentInWindow(realtime, now, DAY)
      ensures hourWindow == Truncate(now, HOUR) && dayWindow == Truncate(now, DAY)
    {
      RolledLedger(State(), log, realtime, last, now);
      hide Ledger, SpentInWindow, Truncate;
      if now - hourWindow >= HOUR {
        hourlyTokens := 0;
        hourWindow := Truncate(now, HOUR);
      }
      if now - dayWindow >= DAY {
        dailyTokens := 0;
        rtDailyTokens := 0;
        dayWindow := Truncate(now, DAY);
      }
      last := now;
    }

    /** Refused exactly when the policy refuses on the log; then nothing is consumed. */
    method ConsumeReport(n: nat, now: nat) returns (cost: int, exhausted: bool)
      requires Valid() && now >= last
      modifies this
      ensures (State(), exhausted) == Charged(old(State()), n, now)
      ensures Valid() && last == now && realtime == old(realtime)
      ensures exhausted <==> !Admits(old(log), now, n)
      ensures log == Admitted(old(log), now, n)
      ensures cost == if exhausted then 0 else n
    {
      ChargedLedger(State(), log, realtime, last, n, now);
      hide Ledger, SpentInWindow, Truncate, Admits, Rolled;
      Roll(now);
      if hourlyTokens + n > HOURLY_TOKEN_LIMIT || dailyTokens + n > DAILY_TOKEN_LIMIT {
        return 0, true;
      }
      hourlyTokens := hourlyTokens + n;
      dailyTokens := dailyTokens + n;
      log := Admitted(log, now, n);
      return n, false;
    }

    method ConsumeRealtime(now: nat) returns (exhausted: bool)
      requires Valid() && now >= last
      modifies this
      ensures (State(), exhausted) == ChargedRealtime(old(State()), now)
      ensures Valid() && last == now && log == old(log)
      ensures exhausted <==> !AdmitsRealtime(old(realtime), now)
      ensures realtime == AdmittedRealtime(old(realtime), now)
    {
      ChargedRealtimeLedger(State(), log, realtime, last, now);
      hide Ledger, SpentInWindow, Truncate, AdmitsRealtime, Rolled;
      Roll(now);
      if rtDailyTokens + 1 > REALTIME_DAILY_LIMIT {
        return true;
      }
      rtDailyTokens := rtDailyTokens + 1;
      realtime := AdmittedRealtime(realtime, now);
      return false;
    }

    method HourlySpent(now: nat) returns (tokens: int)
      requires Valid() && now >= last
      modifies this
      ensures State() == Rolled(old(State()), now)
      ensures Valid() && last == now && log == old(log) && realtime == old(realtime)
      ensures tokens == SpentInWindow(log, now, HOUR)
    {
      hide Ledger, SpentInWindow, Truncate, Rolled;
      Roll(now);
      tokens := hourlyTokens;
    }
  }

  /** The policy in numbers: 40,000 tokens an aligned hour, 200,000 tokens and 10,000 realtime
      requests an aligned day, each inclusive. */
  lemma PolicyMeans(log: seq<Entry>, now: nat, n: nat)
    ensures HOUR == 3_600 * 1_000_000_000 && DAY == 86_400 * 1_000_000_000
    ensures Admits(log, now, n) <==>
            var h, d := Truncate(now, HOUR), Truncate(now, DAY);
            Spent(log, h, h + HOUR) + n <= 40_000 && Spent(log, d, d + DAY) + n <= 200_000
    ensures AdmitsRealtime(log, now) <==>
            var d := Truncate(now, DAY); Spent(log, d, d + DAY) < 10_000
    ensures Admitted(log, now, n) == log + (if Admits(log, now, n) then [Entry(now, n)] else [])
  {
    hide Spent, Truncate;
    assert log + [] == log;
  }

  lemma TruncateAligned(t: nat, width: nat)
    requires width > 0
    ensures Truncate(t, width) % width == 0
  {
    Arith.DivMod(t, width);
    Arith.DivUnique(width * (t / width), width, t / width, 0);
  }

  /** The window of a later time is either the same or starts at or after its end. */
  lemma SameOrLater(window: nat, width: nat, now: nat)
    requires width > 0 && window % width == 0 && window <= now
    ensures Truncate(now, width) % width == 0
    ensures now < window + width ==> Truncate(now, width) == window
    ensures now >= window + width ==> Truncate(now, width) >= window + width
  {
    TruncateAligned(now, width);
    var w := Truncate(now, width);
    Arith.DivMod(window, width);
    Arith.DivMod(w, width);
    Ordered(window, w, width, window / width, w / width);
  }

  /** Multiples of a width are at least the width apart. */
  lemma Ordered(x: int, y: int, width: nat, a: int, b: int)
    requires x == width * a && y == width * b
    ensures a < b ==> x + width <= y
    ensures a == b ==> x == y
    ensures a > b ==> y + width <= x
  {
    Arith.Distribute(width, a, 1);
    Arith.Distribute(width, b, 1);
    if a < b {
      Arith.MulMonotone(width, a + 1, b);
    } else if a > b {
      Arith.MulMonotone(width, b + 1, a);
    }
  }

  lemma {:induction false} NothingSpent(log: seq<Entry>, from: int, to: int)
    requires AllBefore(log, from)
    ensures Spent(log, from, to) == 0
  {
    if log != [] {
      NothingSpent(log[..|log| - 1], from, to);
    }
  }

  lemma AllBeforeLater(log: seq<Entry>, last: nat, now: nat)
    requires AllBefore(log, last + 1) && last <= now
    ensures AllBefore(log, now + 1)
  {}

  lemma RollCounter(tokens: int, window: nat, width: nat, log: seq<Entry>, now: nat)
    requires width > 0 && Counts(tokens, window, width, log) && window <= now && AllBefore(log, now + 1)
    ensures Counts(if now - window >= width then 0 else tokens, Truncate(now, width), width, log)
    ensures now - window < width ==> Truncate(now, width) == window
    ensures SpentInWindow(log, now, width) == if now - window >= width then 0 else tokens
  {
    SameOrLater(window, width, now);
    if now - window >= width {
      NothingSpent(log, Truncate(now, width), Truncate(now, width) + width);
    }
  }

  lemma CountEntry(tokens: int, window: nat, width: nat, log: seq<Entry>, now: nat, n: nat)
    requires width > 0 && Counts(tokens, window, width, log) && window <= now < window + width
    ensures Counts(tokens + n, window, width, log + [Entry(now, n)])
  {
    SpentAppend(log, Entry(now, n), window, window + width);
  }

  lemma AllBeforeAppend(log: seq<Entry>, now: nat, n: nat)
    requires AllBefore(log, now + 1)
    ensures AllBefore(log + [Entry(now, n)], now + 1)
  {}

  lemma BudgetedAppend(log: seq<Entry>, now: nat, n: nat)
    requires Budgeted(log) && Admits(log, now, n)
    ensures Budgeted(log + [Entry(now, n)])
  {
    assert (log + [Entry(now, n)])[..|log|] == log;
  }

  lemma RealtimeAppend(log: seq<Entry>, now: nat)
    requires RealtimeBudgeted(log) && AdmitsRealtime(log, now)
    ensures RealtimeBudgeted(log + [Entry(now, 1)])
  {
    assert (log + [Entry(now, 1)])[..|log|] == log;
  }

  // ---------- bounds over whole runs ----------

  lemma SpentAppend(log: seq<Entry>, e: Entry, from: int, to: int)
    ensures Spent(log + [e], from, to) == Spent(log, from, to) + if from <= e.at < to then e.cost else 0
  {
    assert (log + [e])[..|log|] == log;
  }

  /** No aligned hour or day is ever overrun. */
  lemma {:induction false} WindowBound(log: seq<Entry>, w: nat)
    requires Budgeted(log)
    ensures w % HOUR == 0 ==> Spent(log, w, w + HOUR) <= HOURLY_TOKEN_LIMIT
    ensures w % DAY == 0 ==> Spent(log, w, w + DAY) <= DAILY_TOKEN_LIMIT
  {
    if log != [] {
      var e := log[|log| - 1];
      WindowBound(log[..|log| - 1], w);
      if w <= e.at {
        if w % HOUR == 0 {
          SameOrLater(w, HOUR, e.at);
        }
        if w % DAY == 0 {
          SameOrLater(w, DAY, e.at);
        }
      }
    }
  }

  /** No aligned day overruns the realtime budget. */
  lemma {:induction false} RealtimeBound(log: seq<Entry>, w: nat)
    requires RealtimeBudgeted(log) && w % DAY == 0
    ensures Spent(log, w, w + DAY) <= REALTIME_DAILY_LIMIT
  {
    if log != [] {
      RealtimeBound(log[..|log| - 1], w);
      if w <= log[|log| - 1].at {
        SameOrLater(w, DAY, log[|log| - 1].at);
      }
    }
  }

  lemma {:induction false} SpentSplit(log: seq<Entry>, a: int, b: int, c: int)
    requires a <= b <= c
    ensures Spent(log, a, c) == Spent(log, a, b) + Spent(log, b, c)
  {
    if log != [] {
      SpentSplit(log[..|log| - 1], a, b, c);
    }
  }

  /** Any span of at most one hour, aligned or not, spends at most two hourly budgets. */
  lemma SlidingHourBound(log: seq<Entry>, from: nat, to: nat)
    requires Budgeted(log) && from <= to <= from + HOUR
    ensures Spent(log, from, to) <= 2 * HOURLY_TOKEN_LIMIT
  {
    var w := Truncate(from, HOUR);
    SameOrLater(w, HOUR, from) by { TruncateAligned(from, HOUR); }
    TruncateAligned(from, HOUR);
    assert (w + HOUR) % HOUR == 0;
    WindowBound(log, w);
    WindowBound(log, w + HOUR);
    SpentSplit(log, w, w + HOUR, w + 2 * HOUR);
    SpentSplit(log, w, from, w + 2 * HOUR);
    SpentSplit(log, from, to, w + 2 * HOUR);
  }

  /** The bound is reached: budgets spent just before and just after a full hour. */
  lemma SlidingHourBoundIsTight()
    ensures var log := [Entry(HOUR - 1, HOURLY_TOKEN_LIMIT), Entry(HOUR, HOURLY_TOKEN_LIMIT)];
            Budgeted(log) && Spent(log, HOUR - 1, HOUR + 1) == 2 * HOURLY_TOKEN_LIMIT
  {
    hide Truncate;
    var a, b := Entry(HOUR - 1, HOURLY_TOKEN_LIMIT), Entry(HOUR, HOURLY_TOKEN_LIMIT);
    assert Truncate(HOUR, HOUR) == HOUR by { SameOrLater(HOUR, HOUR, HOUR); }
    assert Truncate(HOUR, DAY) == 0 by { SameOrLater(0, DAY, HOUR); }
    assert [a, b][..1] == [a] && [a][..0] == [];
    assert Budgeted([a]);
    SpentAppend([], a, HOUR, HOUR + HOUR);
    SpentAppend([], a, 0, DAY);
    assert Admits([a], b.at, b.cost);
    SpentAppend([], a, HOUR - 1, HOUR + 1);
    SpentAppend([a], b, HOUR - 1, HOUR + 1);
    assert [] + [a] == [a] && [a] + [b] == [a, b];
  }

  /** The hour is part of the day, so its spending never exceeds the day's. */
  lemma HourWithinDay(log: seq<Entry>, now: nat)
    ensures SpentInWindow(log, now, HOUR) <= SpentInWindow(log, now, DAY)
  {
    var h, d := Truncate(now, HOUR), Truncate(now, DAY);
    DayAligned(now);
    SpentSplit(log, d, h, d + DAY);
    SpentSplit(log, h, h + HOUR, d + DAY);
  }

  lemma DayAligned(now: nat)
    ensures Truncate(now, DAY) <= Truncate(now, HOUR)
    ensures Truncate(now, HOUR) + HOUR <= Truncate(now, DAY) + DAY
  {
    hide Truncate;
    var d, h := Truncate(now, DAY), Truncate(now, HOUR);
    TruncateAligned(now, DAY);
    TruncateAligned(now, HOUR);
    Arith.DivMod(d, DAY);
    Arith.DivMod(h, HOUR);
    var q := d / DAY;
    assert d == HOUR * (24 * q) && d + DAY == HOUR * (24 * q + 24);
    Ordered(d, h, HOUR, 24 * q, h / HOUR);
    Ordered(h, d + DAY, HOUR, h / HOUR, 24 * q + 24);
  }
}
