/** The report endpoint of the analytics mock: charge the quota, then serve a window of the
    session list by offset and limit. */
module ReportPaging {

  import opened Wrappers
  import Arith
  import Lcg
  import Quota
  import QuotaStore
  import Sessions
  import Strconv

  const MAX_PAGE: int := 100_000

  type Row = Sessions.Session

  datatype Request = Request(dates: seq<string>, limit: int, offset: int)

  /** `Panicked` is a slice expression out of range: the handler dies after charging. */
  datatype Response =
    | UnknownProperty
    | DatesRequired
    | Exhausted
    | Panicked
    | Page(rows: seq<Row>, rowCount: nat)

  function EffectiveLimit(limit: int): (l: int)
    ensures 1 <= l <= MAX_PAGE
    ensures 1 <= limit <= MAX_PAGE ==> l == limit
  {
    if limit <= 0 || limit > MAX_PAGE then MAX_PAGE else limit
  }

  lemma LimitMeans(limit: int)
    ensures EffectiveLimit(limit) == if 1 <= limit <= 100_000 then limit else 100_000
  {}

  /** 64-bit addition of two non-negative numbers. */
  function WrapAdd(a: int, b: int): int {
    if a + b > Strconv.MAX_INT then a + b - 2 * (Strconv.MAX_INT + 1) else a + b
  }

  /** The sum as a 64-bit int, which is the same number modulo 2^64. */
  lemma WrapAddMeans(a: nat, b: nat)
    requires a <= Strconv.MAX_INT && b <= Strconv.MAX_INT
    ensures -Strconv.MAX_INT - 1 <= WrapAdd(a, b) <= Strconv.MAX_INT
    ensures WrapAdd(a, b) % 0x1_0000_0000_0000_0000 == (a + b) % 0x1_0000_0000_0000_0000
  {}

  function TokenCost(rowsPerDay: nat): (c: nat)
    ensures 1 <= c
  {
    rowsPerDay / 1000 + 1
  }

  function Start(offset: int): nat { Max(offset, 0) }

  /** What an admitted request is served. */
  function Serve(rows: seq<Row>, limit: int, offset: int): Response {
    var start := Start(offset);
    var end := Min(WrapAdd(start, EffectiveLimit(limit)), |rows|);
    if 0 <= start <= end then Page(rows[start..end], |rows|) else Panicked
  }

  /** The handler for one property. Requests rejected before the charge cost nothing; a charged
      request costs the same whatever window it asks for, even when serving it panics. */
  method Handle(bucket: Quota.Bucket, surface: Option<Sessions.Surface>, seedOf: (string, nat) -> Lcg.Word,
                rowsPerDay: nat, request: Request, now: nat, later: nat)
    returns (response: Response)
    requires bucket.Valid() && bucket.last <= now <= later
    modifies bucket
    ensures bucket.Valid() && bucket.realtime == old(bucket.realtime)
    ensures surface == None ==> response == UnknownProperty && bucket.log == old(bucket.log)
    ensures surface.Some? && request.dates == [] ==>
              response == DatesRequired && bucket.log == old(bucket.log)
    ensures surface.Some? && request.dates != [] ==>
              && bucket.log == Quota.Admitted(old(bucket.log), now, TokenCost(rowsPerDay))
              && response ==
                 if Quota.Admits(old(bucket.log), now, TokenCost(rowsPerDay)) then
                   Serve(Sessions.SessionList(i => seedOf(request.dates[0], i), surface.value, rowsPerDay),
                         request.limit, request.offset)
                 else Exhausted
  {
    hide Quota.Spent, Quota.SpentInWindow, Quota.Admits, Sessions.SessionOf, Quota.Counts, Quota.Budgeted;
    if surface == None {
      return UnknownProperty;
    }
    if request.dates == [] {
      return DatesRequired;
    }
    var limit := request.limit;
    if limit <= 0 || limit > MAX_PAGE {
      limit := MAX_PAGE;
    }
    var _, exhausted := bucket.ConsumeReport(rowsPerDay / 1000 + 1, now);
    if exhausted {
      var _ := bucket.HourlySpent(later);
      return Exhausted;
    }
    var rows := Sessions.GenerateSessions(i => seedOf(request.dates[0], i), surface.value, rowsPerDay);
    var start := request.offset;
    if start < 0 {
      start := 0;
    }
    var end := WrapAdd(start, limit);
    if end > |rows| {
      end := |rows|;
    }
    if !(0 <= start <= end) {
      return Panicked;
    }
    return Page(rows[start..end], |rows|);
  }

  // ---------- windows ----------

  /** The slice is out of range exactly when the offset lies beyond the rows, or so far out
      that the end of the window does not fit 64 bits. */
  lemma PanicsIff(rows: seq<Row>, limit: int, offset: int)
    requires offset <= Strconv.MAX_INT
    ensures Serve(rows, limit, offset).Panicked? <==>
            offset > |rows| || Start(offset) + EffectiveLimit(limit) > Strconv.MAX_INT
  {}

  /** One attempt of a walking client: refused for quota, or served with some limit. */
  datatype Attempt = Refused | Served(limit: int)

  /** Every page announces the length of the whole list, whatever window was asked for. */
  lemma AnnouncesAll(rows: seq<Row>, limit: int, offset: int)
    ensures Serve(rows, limit, offset).Page? ==> Serve(rows, limit, offset).rowCount == |rows|
  {}

  /** A client that starts at offset 0 and advances by the effective limit of every served page.
      It knows the row count only from the last page and stops once its offset reaches it. */
  datatype Walk = Walk(offset: int, collected: seq<Row>, pages: nat, announced: Option<nat>, panicked: bool) {
    predicate Finished() {
      announced.Some? && offset >= announced.value
    }
  }

  const NOWHERE: Walk := Walk(0, [], 0, None, false)

  function WalkStep(rows: seq<Row>, w: Walk, a: Attempt): Walk {
    if a.Refused? || w.Finished() || w.panicked then w
    else
      match Serve(rows, a.limit, w.offset)
      case Page(page, rowCount) =>
        Walk(w.offset + EffectiveLimit(a.limit), w.collected + page, w.pages + 1, Some(rowCount), false)
      case _ => w.(panicked := true)
  }

  function WalkAll(rows: seq<Row>, attempts: seq<Attempt>): Walk {
    if attempts == [] then NOWHERE
    else WalkStep(rows, WalkAll(rows, attempts[..|attempts| - 1]), attempts[|attempts| - 1])
  }

  function ServedCount(attempts: seq<Attempt>): nat {
    if attempts == [] then 0
    else ServedCount(attempts[..|attempts| - 1]) + if attempts[|attempts| - 1].Served? then 1 else 0
  }

  /** However limits vary and whichever attempts are refused, the walk never panics, has
      collected exactly the rows below its offset, and knows the true row count. */
  lemma {:induction false} WalkInvariant(rows: seq<Row>, attempts: seq<Attempt>)
    requires |rows| <= Strconv.MAX_INT - MAX_PAGE
    ensures var w := WalkAll(rows, attempts);
            && !w.panicked && 0 <= w.offset
            && w.collected == rows[..Min(w.offset, |rows|)]
            && w.announced == (if w.pages == 0 then None else Some(|rows|))
            && (w.pages == 0 ==> w.offset == 0)
            && (!w.Finished() ==> w.pages == ServedCount(attempts) && w.offset >= w.pages)
  {
    if attempts != [] {
      WalkInvariant(rows, attempts[..|attempts| - 1]);
    }
  }

  /** Walking pages equals reading the whole list: once as many pages were served as there are
      rows, and at least one, the walk is over and has exactly the list. */
  lemma WalkComplete(rows: seq<Row>, attempts: seq<Attempt>)
    requires |rows| <= Strconv.MAX_INT - MAX_PAGE && ServedCount(attempts) >= Max(1, |rows|)
    ensures WalkAll(rows, attempts).Finished()
    ensures WalkAll(rows, attempts).collected == rows
  {
    WalkInvariant(rows, attempts);
    assert rows[..|rows|] == rows;
  }

  ghost predicate Constant(attempts: seq<Attempt>, limit: int) {
    forall i :: 0 <= i < |attempts| ==> attempts[i].Refused? || attempts[i].limit == limit
  }

  lemma {:induction false} WalkStrides(rows: seq<Row>, attempts: seq<Attempt>, limit: int)
    requires |rows| <= Strconv.MAX_INT - MAX_PAGE && Constant(attempts, limit)
    ensures var w := WalkAll(rows, attempts);
            w.offset == EffectiveLimit(limit) * w.pages && (w.pages > 1 ==> w.offset - EffectiveLimit(limit) < |rows|)
  {
    if attempts != [] {
      hide Serve;
      var front, a := attempts[..|attempts| - 1], attempts[|attempts| - 1];
      WalkStrides(rows, front, limit);
      WalkInvariant(rows, front);
      var w := WalkAll(rows, front);
      Arith.Distribute(EffectiveLimit(limit), w.pages, 1);
    }
  }

  /** Pages a walk needs with one limit: the row count divided by the effective limit, rounded
      up, and one even for an empty list. */
  function Need(rows: seq<Row>, limit: int): nat {
    Max(1, (|rows| + EffectiveLimit(limit) - 1) / EffectiveLimit(limit))
  }

  /** With one limit throughout, a finished walk was served exactly so many pages. */
  lemma PagesOfWalk(rows: seq<Row>, attempts: seq<Attempt>, limit: int)
    requires |rows| <= Strconv.MAX_INT - MAX_PAGE && Constant(attempts, limit)
    requires WalkAll(rows, attempts).Finished()
    ensures WalkAll(rows, attempts).pages == Need(rows, limit)
  {
    hide WalkAll, Constant;
    var l, w := EffectiveLimit(limit), WalkAll(rows, attempts);
    WalkStrides(rows, attempts, limit);
    WalkInvariant(rows, attempts);
    hide EffectiveLimit;
    if |rows| == 0 {
      Arith.DivUnique(l - 1, l, 0, l - 1);
      if w.pages > 1 {
        Arith.MulMonotone(l, 2, w.pages);
      }
    } else {
      Arith.DivUnique(|rows| + l - 1, l, w.pages, |rows| + l - 1 - l * w.pages);
    }
  }

  // ---------- pages and quota ----------

  /** A log in which every request cost the same, as one server charges them. */
  predicate Uniform(log: seq<Quota.Entry>, cost: nat) {
    log != [] ==> log[|log| - 1].cost == cost && Uniform(log[..|log| - 1], cost)
  }

  lemma UniformAppend(log: seq<Quota.Entry>, cost: nat, now: nat)
    requires Uniform(log, cost)
    ensures Uniform(Quota.Admitted(log, now, cost), cost)
  {
    assert (log + [Quota.Entry(now, cost)])[..|log|] == log;
  }

  /** One server with a fixed row count: over any run of any threads, what a property was
      charged is uniform. */
  lemma {:induction false} StoreUniform(events: seq<QuotaStore.Event>, property: string, cost: nat)
    requires QuotaStore.Possible(events)
    requires forall i :: 0 <= i < |events| && events[i].Consume? && events[i].property == property ==>
               events[i].cost == cost
    ensures Uniform(QuotaStore.Run(events).Log(property), cost)
  {
    hide QuotaStore.Possible, QuotaStore.Run, QuotaStore.State.Log;
    QuotaStore.RefinesReference(events, property);
    ReferenceUniform(events, property, cost);
  }

  lemma {:induction false} ReferenceUniform(events: seq<QuotaStore.Event>, property: string, cost: nat)
    requires forall i :: 0 <= i < |events| && events[i].Consume? && events[i].property == property ==>
               events[i].cost == cost
    ensures Uniform(QuotaStore.Reference(events, property), cost)
  {
    if events != [] {
      hide Uniform, Quota.Admitted;
      var front := events[..|events| - 1];
      ReferenceUniform(front, property, cost);
      UniformAppend(QuotaStore.Reference(front, property), cost, QuotaStore.Clock(front));
    } else {
      assert Uniform([], cost);
    }
  }

  function Pages(log: seq<Quota.Entry>, from: int, to: int): nat {
    if log == [] then 0
    else
      Pages(log[..|log| - 1], from, to) + if from <= log[|log| - 1].at < to then 1 else 0
  }

  function PagesInWindow(log: seq<Quota.Entry>, t: nat, width: nat): nat
    requires width > 0
  {
    Pages(log, Quota.Truncate(t, width), Quota.Truncate(t, width) + width)
  }

  lemma {:induction false} SpentIsPages(log: seq<Quota.Entry>, cost: nat, from: int, to: int)
    requires Uniform(log, cost)
    ensures Quota.Spent(log, from, to) == cost * Pages(log, from, to)
  {
    if log != [] {
      SpentIsPages(log[..|log| - 1], cost, from, to);
      Arith.Distribute(cost, Pages(log[..|log| - 1], from, to), 1);
    }
  }

  lemma AtMostQuotient(limit: nat, cost: nat, k: nat)
    requires cost > 0
    ensures cost * k <= limit <==> k <= limit / cost
  {
    Arith.DivMod(limit, cost);
    var q := limit / cost;
    Arith.Distribute(cost, q, 1);
    if k <= q {
      Arith.MulMonotone(cost, k, q);
    } else {
      Arith.MulMonotone(cost, q + 1, k);
    }
  }

  /** An aligned hour serves at most 40000 div cost pages, an aligned day 200000 div cost, where a
      page costs one and the thousands of rows a day. */
  lemma PagesPerWindow(log: seq<Quota.Entry>, rowsPerDay: nat, t: nat)
    requires Quota.Budgeted(log) && Uniform(log, TokenCost(rowsPerDay))
    ensures PagesInWindow(log, t, Quota.HOUR) <= 40_000 / (rowsPerDay / 1000 + 1)
    ensures PagesInWindow(log, t, Quota.DAY) <= 200_000 / (rowsPerDay / 1000 + 1)
  {
    assert TokenCost(rowsPerDay) == rowsPerDay / 1000 + 1;
    hide Quota.Budgeted, Quota.Spent, Uniform, Pages, TokenCost, Quota.Truncate;
    var cost, h, d := TokenCost(rowsPerDay), Quota.Truncate(t, Quota.HOUR), Quota.Truncate(t, Quota.DAY);
    Quota.TruncateAligned(t, Quota.HOUR);
    Quota.TruncateAligned(t, Quota.DAY);
    Quota.WindowBound(log, h);
    Quota.WindowBound(log, d);
    SpentIsPages(log, cost, h, h + Quota.HOUR);
    SpentIsPages(log, cost, d, d + Quota.DAY);
    AtMostQuotient(Quota.HOURLY_TOKEN_LIMIT, cost, Pages(log, h, h + Quota.HOUR));
    AtMostQuotient(Quota.DAILY_TOKEN_LIMIT, cost, Pages(log, d, d + Quota.DAY));
  }

  /** A page is refused exactly when its hour or its day has already served its full number. */
  lemma RefusedIff(log: seq<Quota.Entry>, rowsPerDay: nat, now: nat)
    requires Uniform(log, TokenCost(rowsPerDay))
    ensures Quota.Admits(log, now, TokenCost(rowsPerDay)) <==>
            && PagesInWindow(log, now, Quota.HOUR) < 40_000 / (rowsPerDay / 1000 + 1)
            && PagesInWindow(log, now, Quota.DAY) < 200_000 / (rowsPerDay / 1000 + 1)
  {
    assert TokenCost(rowsPerDay) == rowsPerDay / 1000 + 1;
    hide Quota.Spent, Uniform, Pages, TokenCost, Quota.Truncate;
    var cost, h, d := TokenCost(rowsPerDay), Quota.Truncate(now, Quota.HOUR), Quota.Truncate(now, Quota.DAY);
    var inHour, inDay := Pages(log, h, h + Quota.HOUR), Pages(log, d, d + Quota.DAY);
    SpentIsPages(log, cost, h, h + Quota.HOUR);
    SpentIsPages(log, cost, d, d + Quota.DAY);
    Arith.Distribute(cost, inHour, 1);
    Arith.Distribute(cost, inDay, 1);
    AtMostQuotient(Quota.HOURLY_TOKEN_LIMIT, cost, inHour + 1);
    AtMostQuotient(Quota.DAILY_TOKEN_LIMIT, cost, inDay + 1);
  }

  // ---------- a walk under quota ----------

  /** A client asking again and again; whether it is served is up to the quota. */
  datatype Ask = Ask(now: nat, limit: int)

  datatype Client = Client(walk: Walk, log: seq<Quota.Entry>)

  /** A finished client asks no more; a refused one stays where it is. */
  function AskStep(rows: seq<Row>, cost: nat, c: Client, a: Ask): Client {
    if c.walk.Finished() || !Quota.Admits(c.log, a.now, cost) then c
    else Client(WalkStep(rows, c.walk, Served(a.limit)), Quota.Admitted(c.log, a.now, cost))
  }

  function AskAll(rows: seq<Row>, cost: nat, log: seq<Quota.Entry>, asks: seq<Ask>): Client {
    if asks == [] then Client(NOWHERE, log)
    else AskStep(rows, cost, AskAll(rows, cost, log, asks[..|asks| - 1]), asks[|asks| - 1])
  }

  /** What the quota made of the requests. */
  function Attempts(rows: seq<Row>, cost: nat, log: seq<Quota.Entry>, asks: seq<Ask>): seq<Attempt> {
    if asks == [] then []
    else
      var front, a := asks[..|asks| - 1], asks[|asks| - 1];
      Attempts(rows, cost, log, front)
      + [if Quota.Admits(AskAll(rows, cost, log, front).log, a.now, cost) then Served(a.limit) else Refused]
  }

  lemma {:induction false} AskIsWalk(rows: seq<Row>, cost: nat, log: seq<Quota.Entry>, asks: seq<Ask>)
    ensures |Attempts(rows, cost, log, asks)| == |asks|
    ensures AskAll(rows, cost, log, asks).walk == WalkAll(rows, Attempts(rows, cost, log, asks))
    ensures forall i :: 0 <= i < |asks| ==>
              Attempts(rows, cost, log, asks)[i].Refused? || Attempts(rows, cost, log, asks)[i].limit == asks[i].limit
  {
    if asks != [] {
      hide Quota.Admits, Quota.Admitted, Serve;
      var front := asks[..|asks| - 1];
      AskIsWalk(rows, cost, log, front);
      var before, all := Attempts(rows, cost, log, front), Attempts(rows, cost, log, asks);
      assert all[..|all| - 1] == before;
    }
  }

  lemma FinishedIff(rows: seq<Row>, attempts: seq<Attempt>, limit: int)
    requires |rows| <= Strconv.MAX_INT - MAX_PAGE && Constant(attempts, limit)
    ensures var w := WalkAll(rows, attempts);
            w.pages <= Need(rows, limit) && (w.Finished() <==> w.pages == Need(rows, limit))
  {
    hide WalkAll, Constant;
    var w, l := WalkAll(rows, attempts), EffectiveLimit(limit);
    var q := (|rows| + l - 1) / l;
    WalkStrides(rows, attempts, limit);
    WalkInvariant(rows, attempts);
    if w.Finished() {
      PagesOfWalk(rows, attempts, limit);
    } else {
      hide EffectiveLimit;
      Arith.DivMod(|rows| + l - 1, l);
      Arith.Distribute(l, q, 1);
      if w.pages >= q && w.pages > 0 {
        Arith.MulMonotone(l, q, w.pages);
        assert false;
      }
    }
  }

  /** What is left of the hour's and the day's pages, whichever is less. */
  function Allowance(log: seq<Quota.Entry>, t: nat, cost: nat): nat
    requires cost > 0
  {
    Max(0, Min(Quota.HOURLY_TOKEN_LIMIT / cost - PagesInWindow(log, t, Quota.HOUR),
               Quota.DAILY_TOKEN_LIMIT / cost - PagesInWindow(log, t, Quota.DAY)))
  }

  /** Requests of one hour lie in one day. */
  lemma SameDay(a: nat, b: nat)
    requires Quota.Truncate(a, Quota.HOUR) == Quota.Truncate(b, Quota.HOUR)
    ensures Quota.Truncate(a, Quota.DAY) == Quota.Truncate(b, Quota.DAY)
  {
    Quota.DayAligned(a);
    Quota.TruncateAligned(a, Quota.DAY);
    Quota.SameOrLater(Quota.Truncate(a, Quota.DAY), Quota.DAY, b);
  }

  lemma AdmitsIff(log: seq<Quota.Entry>, rowsPerDay: nat, now: nat)
    requires Uniform(log, TokenCost(rowsPerDay))
    ensures Quota.Admits(log, now, TokenCost(rowsPerDay)) <==> Allowance(log, now, TokenCost(rowsPerDay)) > 0
  {
    assert TokenCost(rowsPerDay) == rowsPerDay / 1000 + 1;
    hide PagesInWindow, Quota.Admits, TokenCost, Uniform;
    RefusedIff(log, rowsPerDay, now);
  }

  /** Each page served uses up one of the allowance, at every time of its hour. */
  lemma AllowanceStep(log: seq<Quota.Entry>, now: nat, t: nat, cost: nat)
    requires cost > 0 && Quota.Truncate(t, Quota.HOUR) == Quota.Truncate(now, Quota.HOUR)
    requires Quota.Admits(log, now, cost) && Allowance(log, t, cost) > 0
    ensures Allowance(Quota.Admitted(log, now, cost), t, cost) == Allowance(log, t, cost) - 1
  {
    SameDay(t, now);
    var log' := log + [Quota.Entry(now, cost)];
    assert log'[..|log|] == log;
    hide Quota.Truncate, Quota.Admits;
    assert PagesInWindow(log', t, Quota.HOUR) == PagesInWindow(log, t, Quota.HOUR) + 1;
    assert PagesInWindow(log', t, Quota.DAY) == PagesInWindow(log, t, Quota.DAY) + 1;
  }

  lemma SameAllowance(log: seq<Quota.Entry>, a: nat, b: nat, cost: nat)
    requires cost > 0 && Quota.Truncate(a, Quota.HOUR) == Quota.Truncate(b, Quota.HOUR)
    ensures Allowance(log, a, cost) == Allowance(log, b, cost)
  {
    SameDay(a, b);
    hide Quota.Truncate, Pages;
  }

  /** Main result: however often a client asks within one hour with one limit, it is served
      exactly the least of its requests, the pages it needs and what hour and day have left. */
  lemma {:induction false} PagesWithinHour(rows: seq<Row>, rowsPerDay: nat, log: seq<Quota.Entry>, asks: seq<Ask>,
                                           t: nat, limit: int)
    requires |rows| <= Strconv.MAX_INT - MAX_PAGE && Uniform(log, TokenCost(rowsPerDay))
    requires forall i :: 0 <= i < |asks| ==>
               asks[i].limit == limit && Quota.Truncate(asks[i].now, Quota.HOUR) == Quota.Truncate(t, Quota.HOUR)
    ensures var c, cost := AskAll(rows, TokenCost(rowsPerDay), log, asks), TokenCost(rowsPerDay);
            && Uniform(c.log, cost)
            && c.walk.pages == Min(|asks|, Min(Need(rows, limit), Allowance(log, t, cost)))
            && Allowance(c.log, t, cost) == Allowance(log, t, cost) - c.walk.pages
  {
    if asks != [] {
      var front, a := asks[..|asks| - 1], asks[|asks| - 1];
      PagesWithinHour(rows, rowsPerDay, log, front, t, limit);
      assert a.limit == limit && Quota.Truncate(a.now, Quota.HOUR) == Quota.Truncate(t, Quota.HOUR);
      AskFinished(rows, TokenCost(rowsPerDay), log, front, limit);
      hide Quota.Truncate, Quota.Admits, Allowance, Uniform, Need, TokenCost, Serve, Quota.Admitted;
      var cost, before := TokenCost(rowsPerDay), AskAll(rows, TokenCost(rowsPerDay), log, front);
      AdmitsIff(before.log, rowsPerDay, a.now);
      SameAllowance(before.log, a.now, t, cost);
      if !before.walk.Finished() && Quota.Admits(before.log, a.now, cost) {
        AllowanceStep(before.log, a.now, t, cost);
        UniformAppend(before.log, cost, a.now);
        ServedCounts(rows, before.walk, a.limit);
      }
    }
  }

  lemma AskFinished(rows: seq<Row>, cost: nat, log: seq<Quota.Entry>, asks: seq<Ask>, limit: int)
    requires |rows| <= Strconv.MAX_INT - MAX_PAGE && forall i :: 0 <= i < |asks| ==> asks[i].limit == limit
    ensures var w := AskAll(rows, cost, log, asks).walk;
            && w.pages <= Need(rows, limit) && (w.Finished() <==> w.pages == Need(rows, limit))
            && (w.Finished() ==> w.collected == rows) && (!w.Finished() && w.pages > 0 ==> w.offset < |rows|)
            && (w.pages == 0 ==> w.offset == 0)
            && !w.panicked && 0 <= w.offset && w.collected == rows[..Min(w.offset, |rows|)]
  {
    AskIsWalk(rows, cost, log, asks);
    FinishedIff(rows, Attempts(rows, cost, log, asks), limit);
    WalkInvariant(rows, Attempts(rows, cost, log, asks));
    assert rows[..|rows|] == rows;
  }

  lemma ServedCounts(rows: seq<Row>, w: Walk, limit: int)
    requires |rows| <= Strconv.MAX_INT - MAX_PAGE && 0 <= w.offset <= |rows| && !w.panicked && !w.Finished()
    ensures WalkStep(rows, w, Served(limit)).pages == w.pages + 1
  {}

  /** So within one hour a walk ends, holding the whole list, if and only if it needs no more
      pages than it asked for and than hour and day have left. */
  lemma WalkEndsWithinHourIff(rows: seq<Row>, rowsPerDay: nat, log: seq<Quota.Entry>, asks: seq<Ask>, t: nat,
                              limit: int)
    requires |rows| <= Strconv.MAX_INT - MAX_PAGE && Uniform(log, TokenCost(rowsPerDay))
    requires forall i :: 0 <= i < |asks| ==>
               asks[i].limit == limit && Quota.Truncate(asks[i].now, Quota.HOUR) == Quota.Truncate(t, Quota.HOUR)
    ensures var w := AskAll(rows, TokenCost(rowsPerDay), log, asks).walk; w.Finished() ==> w.collected == rows
    ensures AskAll(rows, TokenCost(rowsPerDay), log, asks).walk.Finished()
            <==> Need(rows, limit) <= Min(|asks|, Allowance(log, t, TokenCost(rowsPerDay)))
  {
    PagesWithinHour(rows, rowsPerDay, log, asks, t, limit);
    AskFinished(rows, TokenCost(rowsPerDay), log, asks, limit);
    hide AskAll, Need, Allowance, Uniform, Quota.Truncate, TokenCost;
  }
}
