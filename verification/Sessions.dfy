/** Deterministic session rows of the analytics mock: dimension picks and integer metrics
    drawn from one generator per row. */
module Sessions {
  import opened Wrappers
  import opened Lcg

  class LcgRand {
    var state: Word
    ghost const start: Word
    ghost var drawn: nat

    ghost predicate Valid()
      reads this
    {
      state == Run(drawn, start)
    }

    constructor (seed: Word)
      ensures Valid() && start == FirstState(seed) && drawn == 0
    {
      state := FirstState(seed);
      start := FirstState(seed);
      drawn := 0;
    }

    method Draw() returns (x: Word)
      requires Valid()
      modifies this
      ensures Valid() && drawn == old(drawn) + 1 && x == Run(drawn, start)
    {
      state := Next(state);
      drawn := drawn + 1;
      x := state;
    }

    /** A draw in 0..n-1; without a positive bound nothing is drawn. */
    method Intn(n: int) returns (r: int)
      requires Valid()
      modifies this
      ensures Valid()
      ensures n <= 0 ==> r == 0 && drawn == old(drawn)
      ensures n > 0 ==> drawn == old(drawn) + 1 && r == Run(drawn, start) % n && 0 <= r < n
    {
      if n <= 0 {
        return 0;
      }
      var x := Draw();
      r := x % n;
    }
  }

  datatype Surface = Web | Android | Ios

  datatype Metrics = Metrics(sessions: int, engaged: int, totalUsers: int, newUsers: int)

  datatype Session = Session(picks: seq<int>, metrics: Metrics)

  /** Sizes of the pools a row picks from, in drawing order: user, city, device, source,
      medium, campaign, category, payment, wishlist, then application and system versions. */
  function PoolSizes(surface: Surface): (b: seq<int>)
    ensures forall i :: 0 <= i < |b| ==> b[i] > 0
  {
    [500_000, 10, 3, 6, 5, 6, 6, 6, 10]
    + match surface
      case Web => []
      case Android => [5, 3]
      case Ios => [5, 4]
  }

  /** The metrics computed from the three draws that follow the first k. */
  function MetricsAt(start: Word, k: nat): Metrics {
    var sessions := Run(k + 1, start) % 5 + 1;
    var total := sessions + Run(k + 2, start) % 3;
    Metrics(sessions,
            Max(1, (sessions as real * 0.6).Floor),
            total,
            Run(k + 3, start) % (total + 1))
  }

  /** The row of a seed: pick i is the i-th draw reduced to its pool. */
  function SessionOf(seed: Word, surface: Surface): Session {
    var start, sizes := FirstState(seed), PoolSizes(surface);
    Session(seq(|sizes|, i requires 0 <= i < |sizes| => Run(i + 1, start) % sizes[i]),
            MetricsAt(start, |sizes|))
  }

  /** Every generated row is consistent: at least one engaged session, never more engaged
      sessions than sessions nor sessions than users, new users among the users, and every
      pick inside its pool. */
  lemma SessionConsistent(seed: Word, surface: Surface)
    ensures var s := SessionOf(seed, surface);
            && 1 <= s.metrics.engaged <= s.metrics.sessions <= s.metrics.totalUsers
            && 0 <= s.metrics.newUsers <= s.metrics.totalUsers
            && s.metrics.sessions <= 5 && s.metrics.totalUsers <= 7
            && |s.picks| == |PoolSizes(surface)|
            && forall i :: 0 <= i < |s.picks| ==> 0 <= s.picks[i] < PoolSizes(surface)[i]
  {}

  /** The picks spelled out: user, city, device, source, medium, campaign, category, payment and
      wishlist from the first nine draws, then the versions of an application. */
  lemma PicksSpelled(seed: Word, surface: Surface)
    ensures var picks, s := SessionOf(seed, surface).picks, FirstState(seed);
            && |picks| == (if surface == Web then 9 else 11)
            && picks[..9] == [Run(1, s) % 500_000, Run(2, s) % 10, Run(3, s) % 3, Run(4, s) % 6, Run(5, s) % 5,
                              Run(6, s) % 6, Run(7, s) % 6, Run(8, s) % 6, Run(9, s) % 10]
            && (surface == Android ==> picks[9..] == [Run(10, s) % 5, Run(11, s) % 3])
            && (surface == Ios ==> picks[9..] == [Run(10, s) % 5, Run(11, s) % 4])
  {
    hide Run, FirstState, MetricsAt;
  }

  /** The metrics spelled out: three draws after the picks, and at least one engaged session or
      six tenths of them, rounded down. */
  lemma MetricsSpelled(seed: Word, surface: Surface)
    ensures var m, start := SessionOf(seed, surface).metrics, FirstState(seed);
            var k := if surface == Web then 9 else 11;
            && m.sessions - 1 == Run(k + 1, start) % 5
            && m.engaged == [1, 1, 1, 2, 3][m.sessions - 1]
            && m.totalUsers - m.sessions == Run(k + 2, start) % 3
            && m.newUsers == Run(k + 3, start) % (m.totalUsers + 1)
  {
    hide Run;
  }

  method DrawPicks(r: LcgRand, surface: Surface) returns (picks: seq<int>)
    requires r.Valid() && r.drawn == 0
    modifies r
    ensures r.Valid() && r.drawn == |PoolSizes(surface)| == |picks|
    ensures forall i :: 0 <= i < |picks| ==> picks[i] == Run(i + 1, r.start) % PoolSizes(surface)[i]
  {
    hide Run;
    hide Next;
    hide FirstState;
    var user := r.Intn(500_000);
    var city := r.Intn(10);
    var device := r.Intn(3);
    var source := r.Intn(6);
    var medium := r.Intn(5);
    var campaign := r.Intn(6);
    var category := r.Intn(6);
    var payment := r.Intn(6);
    var wishlist := r.Intn(10);
    picks := [user, city, device, source, medium, campaign, category, payment, wishlist];
    if surface == Android {
      var app := r.Intn(5);
      var os := r.Intn(3);
      picks := picks + [app, os];
    } else if surface == Ios {
      var app := r.Intn(5);
      var os := r.Intn(4);
      picks := picks + [app, os];
    }
  }

  method DrawMetrics(r: LcgRand) returns (m: Metrics)
    requires r.Valid()
    modifies r
    ensures m == MetricsAt(r.start, old(r.drawn))
  {
    var draw := r.Intn(5);
    var sessions := draw + 1;
    var engaged := Max(1, (sessions as real * 0.6).Floor);
    draw := r.Intn(3);
    var total := sessions + draw;
    var newUsers := r.Intn(total + 1);
    m := Metrics(sessions, engaged, total, newUsers);
  }

  method GenerateSession(seed: Word, surface: Surface) returns (s: Session)
    ensures s == SessionOf(seed, surface)
  {
    var r := new LcgRand(seed);
    var picks := DrawPicks(r, surface);
    var metrics := DrawMetrics(r);
    s := Session(picks, metrics);
    assert s.picks == SessionOf(seed, surface).picks;
  }

  /** All rows of one property and date; `seedOf` is the hash of the row's coordinates. */
  function SessionList(seedOf: nat -> Word, surface: Surface, rowsPerDay: nat): seq<Session> {
    seq(rowsPerDay, i requires 0 <= i < rowsPerDay => SessionOf(seedOf(i), surface))
  }

  /** One row per index, each from its own seed; a longer list only adds rows. */
  lemma SessionListRows(seedOf: nat -> Word, surface: Surface, rowsPerDay: nat, i: nat, k: nat)
    requires k <= rowsPerDay
    ensures |SessionList(seedOf, surface, rowsPerDay)| == rowsPerDay
    ensures i < rowsPerDay ==> SessionList(seedOf, surface, rowsPerDay)[i] == SessionOf(seedOf(i), surface)
    ensures SessionList(seedOf, surface, rowsPerDay)[..k] == SessionList(seedOf, surface, k)
  {
    hide SessionOf;
  }

  method GenerateSessions(seedOf: nat -> Word, surface: Surface, rowsPerDay: nat)
    returns (sessions: seq<Session>)
    ensures sessions == SessionList(seedOf, surface, rowsPerDay)
  {
    var rows := new Session[rowsPerDay](_ => Session([], Metrics(0, 0, 0, 0)));
    for i := 0 to rowsPerDay
      invariant forall j :: 0 <= j < i ==> rows[j] == SessionOf(seedOf(j), surface)
    {
      rows[i] := GenerateSession(seedOf(i), surface);
    }
    sessions := rows[..];
  }
}
