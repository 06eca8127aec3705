/** Ticks of the live pipeline: in every tick the cities of all brands are inserted by worker
    pools, one channel per brand, that add to one shared total. Statements of different cities
    interleave freely. */
module LiveTicks {

  import opened Wrappers
  import opened LiveOrders
  import opened LiveStatements
  import TaskPool

  /** The databases of all brands, and the variables of each site's call. */
  datatype Shared = Shared(db: Database, memory: map<nat, Memory>) {
    function Recall(t: nat): Memory {
      if t in memory then memory[t] else START
    }
  }

  /** What a tick is asked to do: sites and their orders, in the channels of their brands. */
  datatype Plan = Plan(sites: seq<Site>, orders: nat -> seq<Order>, cap: nat, channel: nat -> nat, home: nat -> nat)

  function StepOf(plan: Plan, t: nat, reply: Reply, d: Shared): Shared {
    if t >= |plan.sites| then d
    else
      var (db, memory) := Statement(plan.sites[t], plan.orders(t), plan.cap, reply, d.db, d.Recall(t));
      Shared(db, d.memory[t := memory])
  }

  /** A worker adds what the call returned; an error adds nothing, whatever number came with it. */
  predicate ClaimOf(t: nat, result: Option<nat>, d: Shared) {
    var phase := d.Recall(t).phase;
    phase.Finished? && result == if phase.ok then Some(phase.n) else None
  }

  function Tick(plan: Plan, db: Database): TaskPool.Program<Shared, Reply> {
    TaskPool.Program(|plan.sites|, plan.channel, plan.home, Shared(db, map[]),
                     (t: nat, reply: Reply, d: Shared) => StepOf(plan, t, reply, d),
                     (t: nat, result: Option<nat>, d: Shared) => ClaimOf(t, result, d))
  }

  // ---------- isolation by names ----------

  predicate Same(a: Database, b: Database, name: TableName) {
    (name in a <==> name in b) && (name in a ==> a[name] == b[name])
  }

  ghost predicate SameSite(a: Database, b: Database, site: Site) {
    forall n: nat :: Same(a, b, OrdersTable(site, n))
  }

  ghost predicate Owned(sites: seq<Site>, name: TableName) {
    exists i: nat, n: nat :: i < |sites| && name == OrdersTable(sites[i], n)
  }

  ghost predicate Agree(sites: seq<Site>, t: nat, a: Shared, b: Shared) {
    && a.Recall(t) == b.Recall(t)
    && if t < |sites| then SameSite(a.db, b.db, sites[t])
       else forall name :: !Owned(sites, name) ==> Same(a.db, b.db, name)
  }

  ghost function AgreeOn(sites: seq<Site>): TaskPool.View<Shared> {
    (t: nat, a: Shared, b: Shared) => Agree(sites, t, a, b)
  }

  lemma SameSiteChain(a: Database, b: Database, c: Database, site: Site)
    requires SameSite(a, b, site) && SameSite(b, c, site)
    ensures SameSite(a, c, site)
  {
    hide OrdersTable;
    forall n: nat ensures Same(a, c, OrdersTable(site, n)) {
      assert Same(a, b, OrdersTable(site, n)) && Same(b, c, OrdersTable(site, n));
    }
  }

  lemma AgreeEquivalence(sites: seq<Site>)
    ensures TaskPool.Equivalence(AgreeOn(sites))
  {
    hide OrdersTable, Owned, SameSite;
    var agree := AgreeOn(sites);
    forall t: nat, a: Shared ensures agree(t, a, a) {
      SameSiteSelf(a.db, if t < |sites| then sites[t] else Site("", ""));
    }
    forall t: nat, a: Shared, b: Shared | agree(t, a, b) ensures agree(t, b, a) {
      AgreeTurn(sites, t, a, b);
    }
    forall t: nat, a: Shared, b: Shared, c: Shared | agree(t, a, b) && agree(t, b, c) ensures agree(t, a, c) {
      AgreeChain(sites, t, a, b, c);
    }
  }

  lemma SameSiteSelf(a: Database, site: Site)
    ensures SameSite(a, a, site)
  {}

  lemma AgreeTurn(sites: seq<Site>, t: nat, a: Shared, b: Shared)
    requires Agree(sites, t, a, b)
    ensures Agree(sites, t, b, a)
  {
    hide OrdersTable, Owned;
  }

  lemma AgreeChain(sites: seq<Site>, t: nat, a: Shared, b: Shared, c: Shared)
    requires Agree(sites, t, a, b) && Agree(sites, t, b, c)
    ensures Agree(sites, t, a, c)
  {
    hide OrdersTable, Owned, SameSite;
    if t < |sites| {
      SameSiteChain(a.db, b.db, c.db, sites[t]);
    } else {
      forall name | !Owned(sites, name) ensures Same(a.db, c.db, name) {
        assert Same(a.db, b.db, name) && Same(b.db, c.db, name);
      }
    }
  }

  /** A statement writes only order tables of its own site. */
  lemma StatementWrites(site: Site, orders: seq<Order>, cap: nat, reply: Reply, db: Database, memory: Memory,
                        name: TableName)
    requires forall n: nat :: name != OrdersTable(site, n)
    ensures Same(Statement(site, orders, cap, reply, db, memory).0, db, name)
  {
    hide OrdersTable;
  }

  /** A statement reads only order tables of its own site. */
  lemma StatementReads(site: Site, orders: seq<Order>, cap: nat, reply: Reply, a: Database, b: Database, memory: Memory)
    requires SameSite(a, b, site)
    ensures var (a', ma) := Statement(site, orders, cap, reply, a, memory);
            var (b', mb) := Statement(site, orders, cap, reply, b, memory);
            ma == mb && SameSite(a', b', site)
  {
    hide OrdersTable;
    if memory.phase.Probing? {
      assert Same(a, b, OrdersTable(site, memory.phase.split + 1));
    } else if !memory.phase.Finished? {
      assert Same(a, b, OrdersTable(site, memory.phase.split));
    }
  }

  lemma OthersKept(plan: Plan, t: nat, u: nat, reply: Reply, d: Shared)
    requires t < |plan.sites| && u != t && DistinctSites(plan.sites)
    ensures Agree(plan.sites, u, StepOf(plan, t, reply, d), d)
  {
    hide Statement, OrdersTable;
    var d', site, memory := StepOf(plan, t, reply, d), plan.sites[t], d.Recall(t);
    if u < |plan.sites| {
      forall n: nat ensures Same(d'.db, d.db, OrdersTable(plan.sites[u], n)) {
        forall m: nat ensures OrdersTable(plan.sites[u], n) != OrdersTable(site, m) {
          if OrdersTable(plan.sites[u], n) == OrdersTable(site, m) {
            TableInjective(plan.sites[u], n, site, m);
          }
        }
        StatementWrites(site, plan.orders(t), plan.cap, reply, d.db, memory, OrdersTable(plan.sites[u], n));
      }
    } else {
      forall name | !Owned(plan.sites, name) ensures Same(d'.db, d.db, name) {
        StatementWrites(site, plan.orders(t), plan.cap, reply, d.db, memory, name);
      }
    }
  }

  lemma OwnOnly(plan: Plan, t: nat, reply: Reply, a: Shared, b: Shared)
    requires t < |plan.sites| && Agree(plan.sites, t, a, b)
    ensures Agree(plan.sites, t, StepOf(plan, t, reply, a), StepOf(plan, t, reply, b))
  {
    hide Statement, OrdersTable, SameSite;
    StatementReads(plan.sites[t], plan.orders(t), plan.cap, reply, a.db, b.db, a.Recall(t));
  }

  ghost predicate DistinctSites(sites: seq<Site>) {
    forall i, j :: 0 <= i < j < |sites| ==> sites[i] != sites[j]
  }

  /** The sites share the databases and are kept apart, statement by statement, by the names of
      their tables. */
  lemma SitesIsolated(plan: Plan, db: Database)
    requires DistinctSites(plan.sites)
    ensures TaskPool.Isolated(Tick(plan, db), AgreeOn(plan.sites))
  {
    var program, agree := Tick(plan, db), AgreeOn(plan.sites);
    AgreeEquivalence(plan.sites);
    hide DistinctSites;
    forall t: nat, u: nat, reply: Reply, d: Shared | t < program.tasks && u != t
      ensures agree(u, program.step(t, reply, d), d)
    {
      OthersKept(plan, t, u, reply, d);
    }
    forall t: nat, reply: Reply, d: Shared, d': Shared | t < program.tasks && agree(t, d, d')
      ensures agree(t, program.step(t, reply, d), program.step(t, reply, d'))
    {
      OwnOnly(plan, t, reply, d, d');
    }
  }

  // ---------- one site in a tick ----------

  /** Alone, a site stands where one call stands, and has heard only what it was answered. */
  lemma {:induction false} PerformStands(plan: Plan, db: Database, t: nat, replies: seq<Reply>)
    requires t < |plan.sites|
    ensures var d := TaskPool.Perform(Tick(plan, db), t, replies, Shared(db, map[]));
            && CallStands(plan.sites[t], plan.orders(t), plan.cap, db, d.db, d.Recall(t))
            && forall r :: r in d.Recall(t).heard.chunks ==> r in replies
  {
    hide CallStands, Statement;
    if replies == [] {
      StartStands(plan, db, t);
    } else {
      var front, reply := replies[..|replies| - 1], replies[|replies| - 1];
      PerformStands(plan, db, t, front);
      var d := TaskPool.Perform(Tick(plan, db), t, front, Shared(db, map[]));
      StatementStands(plan.sites[t], plan.orders(t), plan.cap, reply, db, d.db, d.Recall(t));
      StatementHears(plan.sites[t], plan.orders(t), plan.cap, reply, d.db, d.Recall(t));
      assert replies == front + [reply];
    }
  }

  lemma StartStands(plan: Plan, db: Database, t: nat)
    requires t < |plan.sites|
    ensures var memory := Shared(db, map[]).Recall(t);
            CallStands(plan.sites[t], plan.orders(t), plan.cap, db, db, memory) && memory.heard.chunks == []
  {
    hide OrdersTable;
  }

  lemma StatementHears(site: Site, orders: seq<Order>, cap: nat, reply: Reply, db: Database, memory: Memory)
    ensures forall r :: r in Statement(site, orders, cap, reply, db, memory).1.heard.chunks ==>
              r in memory.heard.chunks || r == reply
  {
    hide OrdersTable;
  }

  /** What a site contributes to the total. */
  function Amount(d: Shared, t: nat): nat {
    var phase := d.Recall(t).phase;
    if phase.Finished? && phase.ok then phase.n else 0
  }

  lemma SameContiguous(a: Database, b: Database, site: Site, k: nat)
    requires SameSite(a, b, site) && Contiguous(b, site, k)
    ensures Contiguous(a, site, k)
  {
    hide OrdersTable;
    forall n: nat ensures OrdersTable(site, n) in a <==> 1 <= n <= k {
      assert Same(a, b, OrdersTable(site, n));
    }
  }

  lemma {:induction false} SameRows(a: Database, b: Database, site: Site, top: nat)
    requires SameSite(a, b, site)
    ensures RowsUpTo(a, site, top) == RowsUpTo(b, site, top)
  {
    if top > 0 {
      hide OrdersTable;
      SameRows(a, b, site, top - 1);
      assert Same(a, b, OrdersTable(site, top));
    }
  }

  /** Where a call stands, its site has gained what some call gains, and reported no more. */
  lemma StandsGains(site: Site, orders: seq<Order>, cap: nat, db0: Database, db: Database, memory: Memory, k: nat,
                    top: nat)
    returns (k': nat)
    requires CallStands(site, orders, cap, db0, db, memory) && Contiguous(db0, site, k) && k < top
    ensures k <= k' <= k + 1 && Contiguous(db, site, k')
    ensures 0 <= Added(db0, db, site, top) <= |orders|
    ensures memory.phase.Finished? ==>
              var phase := memory.phase;
              && phase.n <= Added(db0, db, site, top)
              && (phase.ok ==> Added(db0, db, site, top) == |orders|)
              && (phase.ok && (forall r :: r in memory.heard.chunks ==> r.read >= CHUNK) ==> phase.n == |orders|)
  {
    hide OrdersTable, InsertOrders, ActiveFrom, RowsUpTo, Contiguous, Choose;
    k' := k;
    if memory.phase.Appending? || memory.phase.Finished? {
      var w := WeatherOf(memory.heard);
      ReportedIsAdded(db0, site, k, orders, cap, w, top);
      ContiguousKept(db0, site, k, orders, cap, w);
      if !Contiguous(db, site, k) {
        k' := k + 1;
      }
      if forall r :: r in memory.heard.chunks ==> r.read >= CHUNK {
        assert ReadsAll(w);
      }
    }
  }

  /** In every interleaving of the statements of all sites, at every moment, a site is contiguous
      and contributes at most the rows it has gained; when its call has returned no error it has
      gained all its orders, and contributes as many when all returned ids were read. */
  lemma SiteInTick(plan: Plan, db: Database, workers: nat, events: seq<TaskPool.Event<Reply>>, t: nat, k: nat, top: nat)
    returns (k': nat)
    requires DistinctSites(plan.sites) && t < |plan.sites| && Contiguous(db, plan.sites[t], k) && k < top
    ensures var d := TaskPool.Run(Tick(plan, db), workers, events).db;
            var phase := d.Recall(t).phase;
            && k <= k' <= k + 1 && Contiguous(d.db, plan.sites[t], k')
            && Amount(d, t) <= Added(db, d.db, plan.sites[t], top) <= |plan.orders(t)|
            && (phase.Finished? && phase.ok && ReadsAlways(events) ==>
                  Amount(d, t) == Added(db, d.db, plan.sites[t], top) == |plan.orders(t)|)
  {
    var program, site := Tick(plan, db), plan.sites[t];
    var d, replies := TaskPool.Run(program, workers, events).db, TaskPool.Choices(program, workers, events, t);
    SitesIsolated(plan, db);
    TaskPool.Serializable(program, AgreeOn(plan.sites), workers, events, t);
    PerformStands(plan, db, t, replies);
    var alone := TaskPool.Perform(program, t, replies, Shared(db, map[]));
    if ReadsAlways(events) {
      ChoicesRead(plan, db, workers, events, t);
    }
    hide TaskPool.Run, TaskPool.Choices, TaskPool.Perform, TaskPool.Isolated, CallStands, OrdersTable, Contiguous,
         RowsUpTo, SameSite, ReadsAlways;
    k' := StandsGains(site, plan.orders(t), plan.cap, db, alone.db, alone.Recall(t), k, top);
    SameContiguous(d.db, alone.db, site, k');
    SameRows(d.db, alone.db, site, top);
  }

  // ---------- the shared total ----------

  function AmountOf(d: Shared): nat -> nat {
    (t: nat) => Amount(d, t)
  }

  /** Order rows of the first n sites. */
  function RowsOfSites(db: Database, sites: seq<Site>, top: nat, n: nat): nat
    requires n <= |sites|
  {
    if n == 0 then 0 else RowsOfSites(db, sites, top, n - 1) + RowsUpTo(db, sites[n - 1], top)
  }

  function AllRows(db: Database, sites: seq<Site>, top: nat): nat {
    RowsOfSites(db, sites, top, |sites|)
  }

  lemma {:induction false} SumBounds(f: nat -> nat, a: Database, b: Database, sites: seq<Site>, top: nat, n: nat)
    requires n <= |sites| && forall t: nat :: t < n ==> f(t) <= Added(a, b, sites[t], top)
    ensures TaskPool.SumTo(f, n) + RowsOfSites(a, sites, top, n) <= RowsOfSites(b, sites, top, n)
    ensures (forall t: nat :: t < n ==> f(t) == Added(a, b, sites[t], top)) ==>
              TaskPool.SumTo(f, n) + RowsOfSites(a, sites, top, n) == RowsOfSites(b, sites, top, n)
  {
    if n > 0 {
      hide RowsUpTo;
      SumBounds(f, a, b, sites, top, n - 1);
      assert f(n - 1) <= Added(a, b, sites[n - 1], top);
    }
  }

  /** Every site has its splits without gaps, at most `top` of them. */
  ghost predicate Ready(db: Database, sites: seq<Site>, top: nat) {
    forall t: nat :: t < |sites| ==> SplitsUpTo(db, sites[t], top)
  }

  ghost predicate SplitsUpTo(db: Database, site: Site, top: nat) {
    exists k: nat :: k <= top && Contiguous(db, site, k)
  }

  /** All ids the database returned were read. */
  ghost predicate ReadsAlways(events: seq<TaskPool.Event<Reply>>) {
    forall i :: 0 <= i < |events| && events[i].Operate? ==> events[i].choice.read >= CHUNK
  }

  lemma {:induction false} ChoicesRead(plan: Plan, db: Database, workers: nat, events: seq<TaskPool.Event<Reply>>,
                                       t: nat)
    requires ReadsAlways(events)
    ensures forall r :: r in TaskPool.Choices(Tick(plan, db), workers, events, t) ==> r.read >= CHUNK
  {
    if events != [] {
      ChoicesRead(plan, db, workers, events[..|events| - 1], t);
      assert events[|events| - 1].Operate? ==> events[|events| - 1].choice.read >= CHUNK;
    }
  }

  /** The total of a tick over all brands and cities, in every interleaving of all workers: the
      sum of what the sites contribute, never more than the rows added, and exactly those when
      no insert failed and all returned ids were read. */
  lemma TickTotal(plan: Plan, db: Database, workers: nat, events: seq<TaskPool.Event<Reply>>, top: nat)
    requires DistinctSites(plan.sites) && TaskPool.Ended(Tick(plan, db), workers, events)
    requires top >= 1 && Ready(db, plan.sites, top - 1)
    ensures var s := TaskPool.Run(Tick(plan, db), workers, events);
            && Ready(s.db.db, plan.sites, top)
            && s.total + AllRows(db, plan.sites, top) <= AllRows(s.db.db, plan.sites, top)
            && (s.failed == 0 && ReadsAlways(events) ==>
                  s.total + AllRows(db, plan.sites, top) == AllRows(s.db.db, plan.sites, top))
  {
    var program := Tick(plan, db);
    var s := TaskPool.Run(program, workers, events);
    var f := AmountOf(s.db);
    TotalOfTick(plan, db, workers, events);
    hide TaskPool.Run, TaskPool.Ended, RowsUpTo, ReadsAlways, DistinctSites, Contiguous, TaskPool.Choices;
    forall t: nat | t < |plan.sites|
      ensures SplitsUpTo(s.db.db, plan.sites[t], top) && f(t) <= Added(db, s.db.db, plan.sites[t], top)
      ensures s.failed == 0 && ReadsAlways(events) ==> f(t) == Added(db, s.db.db, plan.sites[t], top)
    {
      assert SplitsUpTo(db, plan.sites[t], top - 1);
      var k: nat :| k <= top - 1 && Contiguous(db, plan.sites[t], k);
      assert s.failed == 0 ==> Succeeded(s.db, t);
      var k' := SiteInTick(plan, db, workers, events, t, k, top);
    }
    SumBounds(f, db, s.db.db, plan.sites, top, |plan.sites|);
  }

  predicate Succeeded(d: Shared, t: nat) {
    d.Recall(t).phase.Finished? && d.Recall(t).phase.ok
  }

  lemma TotalOfTick(plan: Plan, db: Database, workers: nat, events: seq<TaskPool.Event<Reply>>)
    requires DistinctSites(plan.sites) && TaskPool.Ended(Tick(plan, db), workers, events)
    ensures var s := TaskPool.Run(Tick(plan, db), workers, events);
            && s.total == TaskPool.SumTo(AmountOf(s.db), |plan.sites|)
            && (s.failed == 0 ==>
                  forall t: nat :: t < |plan.sites| ==> Succeeded(s.db, t))
  {
    var program := Tick(plan, db);
    var s := TaskPool.Run(program, workers, events);
    SitesIsolated(plan, db);
    TaskPool.AllReported(program, workers, events);
    TaskPool.AlwaysHonest(program, AgreeOn(plan.sites), workers, events);
    hide TaskPool.Run, TaskPool.Isolated, TaskPool.Ended, DistinctSites, TaskPool.Sum, TaskPool.SumTo,
         TaskPool.Reported, TaskPool.Successes, StepOf;
    forall r | r in s.reports ensures TaskPool.Amount(r.result) == AmountOf(s.db)(r.task) {
      assert program.claims(r.task, r.result, s.db);
    }
    TaskPool.TotalIsSum(s.reports, AmountOf(s.db), |plan.sites|);
    if s.failed == 0 {
      TaskPool.AllSucceeded(s.reports);
      forall t: nat | t < |plan.sites| ensures Succeeded(s.db, t) {
        SiteSucceeded(plan, db, s, t);
      }
    }
  }

  lemma SiteSucceeded(plan: Plan, db: Database, s: TaskPool.State<Shared>, t: nat)
    requires TaskPool.Honest(Tick(plan, db), s) && TaskPool.Reported(s.reports, Some(t)) == 1
    requires forall r :: r in s.reports ==> r.result.Some?
    ensures Succeeded(s.db, t)
  {
    hide StepOf;
    var r := TaskPool.ReportOf(s.reports, t);
    assert Tick(plan, db).claims(r.task, r.result, s.db);
  }

  // ---------- when every statement works ----------

  ghost predicate AllWork(replies: seq<Reply>) {
    forall i :: 0 <= i < |replies| ==> replies[i].answer.Works?
  }

  /** A site whose statements work never fails, and has returned after a bounded number of them. */
  lemma {:induction false} WorkingSite(plan: Plan, db: Database, t: nat, replies: seq<Reply>, k: nat)
    requires t < |plan.sites| && Contiguous(db, plan.sites[t], k) && AllWork(replies)
    ensures var memory := TaskPool.Perform(Tick(plan, db), t, replies, Shared(db, map[])).Recall(t);
            && Unfailed(memory)
            && (memory.phase.Finished? ||
                StatementsLeft(k, plan.orders(t), memory) + |replies| <= k + |plan.orders(t)| + 4)
  {
    if replies != [] {
      var front, reply := replies[..|replies| - 1], replies[|replies| - 1];
      WorkingSite(plan, db, t, front, k);
      PerformStands(plan, db, t, front);
      hide Statement, CallStands, OrdersTable, Contiguous;
      var d := TaskPool.Perform(Tick(plan, db), t, front, Shared(db, map[]));
      assert reply.answer.Works?;
      WorkingStatement(plan.sites[t], plan.orders(t), plan.cap, reply, db, d.db, d.Recall(t), k);
      if d.Recall(t).phase.Finished? {
        FinishedStays(plan.sites[t], plan.orders(t), plan.cap, reply, d.db, d.Recall(t));
      }
    }
  }

  lemma FinishedStays(site: Site, orders: seq<Order>, cap: nat, reply: Reply, db: Database, memory: Memory)
    requires memory.phase.Finished?
    ensures Statement(site, orders, cap, reply, db, memory) == (db, memory)
  {}

  lemma WorkingSiteReturns(plan: Plan, db: Database, t: nat, replies: seq<Reply>, k: nat)
    requires t < |plan.sites| && Contiguous(db, plan.sites[t], k) && AllWork(replies)
    requires |replies| >= k + |plan.orders(t)| + 4
    ensures var phase := TaskPool.Perform(Tick(plan, db), t, replies, Shared(db, map[])).Recall(t).phase;
            phase.Finished? && phase.ok
    ensures var d := TaskPool.Perform(Tick(plan, db), t, replies, Shared(db, map[]));
            forall result :: ClaimOf(t, result, d) <==> result == Some(Amount(d, t))
  {
    WorkingSite(plan, db, t, replies, k);
  }

  ghost predicate WorksAlways(events: seq<TaskPool.Event<Reply>>) {
    forall i :: 0 <= i < |events| && events[i].Operate? ==> events[i].choice.answer.Works?
  }

  lemma {:induction false} ChoicesWork(plan: Plan, db: Database, workers: nat, events: seq<TaskPool.Event<Reply>>,
                                       t: nat)
    requires WorksAlways(events)
    ensures AllWork(TaskPool.Choices(Tick(plan, db), workers, events, t))
  {
    if events != [] {
      ChoicesWork(plan, db, workers, events[..|events| - 1], t);
      assert events[|events| - 1].Operate? ==> events[|events| - 1].choice.answer.Works?;
    }
  }

  function OrdersOf(orders: nat -> seq<Order>): nat -> nat {
    (t: nat) => |orders(t)|
  }

  /** When every statement of a tick works and all ids are read, no insert fails, and the total is
      the number of all orders, and of all rows added. */
  lemma WorkingTick(plan: Plan, db: Database, workers: nat, events: seq<TaskPool.Event<Reply>>, top: nat)
    requires DistinctSites(plan.sites) && TaskPool.Ended(Tick(plan, db), workers, events)
    requires top >= 1 && Ready(db, plan.sites, top - 1) && WorksAlways(events) && ReadsAlways(events)
    ensures var s := TaskPool.Run(Tick(plan, db), workers, events);
            && s.failed == 0 && s.ok == |plan.sites|
            && s.total == TaskPool.SumTo(OrdersOf(plan.orders), |plan.sites|)
            && s.total + AllRows(db, plan.sites, top) == AllRows(s.db.db, plan.sites, top)
  {
    var program := Tick(plan, db);
    var s := TaskPool.Run(program, workers, events);
    TaskPool.AllReported(program, workers, events);
    SitesIsolated(plan, db);
    TaskPool.AlwaysHonest(program, AgreeOn(plan.sites), workers, events);
    TotalOfTick(plan, db, workers, events);
    hide TaskPool.Run, TaskPool.Isolated, TaskPool.Ended, RowsUpTo, ReadsAlways, WorksAlways, DistinctSites, Contiguous,
         TaskPool.Reported, TaskPool.Successes, TaskPool.Sum;
    forall t: nat | t < |plan.sites|
      ensures Unfailed(s.db.Recall(t))
      ensures Succeeded(s.db, t) ==> Amount(s.db, t) == |plan.orders(t)|
    {
      assert SplitsUpTo(db, plan.sites[t], top - 1);
      var k: nat :| k <= top - 1 && Contiguous(db, plan.sites[t], k);
      SiteUnfailed(plan, db, workers, events, t, k);
      var k' := SiteInTick(plan, db, workers, events, t, k, top);
    }
    forall r | r in s.reports ensures r.result.Some? {
      TaskPool.ReportedSome(s.reports, r);
      assert program.claims(r.task, r.result, s.db);
    }
    TaskPool.NoFailures(s.reports);
    assert s.failed == 0;
    SumsAgree(AmountOf(s.db), OrdersOf(plan.orders), |plan.sites|);
    TickTotal(plan, db, workers, events, top);
  }

  lemma SiteUnfailed(plan: Plan, db: Database, workers: nat, events: seq<TaskPool.Event<Reply>>, t: nat, k: nat)
    requires DistinctSites(plan.sites) && t < |plan.sites| && Contiguous(db, plan.sites[t], k) && WorksAlways(events)
    ensures Unfailed(TaskPool.Run(Tick(plan, db), workers, events).db.Recall(t))
  {
    var program := Tick(plan, db);
    SitesIsolated(plan, db);
    TaskPool.Serializable(program, AgreeOn(plan.sites), workers, events, t);
    ChoicesWork(plan, db, workers, events, t);
    hide TaskPool.Run, TaskPool.Choices, TaskPool.Isolated, Contiguous, SameSite;
    WorkingSite(plan, db, t, TaskPool.Choices(program, workers, events, t), k);
  }

  lemma {:induction false} SumsAgree(f: nat -> nat, g: nat -> nat, n: nat)
    requires forall t: nat :: t < n ==> f(t) == g(t)
    ensures TaskPool.SumTo(f, n) == TaskPool.SumTo(g, n)
  {
    if n > 0 {
      SumsAgree(f, g, n - 1);
    }
  }

  // ---------- any number of ticks ----------

  datatype Round = Round(orders: nat -> seq<Order>, workers: nat, events: seq<TaskPool.Event<Reply>>)

  function PlanOf(plan: Plan, round: Round): Plan {
    plan.(orders := round.orders)
  }

  /** The databases after a run of ticks, and the total reported so far. */
  function AfterTicks(plan: Plan, db: Database, rounds: seq<Round>): (Database, nat) {
    if rounds == [] then (db, 0)
    else
      var (before, total) := AfterTicks(plan, db, rounds[..|rounds| - 1]);
      var s := StateOf(plan, before, rounds[|rounds| - 1]);
      (s.db.db, total + s.total)
  }

  function StateOf(plan: Plan, db: Database, round: Round): TaskPool.State<Shared> {
    TaskPool.Run(Tick(PlanOf(plan, round), db), round.workers, round.events)
  }

  /** Every tick waited for all its workers. */
  ghost predicate AllEnded(plan: Plan, db: Database, rounds: seq<Round>) {
    rounds != [] ==>
      var round := rounds[|rounds| - 1];
      && AllEnded(plan, db, rounds[..|rounds| - 1])
      && TaskPool.Ended(Tick(PlanOf(plan, round), AfterTicks(plan, db, rounds[..|rounds| - 1]).0), round.workers,
                        round.events)
  }

  /** No insert failed and all returned ids were read. */
  ghost predicate Flawless(plan: Plan, db: Database, rounds: seq<Round>) {
    rounds != [] ==>
      var round := rounds[|rounds| - 1];
      && Flawless(plan, db, rounds[..|rounds| - 1])
      && StateOf(plan, AfterTicks(plan, db, rounds[..|rounds| - 1]).0, round).failed == 0
      && ReadsAlways(round.events)
  }

  /** Over any run of ticks the reported total never exceeds the rows added to all brands and
      cities, and equals them when nothing fails. */
  lemma {:induction false} RunTotal(plan: Plan, db: Database, rounds: seq<Round>, start: nat, top: nat)
    requires DistinctSites(plan.sites) && Ready(db, plan.sites, start) && start + |rounds| <= top
    requires AllEnded(plan, db, rounds)
    ensures var (after, total) := AfterTicks(plan, db, rounds);
            && Ready(after, plan.sites, start + |rounds|)
            && total + AllRows(db, plan.sites, top) <= AllRows(after, plan.sites, top)
            && (Flawless(plan, db, rounds) ==>
                  total + AllRows(db, plan.sites, top) == AllRows(after, plan.sites, top))
  {
    if rounds != [] {
      hide TaskPool.Run, TaskPool.Ended, AllRows, ReadsAlways, DistinctSites, Ready;
      var front, round := rounds[..|rounds| - 1], rounds[|rounds| - 1];
      RunTotal(plan, db, front, start, top);
      var before := AfterTicks(plan, db, front).0;
      ReadyLater(before, plan.sites, start + |front|, top - 1);
      TickTotal(PlanOf(plan, round), before, round.workers, round.events, top);
      ReadyLater(before, plan.sites, start + |front|, start + |front|);
      TickTotal(PlanOf(plan, round), before, round.workers, round.events, start + |rounds|);
    }
  }

  /** All statements of all ticks work and all ids are read. */
  ghost predicate Smooth(rounds: seq<Round>) {
    forall i :: 0 <= i < |rounds| ==> WorksAlways(rounds[i].events) && ReadsAlways(rounds[i].events)
  }

  /** The orders of all sites in all ticks. */
  function OrdersIn(plan: Plan, rounds: seq<Round>): nat {
    if rounds == [] then 0
    else
      OrdersIn(plan, rounds[..|rounds| - 1])
      + TaskPool.SumTo(OrdersOf(rounds[|rounds| - 1].orders), |plan.sites|)
  }

  /** When all statements of a run of ticks work and all ids are read, the reported total is the
      number of all orders, and of all rows added. */
  lemma {:induction false} WorkingRun(plan: Plan, db: Database, rounds: seq<Round>, start: nat, top: nat)
    requires DistinctSites(plan.sites) && Ready(db, plan.sites, start) && start + |rounds| <= top
    requires AllEnded(plan, db, rounds) && Smooth(rounds)
    ensures var (after, total) := AfterTicks(plan, db, rounds);
            total == OrdersIn(plan, rounds) && total + AllRows(db, plan.sites, top) == AllRows(after, plan.sites, top)
  {
    if rounds != [] {
      hide TaskPool.Run, TaskPool.Ended, AllRows, ReadsAlways, WorksAlways, DistinctSites, Ready, OrdersOf;
      var front, round := rounds[..|rounds| - 1], rounds[|rounds| - 1];
      WorkingRun(plan, db, front, start, top);
      RunTotal(plan, db, front, start, top);
      var before := AfterTicks(plan, db, front).0;
      ReadyLater(before, plan.sites, start + |front|, top - 1);
      WorkingTick(PlanOf(plan, round), before, round.workers, round.events, top);
    }
  }

  lemma ReadyLater(db: Database, sites: seq<Site>, a: nat, b: nat)
    requires Ready(db, sites, a) && a <= b
    ensures Ready(db, sites, b)
  {
    hide Contiguous;
    forall t: nat | t < |sites| ensures SplitsUpTo(db, sites[t], b) {
      assert SplitsUpTo(db, sites[t], a);
    }
  }
}
