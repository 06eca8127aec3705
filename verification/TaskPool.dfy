/** Worker pools over closed channels. All tasks work on one shared database; every operation
    is a step of its own, so tasks interleave freely. */
module TaskPool {

  import opened Wrappers
  import Arith

  datatype Worker = Waiting | Running(task: nat) | Reporting(task: nat, result: Option<nat>) | Exited

  datatype Report = Report(task: nat, result: Option<nat>)

  /** Tasks 0, 1, ... wait in channels, each in the order of its tasks; worker w serves channel
      `home(w)`. An operation of task t, with whatever the outside decides, may change all of
      the shared database. `claims` tells with which results, an amount or a failure, a task
      may end on a given database. */
  datatype Program<!D, !C> = Program(
    tasks: nat,
    channel: nat -> nat,
    home: nat -> nat,
    initial: D,
    step: (nat, C, D) -> D,
    claims: (nat, Option<nat>, D) -> bool)

  /** `takers` maps each task taken to its worker. */
  datatype State<D> = State(
    takers: map<nat, nat>,
    workers: seq<Worker>,
    db: D,
    reports: seq<Report>,
    ok: nat,
    failed: nat,
    total: nat)

  datatype Event<C> =
    | Take(w: nat, task: nat)
    | Exit(w: nat)
    | Operate(w: nat, choice: C)
    | Finish(w: nat, result: Option<nat>)
    | Publish(w: nat)

  /** Task t is at the head of its channel. */
  predicate AtHead<D, C>(p: Program<D, C>, takers: map<nat, nat>, t: nat) {
    t < p.tasks && t !in takers && forall u: nat :: u < t && p.channel(u) == p.channel(t) ==> u in takers
  }

  predicate Drained<D, C>(p: Program<D, C>, takers: map<nat, nat>, channel: nat) {
    forall t: nat :: t < p.tasks && p.channel(t) == channel ==> t in takers
  }

  predicate Enabled<D, C>(p: Program<D, C>, s: State<D>, e: Event<C>) {
    && e.w < |s.workers|
    && var worker := s.workers[e.w];
       match e
       case Take(w, t) => worker.Waiting? && p.channel(t) == p.home(w) && AtHead(p, s.takers, t)
       case Exit(w) => worker.Waiting? && Drained(p, s.takers, p.home(w))
       case Operate(_, _) => worker.Running?
       case Finish(_, result) => worker.Running? && p.claims(worker.task, result, s.db)
       case Publish(_) => worker.Reporting?
  }

  function Apply<D, C>(p: Program<D, C>, s: State<D>, e: Event<C>): State<D> {
    if !Enabled(p, s, e) then s else
    var worker := s.workers[e.w];
    match e
    case Take(w, t) => s.(workers := s.workers[w := Running(t)], takers := s.takers[t := w])
    case Exit(w) => s.(workers := s.workers[w := Exited])
    case Operate(_, choice) => s.(db := p.step(worker.task, choice, s.db))
    case Finish(w, result) => s.(workers := s.workers[w := Reporting(worker.task, result)])
    case Publish(w) =>
      s.(workers := s.workers[w := Waiting],
         reports := s.reports + [Report(worker.task, worker.result)],
         ok := s.ok + if worker.result.Some? then 1 else 0,
         failed := s.failed + if worker.result.None? then 1 else 0,
         total := s.total + Amount(worker.result))
  }

  function Amount(result: Option<nat>): nat {
    if result.Some? then result.value else 0
  }

  function Run<D, C>(p: Program<D, C>, workers: nat, events: seq<Event<C>>): State<D> {
    if events == [] then State(map[], seq(workers, _ => Waiting), p.initial, [], 0, 0, 0)
    else Apply(p, Run(p, workers, events[..|events| - 1]), events[|events| - 1])
  }

  // ---------- each task once ----------

  /** Whether a worker is busy, with one task or with any. */
  predicate Busy(w: Worker, task: Option<nat>) {
    (w.Running? || w.Reporting?) && (task.None? || task.value == w.task)
  }

  function Held(workers: seq<Worker>, task: Option<nat>): nat {
    if workers == [] then 0
    else Held(workers[..|workers| - 1], task) + if Busy(workers[|workers| - 1], task) then 1 else 0
  }

  function Reported(reports: seq<Report>, task: Option<nat>): nat {
    if reports == [] then 0
    else
      Reported(reports[..|reports| - 1], task)
      + if task.None? || task.value == reports[|reports| - 1].task then 1 else 0
  }

  function Taken(takers: map<nat, nat>, task: Option<nat>): nat {
    if task.None? then |takers| else if task.value in takers then 1 else 0
  }

  function Successes(reports: seq<Report>): nat {
    if reports == [] then 0
    else Successes(reports[..|reports| - 1]) + if reports[|reports| - 1].result.Some? then 1 else 0
  }

  function Sum(reports: seq<Report>): nat {
    if reports == [] then 0
    else Sum(reports[..|reports| - 1]) + Amount(reports[|reports| - 1].result)
  }

  lemma {:induction false} HeldUpdate(workers: seq<Worker>, w: nat, worker: Worker, task: Option<nat>)
    requires w < |workers|
    ensures Held(workers[w := worker], task)
            == Held(workers, task) - (if Busy(workers[w], task) then 1 else 0) + (if Busy(worker, task) then 1 else 0)
  {
    var n := |workers| - 1;
    if w == n {
      assert workers[w := worker][..n] == workers[..n];
    } else {
      HeldUpdate(workers[..n], w, worker, task);
      assert workers[w := worker][..n] == workers[..n][w := worker];
    }
  }

  lemma {:induction false} HeldOnce(workers: seq<Worker>, w: nat, task: Option<nat>)
    requires w < |workers| && Busy(workers[w], task)
    ensures Held(workers, task) >= 1
    ensures Held(workers, task) == 1 ==> forall v :: 0 <= v < |workers| && v != w ==> !Busy(workers[v], task)
  {
    forall v | 0 <= v < |workers| && v != w && Busy(workers[v], task)
      ensures Held(workers, task) >= 2
    {
      HeldUpdate(workers, w, Waiting, task);
      HeldSome(workers[w := Waiting], v, task);
    }
    HeldSome(workers, w, task);
  }

  lemma {:induction false} HeldSome(workers: seq<Worker>, w: nat, task: Option<nat>)
    requires w < |workers| && Busy(workers[w], task)
    ensures Held(workers, task) >= 1
  {
    if w < |workers| - 1 {
      HeldSome(workers[..|workers| - 1], w, task);
    }
  }

  lemma {:induction false} HeldNone(workers: seq<Worker>, task: Option<nat>)
    requires forall w :: 0 <= w < |workers| ==> !Busy(workers[w], task)
    ensures Held(workers, task) == 0
  {
    if workers != [] {
      HeldNone(workers[..|workers| - 1], task);
    }
  }

  /** Every taken task is in exactly one place: with one worker, or in one report. */
  ghost predicate OnePlace<D>(s: State<D>) {
    forall task: Option<nat> :: Held(s.workers, task) + Reported(s.reports, task) == Taken(s.takers, task)
  }

  ghost predicate Tallied<D>(s: State<D>) {
    && s.ok == Successes(s.reports)
    && s.ok + s.failed == Reported(s.reports, None)
    && s.total == Sum(s.reports)
  }

  /** A busy worker runs a task it took itself; a worker exits only when its channel is empty. */
  predicate OwnTask<D, C>(p: Program<D, C>, worker: Worker, w: nat, takers: map<nat, nat>) {
    && (Busy(worker, None) ==> worker.task in takers && takers[worker.task] == w)
    && (worker.Exited? ==> Drained(p, takers, p.home(w)))
  }

  ghost predicate Valid<D, C>(p: Program<D, C>, s: State<D>) {
    && (forall t :: t in s.takers ==> t < p.tasks)
    && OnePlace(s)
    && Tallied(s)
    && forall w :: 0 <= w < |s.workers| ==> OwnTask(p, s.workers[w], w, s.takers)
  }

  lemma PlaceStep<D, C>(p: Program<D, C>, s: State<D>, e: Event<C>)
    requires OnePlace(s)
    ensures OnePlace(Apply(p, s, e))
  {
    var s' := Apply(p, s, e);
    forall task: Option<nat>
      ensures Held(s'.workers, task) + Reported(s'.reports, task) == Taken(s'.takers, task)
    {
      assert Held(s.workers, task) + Reported(s.reports, task) == Taken(s.takers, task);
      if Enabled(p, s, e) && !e.Operate? {
        HeldUpdate(s.workers, e.w, s'.workers[e.w], task);
        if e.Publish? {
          assert s'.reports[..|s.reports|] == s.reports;
        }
      }
    }
  }

  lemma TallyStep<D, C>(p: Program<D, C>, s: State<D>, e: Event<C>)
    requires Tallied(s)
    ensures Tallied(Apply(p, s, e))
  {
    hide Successes, Reported, Sum;
    if Enabled(p, s, e) && e.Publish? {
      var worker := s.workers[e.w];
      TallySnoc(s.reports, Report(worker.task, worker.result));
    }
  }

  lemma TallySnoc(reports: seq<Report>, r: Report)
    ensures Successes(reports + [r]) == Successes(reports) + if r.result.Some? then 1 else 0
    ensures Reported(reports + [r], None) == Reported(reports, None) + 1
    ensures Sum(reports + [r]) == Sum(reports) + Amount(r.result)
  {
    assert (reports + [r])[..|reports|] == reports;
  }

  /** Takers are never forgotten. */
  predicate Remembers(before: map<nat, nat>, after: map<nat, nat>) {
    forall t :: t in before ==> t in after && after[t] == before[t]
  }

  lemma OwnStep<D, C>(p: Program<D, C>, s: State<D>, e: Event<C>)
    requires Valid(p, s)
    ensures var s' := Apply(p, s, e);
            && (forall t :: t in s'.takers ==> t < p.tasks) && |s'.workers| == |s.workers|
            && Remembers(s.takers, s'.takers)
            && forall w :: 0 <= w < |s'.workers| ==> OwnTask(p, s'.workers[w], w, s'.takers)
  {
    hide OnePlace, Tallied;
    var s' := Apply(p, s, e);
    forall w | 0 <= w < |s'.workers|
      ensures OwnTask(p, s'.workers[w], w, s'.takers)
    {
      assert OwnTask(p, s.workers[w], w, s.takers);
    }
  }

  lemma {:induction false} AlwaysValid<D, C>(p: Program<D, C>, workers: nat, events: seq<Event<C>>)
    ensures Valid(p, Run(p, workers, events)) && |Run(p, workers, events).workers| == workers
  {
    hide Held;
    if events == [] {
      var idle := seq(workers, _ => Waiting);
      forall task: Option<nat> ensures Held(idle, task) == 0 {
        HeldNone(idle, task);
      }
    } else {
      var s, e := Run(p, workers, events[..|events| - 1]), events[|events| - 1];
      AlwaysValid(p, workers, events[..|events| - 1]);
      hide OnePlace, Tallied, Run, OwnTask;
      PlaceStep(p, s, e);
      TallyStep(p, s, e);
      OwnStep(p, s, e);
    }
  }

  ghost function Below(n: nat): (r: set<nat>)
    ensures forall t: nat :: t in r <==> t < n
    ensures |r| == n
  {
    if n == 0 then {} else
      var below := Below(n - 1);
      assert n - 1 !in below;
      below + {n - 1}
  }

  /** All workers have exited, and every channel was served by one. */
  ghost predicate Ended<D, C>(p: Program<D, C>, workers: nat, events: seq<Event<C>>) {
    && (forall w: nat :: w < |Run(p, workers, events).workers| ==> Run(p, workers, events).workers[w].Exited?)
    && (forall t: nat :: t < p.tasks ==> exists w: nat :: w < workers && p.home(w) == p.channel(t))
  }

  /** When every worker has exited, each task was reported exactly once, and the counters are
      the numbers of its outcomes. */
  lemma AllReported<D, C>(p: Program<D, C>, workers: nat, events: seq<Event<C>>)
    requires Ended(p, workers, events)
    ensures var s := Run(p, workers, events);
            && s.ok + s.failed == p.tasks
            && (forall t: nat :: Reported(s.reports, Some(t)) == if t < p.tasks then 1 else 0)
            && s.ok == Successes(s.reports) && s.total == Sum(s.reports)
            && Reported(s.reports, None) == p.tasks
  {
    AlwaysValid(p, workers, events);
    var s := Run(p, workers, events);
    forall t: nat | t < p.tasks ensures t in s.takers {
      var w: nat :| w < workers && p.home(w) == p.channel(t);
      assert OwnTask(p, s.workers[w], w, s.takers);
    }
    hide Run;
    assert s.takers.Keys == Below(p.tasks);
    assert |s.takers| == |s.takers.Keys|;
    forall task: Option<nat> ensures Reported(s.reports, task) == Taken(s.takers, task) {
      HeldNone(s.workers, task);
    }
    assert Reported(s.reports, None) == Taken(s.takers, None);
  }

  lemma {:induction false} TakersGrow<D, C>(p: Program<D, C>, workers: nat, events: seq<Event<C>>, k: nat)
    requires k <= |events|
    ensures Remembers(Run(p, workers, events[..k]).takers, Run(p, workers, events).takers)
  {
    if k == |events| {
      assert events[..k] == events;
    } else {
      var front := events[..|events| - 1];
      assert front[..k] == events[..k];
      TakersGrow(p, workers, front, k);
      AlwaysValid(p, workers, front);
      OwnStep(p, Run(p, workers, front), events[|events| - 1]);
    }
  }

  /** No two workers ever work on the same task, not even at different moments. */
  lemma OneWorkerPerTask<D, C>(p: Program<D, C>, workers: nat, events: seq<Event<C>>, k: nat, v: nat, w: nat)
    requires k <= |events| && v < |Run(p, workers, events[..k]).workers| && w < |Run(p, workers, events).workers|
    requires Busy(Run(p, workers, events[..k]).workers[v], None)
    requires Busy(Run(p, workers, events).workers[w], None)
    requires Run(p, workers, events[..k]).workers[v].task == Run(p, workers, events).workers[w].task
    ensures v == w
  {
    AlwaysValid(p, workers, events[..k]);
    AlwaysValid(p, workers, events);
    TakersGrow(p, workers, events, k);
    var early, late := Run(p, workers, events[..k]), Run(p, workers, events);
    assert OwnTask(p, early.workers[v], v, early.takers);
    assert OwnTask(p, late.workers[w], w, late.takers);
  }

  // ---------- isolated tasks ----------

  /** `agree(t, d, d')`: the two databases are the same as far as task t can tell; for numbers
      that are no task, as far as the rest of the world can tell. */
  type View<!D> = (nat, D, D) -> bool

  ghost predicate Equivalence<D(!new)>(agree: View<D>) {
    && (forall t: nat, d: D :: agree(t, d, d))
    && (forall t: nat, a: D, b: D :: agree(t, a, b) ==> agree(t, b, a))
    && (forall t: nat, a: D, b: D, c: D :: agree(t, a, b) && agree(t, b, c) ==> agree(t, a, c))
  }

  /** What a task does depends only on its own part of the database and changes only that. */
  ghost predicate Isolated<D(!new), C(!new)>(p: Program<D, C>, agree: View<D>) {
    && Equivalence(agree)
    && (forall t: nat, u: nat, c: C, d: D :: t < p.tasks && u != t ==> agree(u, p.step(t, c, d), d))
    && (forall t: nat, c: C, d: D, d': D :: t < p.tasks && agree(t, d, d') ==>
          agree(t, p.step(t, c, d), p.step(t, c, d')))
    && (forall t: nat, r: Option<nat>, d: D, d': D :: agree(t, d, d') ==> p.claims(t, r, d) == p.claims(t, r, d'))
  }

  lemma Frame<D(!new), C(!new)>(p: Program<D, C>, agree: View<D>, t: nat, u: nat, c: C, d: D)
    requires Isolated(p, agree) && t < p.tasks && u != t
    ensures agree(u, p.step(t, c, d), d)
  {}

  lemma Local<D(!new), C(!new)>(p: Program<D, C>, agree: View<D>, t: nat, c: C, d: D, d': D)
    requires Isolated(p, agree) && t < p.tasks && agree(t, d, d')
    ensures agree(t, p.step(t, c, d), p.step(t, c, d'))
  {}

  lemma Chain<D(!new)>(agree: View<D>, t: nat, a: D, b: D, c: D)
    requires Equivalence(agree) && agree(t, a, b) && (agree(t, b, c) || agree(t, c, b))
    ensures agree(t, a, c)
  {}

  // ---------- interleaving is invisible ----------

  /** The operations a run performed on one task, in order. */
  function Choices<D, C>(p: Program<D, C>, workers: nat, events: seq<Event<C>>, t: nat): seq<C> {
    if events == [] then []
    else
      var front, e := events[..|events| - 1], events[|events| - 1];
      var s := Run(p, workers, front);
      Choices(p, workers, front, t)
      + if Enabled(p, s, e) && e.Operate? && s.workers[e.w].task == t then [e.choice] else []
  }

  /** The database after a list of operations of one task. */
  function Perform<D, C>(p: Program<D, C>, t: nat, choices: seq<C>, d: D): D {
    if choices == [] then d
    else p.step(t, choices[|choices| - 1], Perform(p, t, choices[..|choices| - 1], d))
  }

  lemma {:induction false} PerformFrame<D(!new), C(!new)>(p: Program<D, C>, agree: View<D>, t: nat, choices: seq<C>,
                                                          d: D, u: nat)
    requires Isolated(p, agree) && t < p.tasks && u != t
    ensures agree(u, Perform(p, t, choices, d), d)
  {
    if choices != [] {
      var before := Perform(p, t, choices[..|choices| - 1], d);
      PerformFrame(p, agree, t, choices[..|choices| - 1], d, u);
      Frame(p, agree, t, u, choices[|choices| - 1], before);
      Chain(agree, u, Perform(p, t, choices, d), before, d);
    }
  }

  lemma {:induction false} PerformLocal<D(!new), C(!new)>(p: Program<D, C>, agree: View<D>, t: nat, choices: seq<C>,
                                                          d: D, d': D)
    requires Isolated(p, agree) && t < p.tasks && agree(t, d, d')
    ensures agree(t, Perform(p, t, choices, d), Perform(p, t, choices, d'))
  {
    if choices != [] {
      var front := choices[..|choices| - 1];
      PerformLocal(p, agree, t, front, d, d');
      Local(p, agree, t, choices[|choices| - 1], Perform(p, t, front, d), Perform(p, t, front, d'));
    }
  }

  /** Whatever the interleaving, a task finds the database as if it had run alone; whoever is
      no task finds it unchanged. */
  lemma {:induction false} Serializable<D(!new), C(!new)>(p: Program<D, C>, agree: View<D>, workers: nat,
                                                          events: seq<Event<C>>, t: nat)
    requires Isolated(p, agree)
    ensures agree(t, Run(p, workers, events).db, Perform(p, t, Choices(p, workers, events, t), p.initial))
  {
    if events == [] {
      assert Equivalence(agree);
    } else {
      hide Isolated, Equivalence;
      var front, e := events[..|events| - 1], events[|events| - 1];
      Serializable(p, agree, workers, front, t);
      AlwaysValid(p, workers, front);
      var s, before := Run(p, workers, front), Choices(p, workers, front, t);
      var alone := Perform(p, t, before, p.initial);
      if Enabled(p, s, e) && e.Operate? {
        var u := s.workers[e.w].task;
        assert OwnTask(p, s.workers[e.w], e.w, s.takers);
        if u == t {
          Local(p, agree, t, e.choice, s.db, alone);
          PerformNext(p, t, before, e.choice);
        } else {
          assert before + [] == before;
          IsolatedEquivalence(p, agree);
          Frame(p, agree, u, t, e.choice, s.db);
          Chain(agree, t, p.step(u, e.choice, s.db), s.db, alone);
        }
      } else {
        assert before + [] == before;
      }
    }
  }

  lemma IsolatedEquivalence<D(!new), C(!new)>(p: Program<D, C>, agree: View<D>)
    requires Isolated(p, agree)
    ensures Equivalence(agree)
  {}

  lemma PerformNext<D, C>(p: Program<D, C>, t: nat, choices: seq<C>, c: C)
    ensures Perform(p, t, choices + [c], p.initial) == p.step(t, c, Perform(p, t, choices, p.initial))
  {
    assert (choices + [c])[..|choices|] == choices;
  }

  /** The tasks of `order` run to their end one after another. */
  function OneByOne<D, C>(p: Program<D, C>, order: seq<nat>, choices: nat -> seq<C>): D {
    if order == [] then p.initial
    else
      var t := order[|order| - 1];
      Perform(p, t, choices(t), OneByOne(p, order[..|order| - 1], choices))
  }

  ghost predicate Tasks(order: seq<nat>, n: nat) {
    && (forall i :: 0 <= i < |order| ==> order[i] < n)
    && forall i, j :: 0 <= i < j < |order| ==> order[i] != order[j]
  }

  lemma {:induction false} OneByOneAgrees<D(!new), C(!new)>(p: Program<D, C>, agree: View<D>, order: seq<nat>,
                                                            choices: nat -> seq<C>, t: nat)
    requires Isolated(p, agree) && Tasks(order, p.tasks)
    ensures agree(t, OneByOne(p, order, choices),
                  if t in order then Perform(p, t, choices(t), p.initial) else p.initial)
  {
    IsolatedEquivalence(p, agree);
    if order == [] {
      assert Equivalence(agree);
    } else {
      var front, u := order[..|order| - 1], order[|order| - 1];
      assert order == front + [u];
      OneByOneAgrees(p, agree, front, choices, t);
      hide Isolated;
      var before := OneByOne(p, front, choices);
      if t == u {
        assert t !in front;
        PerformLocal(p, agree, t, choices(t), before, p.initial);
      } else {
        PerformFrame(p, agree, u, choices(u), before, t);
        Chain(agree, t, Perform(p, u, choices(u), before), before,
              if t in order then Perform(p, t, choices(t), p.initial) else p.initial);
      }
    }
  }

  /** So a pool of any size leaves, for every task and for the rest of the world, the database
      that running the tasks one after another leaves, in any order that visits each once. */
  lemma InterleavingInvisible<D(!new), C(!new)>(p: Program<D, C>, agree: View<D>, workers: nat, events: seq<Event<C>>,
                                                order: seq<nat>, t: nat)
    requires Isolated(p, agree) && Tasks(order, p.tasks) && forall u: nat :: u < p.tasks ==> u in order
    ensures agree(t, Run(p, workers, events).db,
                  OneByOne(p, order, (u: nat) => Choices(p, workers, events, u)))
  {
    var choices := (u: nat) => Choices(p, workers, events, u);
    IsolatedEquivalence(p, agree);
    Serializable(p, agree, workers, events, t);
    OneByOneAgrees(p, agree, order, choices, t);
    if t !in order {
      NoChoices(p, workers, events, t);
    }
    Chain(agree, t, Run(p, workers, events).db, Perform(p, t, choices(t), p.initial), OneByOne(p, order, choices));
  }

  lemma {:induction false} NoChoices<D, C>(p: Program<D, C>, workers: nat, events: seq<Event<C>>, t: nat)
    requires t >= p.tasks
    ensures Choices(p, workers, events, t) == []
  {
    if events != [] {
      var front, e := events[..|events| - 1], events[|events| - 1];
      NoChoices(p, workers, front, t);
      AlwaysValid(p, workers, front);
      var s := Run(p, workers, front);
      if Enabled(p, s, e) && e.Operate? {
        assert OwnTask(p, s.workers[e.w], e.w, s.takers);
      }
    }
  }

  // ---------- results are what the database claims ----------

  /** The result of every finished or reported task is one the database, as it is, allows. */
  ghost predicate Honest<D, C>(p: Program<D, C>, s: State<D>) {
    && (forall w :: 0 <= w < |s.workers| && s.workers[w].Reporting? ==>
          p.claims(s.workers[w].task, s.workers[w].result, s.db))
    && (forall r :: r in s.reports ==> p.claims(r.task, r.result, s.db))
  }

  lemma {:induction false} ReportedSome(reports: seq<Report>, r: Report)
    requires r in reports
    ensures Reported(reports, Some(r.task)) >= 1
  {
    if r != reports[|reports| - 1] {
      assert reports == reports[..|reports| - 1] + [reports[|reports| - 1]];
      ReportedSome(reports[..|reports| - 1], r);
    }
  }

  /** While a worker runs a task, nobody else holds it and no report mentions it. */
  lemma Alone<D, C>(p: Program<D, C>, s: State<D>, w: nat)
    requires Valid(p, s) && w < |s.workers| && s.workers[w].Running?
    ensures s.workers[w].task < p.tasks
    ensures forall v :: 0 <= v < |s.workers| && v != w ==> !Busy(s.workers[v], Some(s.workers[w].task))
    ensures forall r :: r in s.reports ==> r.task != s.workers[w].task
  {
    var t := s.workers[w].task;
    assert OwnTask(p, s.workers[w], w, s.takers);
    assert Held(s.workers, Some(t)) + Reported(s.reports, Some(t)) == Taken(s.takers, Some(t)) == 1;
    HeldOnce(s.workers, w, Some(t));
    forall r | r in s.reports ensures r.task != t {
      if r.task == t {
        ReportedSome(s.reports, r);
      }
    }
  }

  lemma HonestStep<D(!new), C(!new)>(p: Program<D, C>, agree: View<D>, s: State<D>, e: Event<C>)
    requires Isolated(p, agree) && Valid(p, s) && Honest(p, s)
    ensures Honest(p, Apply(p, s, e))
  {
    hide OnePlace, Tallied, OwnTask, Isolated;
    if Enabled(p, s, e) && e.Operate? {
      Alone(p, s, e.w);
      var s', t := Apply(p, s, e), s.workers[e.w].task;
      forall u: nat, r: Option<nat> | u != t && p.claims(u, r, s.db) ensures p.claims(u, r, s'.db) {
        Frame(p, agree, t, u, e.choice, s.db);
        ClaimKept(p, agree, u, r, s'.db, s.db);
      }
    }
  }

  lemma ClaimKept<D(!new), C(!new)>(p: Program<D, C>, agree: View<D>, t: nat, r: Option<nat>, d: D, d': D)
    requires Isolated(p, agree) && agree(t, d, d')
    ensures p.claims(t, r, d) == p.claims(t, r, d')
  {}

  lemma {:induction false} AlwaysHonest<D(!new), C(!new)>(p: Program<D, C>, agree: View<D>, workers: nat,
                                                          events: seq<Event<C>>)
    requires Isolated(p, agree)
    ensures Honest(p, Run(p, workers, events))
  {
    if events != [] {
      hide Isolated;
      AlwaysValid(p, workers, events[..|events| - 1]);
      AlwaysHonest(p, agree, workers, events[..|events| - 1]);
      HonestStep(p, agree, Run(p, workers, events[..|events| - 1]), events[|events| - 1]);
    }
  }

  // ---------- totals ----------

  function SumTo(f: nat -> nat, n: nat): nat {
    if n == 0 then 0 else SumTo(f, n - 1) + f(n - 1)
  }

  /** The amounts of the first n tasks, each as often as it was reported. */
  function Weighted(reports: seq<Report>, f: nat -> nat, n: nat): nat {
    if n == 0 then 0 else Weighted(reports, f, n - 1) + Reported(reports, Some(n - 1)) * f(n - 1)
  }

  lemma {:induction false} WeightedStep(reports: seq<Report>, f: nat -> nat, n: nat)
    requires reports != []
    ensures var r := reports[|reports| - 1];
            Weighted(reports, f, n) == Weighted(reports[..|reports| - 1], f, n) + if r.task < n then f(r.task) else 0
  {
    if n > 0 {
      WeightedStep(reports, f, n - 1);
      var front := reports[..|reports| - 1];
      Arith.Distribute(f(n - 1), Reported(front, Some(n - 1)), 1);
    }
  }

  lemma {:induction false} SumIsWeighted(reports: seq<Report>, f: nat -> nat, n: nat)
    requires forall r :: r in reports ==> r.task < n && Amount(r.result) == f(r.task)
    ensures Sum(reports) == Weighted(reports, f, n)
  {
    if reports == [] {
      WeightedNone(f, n);
    } else {
      assert reports == reports[..|reports| - 1] + [reports[|reports| - 1]];
      WeightedStep(reports, f, n);
      SumIsWeighted(reports[..|reports| - 1], f, n);
    }
  }

  lemma {:induction false} WeightedNone(f: nat -> nat, n: nat)
    ensures Weighted([], f, n) == 0
  {
    if n > 0 {
      WeightedNone(f, n - 1);
    }
  }

  lemma {:induction false} WeightedOnce(reports: seq<Report>, f: nat -> nat, n: nat)
    requires forall t: nat :: t < n ==> Reported(reports, Some(t)) == 1
    ensures Weighted(reports, f, n) == SumTo(f, n)
  {
    if n > 0 {
      WeightedOnce(reports, f, n - 1);
    }
  }

  /** When every task was reported once, in whatever order, the total is the sum of the tasks'
      amounts. */
  lemma TotalIsSum(reports: seq<Report>, f: nat -> nat, n: nat)
    requires forall t: nat :: Reported(reports, Some(t)) == if t < n then 1 else 0
    requires forall r :: r in reports ==> Amount(r.result) == f(r.task)
    ensures Sum(reports) == SumTo(f, n)
  {
    forall r | r in reports ensures r.task < n {
      ReportedSome(reports, r);
    }
    SumIsWeighted(reports, f, n);
    WeightedOnce(reports, f, n);
  }

  /** The report of a task that was reported. */
  lemma {:induction false} ReportOf(reports: seq<Report>, t: nat) returns (r: Report)
    requires Reported(reports, Some(t)) >= 1
    ensures r in reports && r.task == t
  {
    r := reports[|reports| - 1];
    if r.task != t {
      r := ReportOf(reports[..|reports| - 1], t);
    }
  }

  /** No failures counted, no failure reported. */
  lemma {:induction false} AllSucceeded(reports: seq<Report>)
    ensures Successes(reports) <= Reported(reports, None)
    ensures Successes(reports) == Reported(reports, None) ==> forall r :: r in reports ==> r.result.Some?
  {
    if reports != [] {
      AllSucceeded(reports[..|reports| - 1]);
      assert reports == reports[..|reports| - 1] + [reports[|reports| - 1]];
    }
  }

  lemma {:induction false} NoFailures(reports: seq<Report>)
    requires forall r :: r in reports ==> r.result.Some?
    ensures Successes(reports) == Reported(reports, None)
  {
    if reports != [] {
      NoFailures(reports[..|reports| - 1]);
    }
  }

  // ---------- no worker is stuck ----------

  /** The first task of a channel that is not taken yet. */
  lemma {:induction false} HeadOf<D, C>(p: Program<D, C>, takers: map<nat, nat>, t: nat) returns (head: nat)
    requires t < p.tasks && t !in takers
    ensures AtHead(p, takers, head) && p.channel(head) == p.channel(t)
  {
    if u: nat :| u < t && p.channel(u) == p.channel(t) && u !in takers {
      head := HeadOf(p, takers, u);
    } else {
      head := t;
    }
  }

  /** Every worker that has not exited can take a step: the next task of its channel, an operation
      of the task it runs, its report, or its exit when the channel is empty. */
  lemma WorkerSteps<D, C>(p: Program<D, C>, s: State<D>, w: nat, choice: C) returns (e: Event<C>)
    requires w < |s.workers| && !s.workers[w].Exited?
    ensures e.w == w && Enabled(p, s, e)
    ensures s.workers[w].Waiting? ==> e == Exit(w) || e.Take?
  {
    match s.workers[w]
    case Waiting =>
      if t: nat :| t < p.tasks && p.channel(t) == p.home(w) && t !in s.takers {
        var head := HeadOf(p, s.takers, t);
        e := Take(w, head);
      } else {
        e := Exit(w);
      }
    case Running(_) => e := Operate(w, choice);
    case Reporting(_, _) => e := Publish(w);
  }
}
