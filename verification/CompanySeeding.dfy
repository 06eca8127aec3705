/** The worker pool of one company: all shards live in one database and are kept apart only by
    the names of their tables. */
module CompanySeeding {

  import opened Wrappers
  import opened SplitLayout
  import opened SplitResume
  import opened ShardNames
  import TaskPool

  /** Row counts of all customers tables of the company, by table suffix. */
  type Tables = map<string, nat>

  /** The variables of the worker that seeds a shard: n splits counted, or rows being inserted,
      or an error returned. */
  datatype Memory =
    | Counting(n: nat, total: nat, last: nat)
    | Inserting(split: nat, seen: nat, left: int)
    | Broken

  datatype Shared = Shared(tables: Tables, memory: map<nat, Memory>) {
    function Recall(t: nat): Memory {
      if t in memory then memory[t] else Counting(0, 0, 0)
    }
  }

  /** The next statement for a shard: count a split, open one, or flush a batch. */
  function Operation(p: Params, target: int, task: Task, answer: Answer, tables: Tables, memory: Memory)
    : (Tables, Memory)
    requires p.Valid()
  {
    match memory
    case Counting(n, total, last) =>
      var name := task.Suffix(n + 1);
      if answer.Fails? || name !in tables then (tables, Inserting(Max(1, n), last, target - total))
      else (tables, Counting(n + 1, total + tables[name], tables[name]))
    case Inserting(split, seen, left) =>
      if left <= 0 then (tables, memory)
      else if answer.Fails? then (tables, Broken)
      else if seen >= p.cap then
        var name := task.Suffix(split + 1);
        (if name in tables then tables else tables[name := 0],
         if answer.Half? then Broken else Inserting(split + 1, 0, left))
      else
        var name, rows := task.Suffix(split), Min(p.batch, left);
        if name !in tables then (tables, Broken)
        else
          (tables[name := tables[name] + rows],
           if answer.Half? then Broken else Inserting(split, seen + rows, left - rows))
    case Broken => (tables, memory)
  }

  predicate Done(memory: Memory) {
    memory.Inserting? && memory.left <= 0
  }

  function StepOf(p: Params, target: int, tasks: seq<Task>, t: nat, answer: Answer, d: Shared): Shared
    requires p.Valid()
  {
    if t >= |tasks| then d
    else
      var (tables, memory) := Operation(p, target, tasks[t], answer, d.tables, d.Recall(t));
      Shared(tables, d.memory[t := memory])
  }

  /** Success, counted as one, only when all rows are in; the child tables may still fail then. */
  predicate ClaimOf(t: nat, result: Option<nat>, d: Shared) {
    if result.None? then d.Recall(t).Broken? || Done(d.Recall(t)) else result.value == 1 && Done(d.Recall(t))
  }

  /** The pool: one channel, the tasks in the order they were built. */
  function Company(p: Params, target: int, tasks: seq<Task>, tables: Tables): TaskPool.Program<Shared, Answer>
    requires p.Valid()
  {
    TaskPool.Program(|tasks|, _ => 0, _ => 0, Shared(tables, map[]),
                     (t, answer, d) => StepOf(p, target, tasks, t, answer, d),
                     (t, result, d) => ClaimOf(t, result, d))
  }

  // ---------- isolation by names ----------

  predicate Same(a: Tables, b: Tables, name: string) {
    (name in a <==> name in b) && (name in a ==> a[name] == b[name])
  }

  ghost predicate Owned(tasks: seq<Task>, name: string) {
    exists i: nat, n: nat :: i < |tasks| && name == tasks[i].Suffix(n)
  }

  /** Task t sees the tables of its suffixes and its own variables; the rest of the world the
      tables of no task. */
  ghost predicate Agree(tasks: seq<Task>, t: nat, a: Shared, b: Shared) {
    && a.Recall(t) == b.Recall(t)
    && if t < |tasks| then forall n: nat :: Same(a.tables, b.tables, tasks[t].Suffix(n))
       else forall name :: !Owned(tasks, name) ==> Same(a.tables, b.tables, name)
  }

  ghost function AgreeOn(tasks: seq<Task>): TaskPool.View<Shared> {
    (t: nat, a: Shared, b: Shared) => Agree(tasks, t, a, b)
  }

  lemma AgreeEquivalence(tasks: seq<Task>)
    ensures TaskPool.Equivalence(AgreeOn(tasks))
  {
    hide Task.Suffix, Owned;
    var agree := AgreeOn(tasks);
    forall t: nat, a: Shared, b: Shared, c: Shared | agree(t, a, b) && agree(t, b, c) ensures agree(t, a, c) {
      AgreeChain(tasks, t, a, b, c);
    }
  }

  lemma AgreeChain(tasks: seq<Task>, t: nat, a: Shared, b: Shared, c: Shared)
    requires Agree(tasks, t, a, b) && Agree(tasks, t, b, c)
    ensures Agree(tasks, t, a, c)
  {
    hide Task.Suffix, Owned, Shared.Recall;
    if t < |tasks| {
      forall n: nat ensures Same(a.tables, c.tables, tasks[t].Suffix(n)) {
        assert Same(a.tables, b.tables, tasks[t].Suffix(n)) && Same(b.tables, c.tables, tasks[t].Suffix(n));
      }
    } else {
      forall name | !Owned(tasks, name) ensures Same(a.tables, c.tables, name) {
        assert Same(a.tables, b.tables, name) && Same(b.tables, c.tables, name);
      }
    }
  }

  /** An operation writes at most one table, one of its own task. */
  lemma OperationWrites(p: Params, target: int, task: Task, answer: Answer, tables: Tables, memory: Memory,
                        name: string)
    requires p.Valid() && forall n: nat :: name != task.Suffix(n)
    ensures Same(Operation(p, target, task, answer, tables, memory).0, tables, name)
  {
    hide Task.Suffix;
  }

  /** An operation reads only tables of its own task. */
  lemma OperationReads(p: Params, target: int, task: Task, answer: Answer, a: Tables, b: Tables, memory: Memory, n: nat)
    requires p.Valid() && forall s: nat :: Same(a, b, task.Suffix(s))
    ensures var (a', ma) := Operation(p, target, task, answer, a, memory);
            var (b', mb) := Operation(p, target, task, answer, b, memory);
            ma == mb && Same(a', b', task.Suffix(n))
  {
    hide Task.Suffix;
  }

  lemma OthersKept(p: Params, target: int, zones: seq<Zone>, st: ShardingType, t: nat, u: nat, answer: Answer,
                   d: Shared)
    requires p.Valid() && WellFormed(zones) && Distinct(Tasks(zones, st)) && t < |Tasks(zones, st)| && u != t
    ensures Agree(Tasks(zones, st), u, StepOf(p, target, Tasks(zones, st), t, answer, d), d)
  {
    var tasks := Tasks(zones, st);
    hide Tasks, WellFormed, Operation, Task.Suffix;
    if u < |tasks| {
      assert tasks[t] in tasks && tasks[u] in tasks && tasks[t] != tasks[u];
      forall n: nat ensures Same(StepOf(p, target, tasks, t, answer, d).tables, d.tables, tasks[u].Suffix(n)) {
        forall s: nat ensures tasks[u].Suffix(n) != tasks[t].Suffix(s) {
          if tasks[u].Suffix(n) == tasks[t].Suffix(s) {
            SuffixInjective(zones, st, tasks[u], n, tasks[t], s);
          }
        }
        OperationWrites(p, target, tasks[t], answer, d.tables, d.Recall(t), tasks[u].Suffix(n));
      }
    } else {
      forall name | !Owned(tasks, name) ensures Same(StepOf(p, target, tasks, t, answer, d).tables, d.tables, name) {
        OperationWrites(p, target, tasks[t], answer, d.tables, d.Recall(t), name);
      }
    }
  }

  lemma OwnOnly(p: Params, target: int, tasks: seq<Task>, t: nat, answer: Answer, a: Shared, b: Shared)
    requires p.Valid() && t < |tasks| && Agree(tasks, t, a, b)
    ensures Agree(tasks, t, StepOf(p, target, tasks, t, answer, a), StepOf(p, target, tasks, t, answer, b))
  {
    hide Operation, Task.Suffix;
    forall n: nat
      ensures Same(StepOf(p, target, tasks, t, answer, a).tables, StepOf(p, target, tasks, t, answer, b).tables,
                   tasks[t].Suffix(n))
    {
      OperationReads(p, target, tasks[t], answer, a.tables, b.tables, a.Recall(t), n);
    }
    OperationReads(p, target, tasks[t], answer, a.tables, b.tables, a.Recall(t), 0);
  }

  /** Main result: since suffixes are injective and no task is built twice, the shards of a
      company are isolated although they share a database. */
  lemma ShardsIsolated(p: Params, target: int, zones: seq<Zone>, st: ShardingType, tables: Tables)
    requires p.Valid() && WellFormed(zones) && Distinct(Tasks(zones, st))
    ensures TaskPool.Isolated(Company(p, target, Tasks(zones, st), tables), AgreeOn(Tasks(zones, st)))
  {
    var tasks := Tasks(zones, st);
    var program, agree := Company(p, target, tasks, tables), AgreeOn(tasks);
    AgreeEquivalence(tasks);
    forall t: nat, u: nat, c: Answer, d: Shared | t < program.tasks && u != t
      ensures agree(u, program.step(t, c, d), d)
    {
      OthersKept(p, target, zones, st, t, u, c, d);
    }
    hide Agree, StepOf;
    forall t: nat, c: Answer, d: Shared, d': Shared | t < program.tasks && agree(t, d, d')
      ensures agree(t, program.step(t, c, d), program.step(t, c, d'))
    {
      OwnOnly(p, target, tasks, t, c, d, d');
    }
  }

  /** The shipped zones meet the hypotheses for every company. */
  lemma ShippedShardsIsolated(p: Params, target: int, st: ShardingType, tables: Tables)
    requires p.Valid()
    ensures WellFormed(ShippedZones()) && Distinct(Tasks(ShippedZones(), st))
    ensures TaskPool.Isolated(Company(p, target, Tasks(ShippedZones(), st), tables), AgreeOn(Tasks(ShippedZones(), st)))
  {
    hide Tasks, ShippedZones, WellFormed, Distinct, TaskPool.Isolated;
    ShippedZonesWellFormed();
    ShippedTasksDistinct(st);
    ShardsIsolated(p, target, ShippedZones(), st, tables);
  }

  /** One undisturbed operation of worker t on a shard that was built twice. */
  function Twice(p: Params, target: int, task: Task, t: nat, d: Shared): Shared
    requires p.Valid()
  {
    StepOf(p, target, [task, task], t, Works, d)
  }

  /** Without distinct tasks isolation is lost: a shard listed twice is filled twice when both
      workers count before either inserts, and once when one follows the other. */
  lemma TwiceListedOverfills(p: Params, target: nat, task: Task)
    requires p.Valid() && 1 <= target <= p.batch && task.Suffix(1) != task.Suffix(2)
    ensures var name := task.Suffix(1);
            var first := Twice(p, target, task, 0, Twice(p, target, task, 0, Shared(map[name := 0], map[])));
            var both := Twice(p, target, task, 1, Twice(p, target, task, 1, first));
            && Twice(p, target, task, 1, Twice(p, target, task, 0, both)).tables == map[name := 2 * target]
            && var after := Twice(p, target, task, 1, Twice(p, target, task, 1, Twice(p, target, task, 0, first)));
               Twice(p, target, task, 1, after).tables == map[name := target]
  {
    hide Twice;
    var name := task.Suffix(1);
    var first := CountTwice(p, target, task, 0, Shared(map[name := 0], map[]), 0);
    var both := CountTwice(p, target, task, 1, first, 0);
    InsertTwice(p, target, task, 0, both, 0, target);
    InsertTwice(p, target, task, 1, Twice(p, target, task, 0, both), target, target);
    InsertTwice(p, target, task, 0, first, 0, target);
    var after := CountTwice(p, target, task, 1, Twice(p, target, task, 0, first), target);
    NothingTwice(p, target, task, 1, after);
  }

  /** Counting the one split, and finding no second. */
  lemma CountTwice(p: Params, target: int, task: Task, t: nat, d: Shared, rows: nat) returns (after: Shared)
    requires p.Valid() && t < 2 && task.Suffix(1) != task.Suffix(2)
    requires d.tables == map[task.Suffix(1) := rows] && d.Recall(t) == Counting(0, 0, 0)
    ensures after == Twice(p, target, task, t, Twice(p, target, task, t, d))
    ensures after == Shared(d.tables, d.memory[t := Inserting(1, rows, target - rows)])
  {
    hide Task.Suffix;
    assert Twice(p, target, task, t, d) == Shared(d.tables, d.memory[t := Counting(1, rows, rows)]);
    after := Twice(p, target, task, t, Twice(p, target, task, t, d));
  }

  lemma InsertTwice(p: Params, target: int, task: Task, t: nat, d: Shared, rows: nat, left: nat)
    requires p.Valid() && t < 2 && 1 <= left <= p.batch
    requires d.tables == map[task.Suffix(1) := rows] && d.Recall(t) == Inserting(1, 0, left)
    ensures Twice(p, target, task, t, d)
            == Shared(map[task.Suffix(1) := rows + left], d.memory[t := Inserting(1, left, 0)])
  {
    hide Task.Suffix;
  }

  lemma NothingTwice(p: Params, target: int, task: Task, t: nat, d: Shared)
    requires p.Valid() && d.Recall(t).Inserting? && d.Recall(t).left <= 0
    ensures Twice(p, target, task, t, d).tables == d.tables
  {}

  // ---------- what a shard ends with ----------

  /** The splits of a task are exactly 1..|counts|, with these row counts. */
  ghost predicate Holds(tables: Tables, task: Task, counts: seq<nat>) {
    forall s: nat ::
      && (task.Suffix(s) in tables <==> 1 <= s <= |counts|)
      && (1 <= s <= |counts| ==> tables[task.Suffix(s)] == counts[s - 1])
  }

  /** The tables and variables after k operations of a run that counted the first `seen` splits. */
  ghost predicate Reaches(p: Params, target: int, task: Task, counts: seq<nat>, seen: nat, k: nat, tables: Tables,
                          memory: Memory)
    requires p.Valid() && seen <= |counts|
  {
    var s := After(p, Resume(counts, seen, target), k);
    && Holds(tables, task, s.counts)
    && (memory.Inserting? ==> s.split == memory.split && s.seen == memory.seen && s.left == memory.left)
  }

  /** Where the seeding of a shard can stand; when all counts answer it has seen every split. */
  ghost predicate Seeded(p: Params, target: int, task: Task, counts: seq<nat>, reliable: bool, tables: Tables,
                         memory: Memory)
    requires p.Valid()
  {
    if memory.Counting? then
      && memory.n <= |counts| && memory.total == Total(counts[..memory.n])
      && memory.last == (if memory.n == 0 then 0 else counts[memory.n - 1])
      && Holds(tables, task, counts)
    else
      exists seen: nat, k: nat ::
        && seen <= |counts| && (reliable ==> seen == |counts|)
        && Reaches(p, target, task, counts, seen, k, tables, memory)
  }

  ghost predicate OwnSuffixes(task: Task) {
    forall a: nat, b: nat :: task.Suffix(a) == task.Suffix(b) ==> a == b
  }

  /** A run never opens a split while it stands behind the last one. */
  lemma {:induction false} AfterSane(p: Params, counts: seq<nat>, seen: nat, target: int, k: nat)
    requires p.Valid() && seen <= |counts|
    ensures var s := After(p, Resume(counts, seen, target), k);
            OnTable(s) || s == Resume(counts, seen, target) == Progress([], 1, 0, target)
  {
    assert counts[..0] == [] && Total([]) == 0;
    if k > 0 {
      AfterSane(p, counts, seen, target, k - 1);
    }
  }

  lemma HoldsAppend(tables: Tables, task: Task, counts: seq<nat>)
    requires OwnSuffixes(task) && Holds(tables, task, counts)
    ensures Holds(tables[task.Suffix(|counts| + 1) := 0], task, counts + [0])
  {
    hide Task.Suffix;
    var name := task.Suffix(|counts| + 1);
    forall s: nat
      ensures task.Suffix(s) in tables[name := 0] <==> 1 <= s <= |counts| + 1
      ensures 1 <= s <= |counts| + 1 ==> tables[name := 0][task.Suffix(s)] == (counts + [0])[s - 1]
    {
      assert task.Suffix(s) == name <==> s == |counts| + 1;
      assert task.Suffix(s) in tables <==> 1 <= s <= |counts|;
    }
  }

  lemma HoldsUpdate(tables: Tables, task: Task, counts: seq<nat>, split: nat, rows: nat)
    requires OwnSuffixes(task) && Holds(tables, task, counts) && 1 <= split <= |counts|
    ensures task.Suffix(split) in tables
    ensures Holds(tables[task.Suffix(split) := tables[task.Suffix(split)] + rows], task,
                  counts[split - 1 := counts[split - 1] + rows])
  {
    hide Task.Suffix;
    var name := task.Suffix(split);
    var tables', counts' := tables[name := tables[name] + rows], counts[split - 1 := counts[split - 1] + rows];
    forall s: nat
      ensures task.Suffix(s) in tables' <==> 1 <= s <= |counts'|
      ensures 1 <= s <= |counts'| ==> tables'[task.Suffix(s)] == counts'[s - 1]
    {
      assert task.Suffix(s) == name <==> s == split;
      assert task.Suffix(s) in tables <==> 1 <= s <= |counts|;
    }
  }

  lemma CountSeeds(p: Params, target: int, task: Task, counts: seq<nat>, reliable: bool, answer: Answer, tables: Tables,
                   memory: Memory)
    requires p.Valid() && memory.Counting? && Seeded(p, target, task, counts, reliable, tables, memory)
    requires reliable ==> !answer.Fails?
    ensures var (tables', memory') := Operation(p, target, task, answer, tables, memory);
            Seeded(p, target, task, counts, reliable, tables', memory')
  {
    hide Task.Suffix;
    var n := memory.n;
    assert task.Suffix(n + 1) in tables <==> n + 1 <= |counts|;
    if answer.Fails? || n == |counts| {
      assert After(p, Resume(counts, n, target), 0) == Resume(counts, n, target);
      assert Reaches(p, target, task, counts, n, 0, tables, Inserting(Max(1, n), memory.last, target - memory.total));
    } else {
      assert counts[..n + 1][..n] == counts[..n];
    }
  }

  lemma InsertSeeds(p: Params, target: int, task: Task, counts: seq<nat>, seen: nat, k: nat, answer: Answer,
                    tables: Tables, memory: Memory)
    requires p.Valid() && seen <= |counts| && memory.Inserting? && OwnSuffixes(task)
    requires Reaches(p, target, task, counts, seen, k, tables, memory)
    ensures var (tables', memory') := Operation(p, target, task, answer, tables, memory);
            && (Reaches(p, target, task, counts, seen, k, tables', memory')
                || Reaches(p, target, task, counts, seen, k + 1, tables', memory'))
            && !memory'.Counting?
  {
    hide Task.Suffix, OwnSuffixes;
    var s := After(p, Resume(counts, seen, target), k);
    assert After(p, Resume(counts, seen, target), k + 1) == Advance(p, s);
    AfterSane(p, counts, seen, target, k);
    hide After, Resume;
    if s.left > 0 && !answer.Fails? {
      assert task.Suffix(s.split + 1) in tables <==> s.split + 1 <= |s.counts|;
      assert task.Suffix(s.split) in tables <==> 1 <= s.split <= |s.counts|;
      if s.seen >= p.cap {
        if s.split == |s.counts| {
          HoldsAppend(tables, task, s.counts);
        }
      } else if OnTable(s) {
        HoldsUpdate(tables, task, s.counts, s.split, Min(p.batch, s.left));
      }
    }
  }

  lemma OperationSeeds(p: Params, target: int, task: Task, counts: seq<nat>, reliable: bool, answer: Answer,
                       tables: Tables, memory: Memory)
    requires p.Valid() && OwnSuffixes(task) && Seeded(p, target, task, counts, reliable, tables, memory)
    requires reliable ==> !answer.Fails?
    ensures var (tables', memory') := Operation(p, target, task, answer, tables, memory);
            Seeded(p, target, task, counts, reliable, tables', memory')
  {
    hide Reaches, OwnSuffixes, Task.Suffix;
    if memory.Counting? {
      CountSeeds(p, target, task, counts, reliable, answer, tables, memory);
    } else if memory.Inserting? {
      var seen: nat, k: nat :| seen <= |counts| && (reliable ==> seen == |counts|)
                               && Reaches(p, target, task, counts, seen, k, tables, memory);
      InsertSeeds(p, target, task, counts, seen, k, answer, tables, memory);
    }
  }

  /** No statement of the list was refused. */
  ghost predicate Reliable(answers: seq<Answer>) {
    forall i :: 0 <= i < |answers| ==> !answers[i].Fails?
  }

  lemma {:induction false} PerformSeeds(p: Params, target: int, tasks: seq<Task>, tables: Tables, t: nat,
                                        counts: seq<nat>, answers: seq<Answer>)
    requires p.Valid() && t < |tasks| && OwnSuffixes(tasks[t]) && Holds(tables, tasks[t], counts)
    ensures var program := Company(p, target, tasks, tables);
            var d := TaskPool.Perform(program, t, answers, program.initial);
            Seeded(p, target, tasks[t], counts, Reliable(answers), d.tables, d.Recall(t))
  {
    if answers == [] {
      assert counts[..0] == [] && Total([]) == 0;
    } else {
      var front, answer := answers[..|answers| - 1], answers[|answers| - 1];
      PerformSeeds(p, target, tasks, tables, t, counts, front);
      hide Operation, Reaches, Holds, OwnSuffixes, Task.Suffix;
      var program := Company(p, target, tasks, tables);
      var d := TaskPool.Perform(program, t, front, program.initial);
      assert Reliable(answers) ==> Reliable(front) && !answer.Fails?;
      OperationSeeds(p, target, tasks[t], counts, Reliable(answers), answer, d.tables, d.Recall(t));
    }
  }

  lemma SeededAgree(p: Params, target: int, tasks: seq<Task>, t: nat, counts: seq<nat>, reliable: bool, a: Shared,
                    b: Shared)
    requires p.Valid() && t < |tasks| && Agree(tasks, t, a, b)
    requires Seeded(p, target, tasks[t], counts, reliable, b.tables, b.Recall(t))
    ensures Seeded(p, target, tasks[t], counts, reliable, a.tables, a.Recall(t))
  {
    hide Task.Suffix, Resume, After;
    forall cs | Holds(b.tables, tasks[t], cs) ensures Holds(a.tables, tasks[t], cs) {
      forall s: nat
        ensures tasks[t].Suffix(s) in a.tables <==> 1 <= s <= |cs|
        ensures 1 <= s <= |cs| ==> a.tables[tasks[t].Suffix(s)] == cs[s - 1]
      {
        assert Same(a.tables, b.tables, tasks[t].Suffix(s));
      }
    }
    var memory := a.Recall(t);
    if !memory.Counting? {
      var seen: nat, k: nat :| seen <= |counts| && (reliable ==> seen == |counts|)
                               && Reaches(p, target, tasks[t], counts, seen, k, b.tables, memory);
      assert Reaches(p, target, tasks[t], counts, seen, k, a.tables, memory);
    }
  }

  /** In every interleaving a shard stands where its own seeding alone can stand. */
  lemma ShardStands(p: Params, target: int, zones: seq<Zone>, st: ShardingType, tables: Tables, workers: nat,
                    events: seq<TaskPool.Event<Answer>>, t: nat, counts: seq<nat>)
    requires p.Valid() && WellFormed(zones) && Distinct(Tasks(zones, st)) && t < |Tasks(zones, st)|
    requires Holds(tables, Tasks(zones, st)[t], counts)
    ensures var program := Company(p, target, Tasks(zones, st), tables);
            var d, answers := TaskPool.Run(program, workers, events).db, TaskPool.Choices(program, workers, events, t);
            Seeded(p, target, Tasks(zones, st)[t], counts, Reliable(answers), d.tables, d.Recall(t))
  {
    var tasks := Tasks(zones, st);
    forall a: nat, b: nat | tasks[t].Suffix(a) == tasks[t].Suffix(b) ensures a == b {
      assert tasks[t] in tasks;
      SuffixInjective(zones, st, tasks[t], a, tasks[t], b);
    }
    var program := Company(p, target, tasks, tables);
    ShardsIsolated(p, target, zones, st, tables);
    hide Tasks, WellFormed, Distinct, Holds, Seeded, Agree, TaskPool.Isolated;
    var answers := TaskPool.Choices(program, workers, events, t);
    TaskPool.Serializable(program, AgreeOn(tasks), workers, events, t);
    PerformSeeds(p, target, tasks, tables, t, counts, answers);
    var alone := TaskPool.Perform(program, t, answers, program.initial);
    SeededAgree(p, target, tasks, t, counts, Reliable(answers), TaskPool.Run(program, workers, events).db, alone);
  }

  /** The tables of a shard that reported success: those of a run by itself that counted some of
      the splits, and all of them when no statement of it was refused. */
  lemma ShardsUnaffected(p: Params, target: int, zones: seq<Zone>, st: ShardingType, tables: Tables, workers: nat,
                         events: seq<TaskPool.Event<Answer>>, t: nat, counts: seq<nat>, r: TaskPool.Report)
    requires p.Valid() && WellFormed(zones) && Distinct(Tasks(zones, st)) && t < |Tasks(zones, st)|
    requires Holds(tables, Tasks(zones, st)[t], counts)
    requires var s := TaskPool.Run(Company(p, target, Tasks(zones, st), tables), workers, events);
             r in s.reports && r.task == t && r.result.Some?
    ensures var program := Company(p, target, Tasks(zones, st), tables);
            var d, answers := TaskPool.Run(program, workers, events).db, TaskPool.Choices(program, workers, events, t);
            && (exists seen: nat :: seen <= |counts| && (Reliable(answers) ==> seen == |counts|)
                  && Holds(d.tables, Tasks(zones, st)[t], Finish(p, Resume(counts, seen, target)).counts))
            && (Reliable(answers) && counts != [] ==>
                  Holds(d.tables, Tasks(zones, st)[t], Complete(p, target, counts)))
  {
    var tasks := Tasks(zones, st);
    var program := Company(p, target, tasks, tables);
    ShardsIsolated(p, target, zones, st, tables);
    hide TaskPool.Isolated, Agree, Distinct, WellFormed;
    TaskPool.AlwaysHonest(program, AgreeOn(tasks), workers, events);
    ShardStands(p, target, zones, st, tables, workers, events, t, counts);
    hide Tasks, TaskPool.Run, TaskPool.Choices, Company, Holds, Task.Suffix;
    var d, answers := TaskPool.Run(program, workers, events).db, TaskPool.Choices(program, workers, events, t);
    assert Done(d.Recall(t));
    var seen: nat, k: nat :| seen <= |counts| && (Reliable(answers) ==> seen == |counts|)
                             && Reaches(p, target, tasks[t], counts, seen, k, d.tables, d.Recall(t));
    EndReached(p, counts, seen, target, k);
  }

  /** A run with nothing left is finished, and if it counted all splits it is complete. */
  lemma EndReached(p: Params, counts: seq<nat>, seen: nat, target: int, k: nat)
    requires p.Valid() && seen <= |counts| && After(p, Resume(counts, seen, target), k).left <= 0
    ensures var s := Resume(counts, seen, target);
            && After(p, s, k).counts == Finish(p, s).counts
            && (seen == |counts| && counts != [] ==> Finish(p, s).counts == Complete(p, target, counts))
  {
    var s := Resume(counts, seen, target);
    AfterSane(p, counts, seen, target, k);
    NothingLeft(p, After(p, s, k), 0);
    if OnTable(s) {
      FinishAfter(p, s, k);
    } else {
      AfterSane(p, counts, seen, target, 0);
      StuckStart(p, s, k);
    }
    if seen == |counts| && counts != [] {
      assert counts[..|counts|] == counts;
      FinishFaithful(p, s, target);
    }
  }

  lemma {:induction false} StuckStart(p: Params, s: Progress, k: nat)
    requires p.Valid() && !OnTable(s) && s.seen < p.cap
    ensures After(p, s, k) == s == Finish(p, s)
  {
    if k > 0 {
      StuckStart(p, s, k - 1);
    }
  }

  /** Every table of the database, of whichever shard or of none, ends with the row count that
      seeding the shards one after another gives it, in any order and with any pool. */
  lemma TablesAsSequential(p: Params, target: int, zones: seq<Zone>, st: ShardingType, tables: Tables, workers: nat,
                           events: seq<TaskPool.Event<Answer>>, order: seq<nat>, name: string)
    requires p.Valid() && WellFormed(zones) && Distinct(Tasks(zones, st))
    requires TaskPool.Tasks(order, |Tasks(zones, st)|) && forall t: nat :: t < |Tasks(zones, st)| ==> t in order
    ensures var program := Company(p, target, Tasks(zones, st), tables);
            Same(TaskPool.Run(program, workers, events).db.tables,
                 TaskPool.OneByOne(program, order, (t: nat) => TaskPool.Choices(program, workers, events, t)).tables,
                 name)
  {
    var tasks := Tasks(zones, st);
    var program := Company(p, target, tasks, tables);
    ShardsIsolated(p, target, zones, st, tables);
    var owner: nat := |tasks|;
    if Owned(tasks, name) {
      var i: nat, n: nat :| i < |tasks| && name == tasks[i].Suffix(n);
      owner := i;
    }
    hide TaskPool.Isolated, Distinct, WellFormed, Tasks, Task.Suffix, TaskPool.Run, TaskPool.OneByOne;
    TaskPool.InterleavingInvisible(program, AgreeOn(tasks), workers, events, order, owner);
  }

  // ---------- a shard whose statements work gets done ----------

  ghost predicate AllWork(answers: seq<Answer>) {
    forall i :: 0 <= i < |answers| ==> answers[i].Works?
  }

  /** Statements still needed at most: counts, and one flush and one opening per missing row. */
  function StatementsLeft(p: Params, target: int, counts: seq<nat>, memory: Memory): nat {
    match memory
    case Counting(n, _, _) => Max(0, |counts| - n) + 2 + 2 * Max(0, target - Total(counts))
    case Inserting(_, seen, left) => if left <= 0 then 0 else 2 * left + if seen >= p.cap then 1 else 0
    case Broken => 0
  }

  lemma WorkingStep(p: Params, target: int, task: Task, counts: seq<nat>, tables: Tables, memory: Memory)
    requires p.Valid() && OwnSuffixes(task) && counts != [] && !memory.Broken?
    requires Seeded(p, target, task, counts, true, tables, memory)
    ensures var memory' := Operation(p, target, task, Works, tables, memory).1;
            && !memory'.Broken? && (Done(memory) ==> Done(memory'))
            && (!Done(memory) ==>
                  StatementsLeft(p, target, counts, memory') < StatementsLeft(p, target, counts, memory))
  {
    hide Task.Suffix, OwnSuffixes, Total;
    if memory.Counting? {
      assert task.Suffix(memory.n + 1) in tables <==> memory.n + 1 <= |counts|;
      AllTotal(counts);
    } else {
      var seen: nat, k: nat :| seen <= |counts| && (true ==> seen == |counts|)
                               && Reaches(p, target, task, counts, seen, k, tables, memory);
      var s := After(p, Resume(counts, seen, target), k);
      AfterSane(p, counts, seen, target, k);
      ResumeOnTable(counts, seen, target);
      hide After, Resume;
      assert task.Suffix(s.split) in tables <==> 1 <= s.split <= |s.counts|;
    }
  }

  lemma AllTotal(counts: seq<nat>)
    ensures Total(counts[..|counts|]) == Total(counts)
  {
    assert counts[..|counts|] == counts;
  }

  lemma ResumeOnTable(counts: seq<nat>, seen: nat, target: int)
    requires counts != [] && seen <= |counts|
    ensures Resume(counts, seen, target) != Progress([], 1, 0, target)
  {}

  /** A shard with a first split, all whose statements work, is done after a bounded number of
      them, with the row counts of an uninterrupted run. */
  lemma WorkingShardDone(p: Params, target: int, tasks: seq<Task>, tables: Tables, t: nat, counts: seq<nat>,
                         answers: seq<Answer>)
    requires p.Valid() && t < |tasks| && OwnSuffixes(tasks[t]) && Holds(tables, tasks[t], counts) && counts != []
    requires AllWork(answers) && |answers| >= |counts| + 2 + 2 * Max(0, target - Total(counts))
    ensures var program := Company(p, target, tasks, tables);
            var d := TaskPool.Perform(program, t, answers, program.initial);
            Done(d.Recall(t)) && Holds(d.tables, tasks[t], Complete(p, target, counts))
  {
    WorkingProgress(p, target, tasks, tables, t, counts, answers);
    PerformSeeds(p, target, tasks, tables, t, counts, answers);
    hide Task.Suffix, Holds, OwnSuffixes, Company, TaskPool.Perform, After, Resume, Finish, Complete;
    var program := Company(p, target, tasks, tables);
    var d := TaskPool.Perform(program, t, answers, program.initial);
    assert Reliable(answers);
    var seen: nat, k: nat :| seen <= |counts| && (Reliable(answers) ==> seen == |counts|)
                             && Reaches(p, target, tasks[t], counts, seen, k, d.tables, d.Recall(t));
    EndReached(p, counts, seen, target, k);
  }

  lemma {:induction false} WorkingProgress(p: Params, target: int, tasks: seq<Task>, tables: Tables, t: nat,
                                           counts: seq<nat>, answers: seq<Answer>)
    requires p.Valid() && t < |tasks| && OwnSuffixes(tasks[t]) && Holds(tables, tasks[t], counts) && counts != []
    requires AllWork(answers)
    ensures var program := Company(p, target, tasks, tables);
            var memory := TaskPool.Perform(program, t, answers, program.initial).Recall(t);
            && !memory.Broken?
            && (Done(memory) || StatementsLeft(p, target, counts, memory) + |answers|
                                <= |counts| + 2 + 2 * Max(0, target - Total(counts)))
            && (StatementsLeft(p, target, counts, memory) == 0 ==> Done(memory))
  {
    if answers != [] {
      var front := answers[..|answers| - 1];
      WorkingProgress(p, target, tasks, tables, t, counts, front);
      PerformSeeds(p, target, tasks, tables, t, counts, front);
      hide Operation, Holds, OwnSuffixes, Task.Suffix, Total, Reaches;
      var program := Company(p, target, tasks, tables);
      var d := TaskPool.Perform(program, t, front, program.initial);
      assert Reliable(front) && answers[|answers| - 1].Works?;
      WorkingStep(p, target, tasks[t], counts, d.tables, d.Recall(t));
    }
  }

  // ---------- a shard that reports an error ----------

  /** The worker has counted, and still has rows to insert. */
  predicate Missing(memory: Memory) {
    memory.Inserting? && memory.left > 0
  }

  /** One statement breaks a shard exactly if it is to open or fill a split and does not work. */
  lemma OperationBreaks(p: Params, target: int, task: Task, counts: seq<nat>, reliable: bool, answer: Answer,
                        tables: Tables, memory: Memory)
    requires p.Valid() && OwnSuffixes(task) && counts != []
    requires Seeded(p, target, task, counts, reliable, tables, memory)
    ensures Operation(p, target, task, answer, tables, memory).1.Broken?
            <==> memory.Broken? || (Missing(memory) && !answer.Works?)
  {
    hide Task.Suffix, OwnSuffixes, Total;
    if memory.Inserting? {
      var seen: nat, k: nat :| seen <= |counts| && (reliable ==> seen == |counts|)
                               && Reaches(p, target, task, counts, seen, k, tables, memory);
      var s := After(p, Resume(counts, seen, target), k);
      AfterSane(p, counts, seen, target, k);
      ResumeOnTable(counts, seen, target);
      hide After, Resume;
      assert task.Suffix(s.split) in tables <==> 1 <= s.split <= |s.counts|;
    }
  }

  /** Where the worker of a shard stands by itself after some answers. */
  function MemoryAfter(p: Params, target: int, tasks: seq<Task>, tables: Tables, t: nat, answers: seq<Answer>): Memory
    requires p.Valid()
  {
    var program := Company(p, target, tasks, tables);
    TaskPool.Perform(program, t, answers, program.initial).Recall(t)
  }

  lemma BreaksNext(p: Params, target: int, tasks: seq<Task>, tables: Tables, t: nat, counts: seq<nat>,
                   answers: seq<Answer>, answer: Answer)
    requires p.Valid() && t < |tasks| && OwnSuffixes(tasks[t]) && Holds(tables, tasks[t], counts) && counts != []
    ensures var before := MemoryAfter(p, target, tasks, tables, t, answers);
            MemoryAfter(p, target, tasks, tables, t, answers + [answer]).Broken?
            <==> before.Broken? || (Missing(before) && !answer.Works?)
  {
    PerformSeeds(p, target, tasks, tables, t, counts, answers);
    hide Operation, Holds, OwnSuffixes, Task.Suffix, Total, Reaches, Seeded, Missing;
    var program := Company(p, target, tasks, tables);
    var d := TaskPool.Perform(program, t, answers, program.initial);
    OperationBreaks(p, target, tasks[t], counts, Reliable(answers), answer, d.tables, d.Recall(t));
    assert (answers + [answer])[..|answers|] == answers;
  }

  /** A shard with a first split ends with an error if and only if, while rows were missing, a
      statement did not work: refused, or stored and its answer lost. */
  lemma {:induction false} BrokenIff(p: Params, target: int, tasks: seq<Task>, tables: Tables, t: nat,
                                     counts: seq<nat>, answers: seq<Answer>)
    requires p.Valid() && t < |tasks| && OwnSuffixes(tasks[t]) && Holds(tables, tasks[t], counts) && counts != []
    ensures MemoryAfter(p, target, tasks, tables, t, answers).Broken?
            <==> exists i :: 0 <= i < |answers| && !answers[i].Works?
                             && Missing(MemoryAfter(p, target, tasks, tables, t, answers[..i]))
  {
    hide Company, TaskPool.Perform, Holds, OwnSuffixes, Missing;
    if answers == [] {
      NothingHeard(p, target, tasks, tables, t);
    } else {
      var n := |answers| - 1;
      var front := answers[..n];
      hide MemoryAfter;
      BrokenIff(p, target, tasks, tables, t, counts, front);
      BreaksNext(p, target, tasks, tables, t, counts, front, answers[n]);
      assert front + [answers[n]] == answers;
      assert forall i :: 0 <= i < n ==> front[..i] == answers[..i];
    }
  }

  lemma NothingHeard(p: Params, target: int, tasks: seq<Task>, tables: Tables, t: nat)
    requires p.Valid()
    ensures MemoryAfter(p, target, tasks, tables, t, []) == Counting(0, 0, 0)
  {}

  /** What a shard may report: a failure while broken, success once done; done, it may still
      fail, for its child tables. */
  lemma ClaimsMean(t: nat, result: Option<nat>, d: Shared)
    ensures d.Recall(t).Broken? ==> (ClaimOf(t, result, d) <==> result == None)
    ensures Done(d.Recall(t)) ==> (ClaimOf(t, result, d) <==> result in {None, Some(1)})
    ensures !d.Recall(t).Broken? && !Done(d.Recall(t)) ==> !ClaimOf(t, result, d)
  {}
}
