/** The store of quota buckets under any interleaving of any number of threads. Every lock
    operation, lookup and map write is a step of its own. */
module QuotaStore {

  import opened Wrappers
  import Quota

  /** Where a thread stands inside a call for a property; an idle one holds the answer of its
      last request. */
  datatype Pc =
    | Idle(refused: bool)
    | Calling(property: string)
    | Reading(property: string)
    | Hit(property: string, bucket: nat)
    | Miss(property: string)
    | Retrying(property: string)
    | Writing(property: string)
    | Creating(property: string)
    | Dated(property: string, hourClock: nat)
    | Leaving(property: string, bucket: nat)
    | Got(property: string, bucket: nat)

  /** A bucket: its counters, and the logs of what it admitted. */
  datatype Slot = Slot(counters: Quota.Counters, log: seq<Quota.Entry>, realtime: seq<Quota.Entry>)

  /** `buckets` names a bucket per property. */
  datatype State = State(
    clock: nat,
    pcs: map<nat, Pc>,
    readers: set<nat>,
    writer: Option<nat>,
    buckets: map<string, nat>,
    heap: seq<Slot>)
  {
    function At(t: nat): Pc {
      if t in pcs then pcs[t] else Idle(false)
    }

    function Goto(t: nat, pc: Pc): State {
      this.(pcs := pcs[t := pc])
    }

    /** What a property has been charged for. */
    function Log(property: string): seq<Quota.Entry> {
      if property in buckets && buckets[property] < |heap| then heap[buckets[property]].log else []
    }

    function Realtime(property: string): seq<Quota.Entry> {
      if property in buckets && buckets[property] < |heap| then heap[buckets[property]].realtime else []
    }
  }

  const INITIAL: State := State(0, map[], {}, None, map[], [])

  /** Steps of thread t, and time passing. The last three are the methods of a bucket, each
      under the bucket's own mutex with one reading of the clock. */
  datatype Event =
    | Wait(d: nat)
    | Call(t: nat, property: string)
    | RLock(t: nat)
    | Lookup(t: nat)
    | RUnlock(t: nat)
    | Lock(t: nat)
    | Recheck(t: nat)
    | ReadClock(t: nat)
    | Create(t: nat)
    | Unlock(t: nat)
    | Consume(t: nat, property: string, cost: nat)
    | ConsumeRealtime(t: nat, property: string)
    | Query(t: nat, property: string)

  predicate Enabled(s: State, e: Event) {
    match e
    case Wait(_) => true
    case Call(t, _) => s.At(t).Idle?
    case RLock(t) => s.At(t).Calling? && s.writer == None
    case Lookup(t) => s.At(t).Reading?
    case RUnlock(t) => s.At(t).Hit? || s.At(t).Miss?
    case Lock(t) => s.At(t).Retrying? && s.writer == None && s.readers == {}
    case Recheck(t) => s.At(t).Writing?
    case ReadClock(t) => s.At(t).Creating?
    case Create(t) => s.At(t).Dated?
    case Unlock(t) => s.At(t).Leaving?
    case Consume(t, property, _) => s.At(t).Got? && s.At(t).property == property
    case ConsumeRealtime(t, property) => s.At(t).Got? && s.At(t).property == property
    case Query(t, property) => s.At(t).Got? && s.At(t).property == property
  }

  /** The thread leaves the call; its bucket is replaced. */
  function Answer(s: State, t: nat, bucket: nat, slot: Slot, refused: bool): State {
    if bucket < |s.heap| then s.Goto(t, Idle(refused)).(heap := s.heap[bucket := slot]) else s
  }

  function SlotAt(s: State, bucket: nat): Slot {
    if bucket < |s.heap| then s.heap[bucket] else Slot(Quota.NewCounters(0, 0), [], [])
  }

  function Apply(s: State, e: Event): State {
    if !Enabled(s, e) then s else
    match e
    case Wait(d) => s.(clock := s.clock + d)
    case Call(t, property) => s.Goto(t, Calling(property))
    case RLock(t) => s.Goto(t, Reading(s.At(t).property)).(readers := s.readers + {t})
    case Lookup(t) =>
      var property := s.At(t).property;
      s.Goto(t, if property in s.buckets then Hit(property, s.buckets[property]) else Miss(property))
    case RUnlock(t) =>
      var pc := s.At(t);
      s.Goto(t, if pc.Hit? then Got(pc.property, pc.bucket) else Retrying(pc.property)).(readers := s.readers - {t})
    case Lock(t) => s.Goto(t, Writing(s.At(t).property)).(writer := Some(t))
    case Recheck(t) =>
      var property := s.At(t).property;
      s.Goto(t, if property in s.buckets then Leaving(property, s.buckets[property]) else Creating(property))
    case ReadClock(t) => s.Goto(t, Dated(s.At(t).property, s.clock))
    case Create(t) =>
      var pc := s.At(t);
      s.Goto(t, Leaving(pc.property, |s.heap|))
      .(buckets := s.buckets[pc.property := |s.heap|],
        heap := s.heap + [Slot(Quota.NewCounters(pc.hourClock, s.clock), [], [])])
    case Unlock(t) => s.Goto(t, Got(s.At(t).property, s.At(t).bucket)).(writer := None)
    case Consume(t, _, cost) =>
      var slot := SlotAt(s, s.At(t).bucket);
      var (counters, refused) := Quota.Charged(slot.counters, cost, s.clock);
      var log := if refused then slot.log else slot.log + [Quota.Entry(s.clock, cost)];
      Answer(s, t, s.At(t).bucket, Slot(counters, log, slot.realtime), refused)
    case ConsumeRealtime(t, _) =>
      var slot := SlotAt(s, s.At(t).bucket);
      var (counters, refused) := Quota.ChargedRealtime(slot.counters, s.clock);
      var realtime := if refused then slot.realtime else slot.realtime + [Quota.Entry(s.clock, 1)];
      Answer(s, t, s.At(t).bucket, Slot(counters, slot.log, realtime), refused)
    case Query(t, _) =>
      var slot := SlotAt(s, s.At(t).bucket);
      Answer(s, t, s.At(t).bucket, slot.(counters := Quota.Rolled(slot.counters, s.clock)), false)
  }

  function Run(events: seq<Event>): State {
    if events == [] then INITIAL
    else Apply(Run(events[..|events| - 1]), events[|events| - 1])
  }

  /** Every event of the run was enabled when it happened. */
  predicate Possible(events: seq<Event>) {
    events != [] ==>
      && Possible(events[..|events| - 1])
      && Enabled(Run(events[..|events| - 1]), events[|events| - 1])
  }

  function Clock(events: seq<Event>): nat {
    if events == [] then 0
    else
      Clock(events[..|events| - 1]) + if events[|events| - 1].Wait? then events[|events| - 1].d else 0
  }

  /** The reference: each property has one log, and a request is one atomic admission by the
      policy on it. */
  function Reference(events: seq<Event>, property: string): seq<Quota.Entry> {
    if events == [] then []
    else
      var front, e := events[..|events| - 1], events[|events| - 1];
      var log := Reference(front, property);
      if e.Consume? && e.property == property then Quota.Admitted(log, Clock(front), e.cost) else log
  }

  function RealtimeReference(events: seq<Event>, property: string): seq<Quota.Entry> {
    if events == [] then []
    else
      var front, e := events[..|events| - 1], events[|events| - 1];
      var log := RealtimeReference(front, property);
      if e.ConsumeRealtime? && e.property == property then Quota.AdmittedRealtime(log, Clock(front)) else log
  }

  // ---------- the invariant ----------

  predicate HoldsRead(pc: Pc) { pc.Reading? || pc.Hit? || pc.Miss? }
  predicate HoldsWrite(pc: Pc) { pc.Writing? || pc.Creating? || pc.Dated? || pc.Leaving? }
  predicate HoldsBucket(pc: Pc) { pc.Hit? || pc.Leaving? || pc.Got? }

  /** The read-write lock is held by exactly the threads inside its critical sections. */
  ghost predicate LockDiscipline(s: State) {
    && (forall t: nat :: t in s.readers <==> HoldsRead(s.At(t)))
    && (forall t: nat :: s.writer == Some(t) <==> HoldsWrite(s.At(t)))
    && (s.writer.Some? ==> s.readers == {})
  }

  /** One bucket per property, never shared with another property. */
  ghost predicate OwnBuckets(buckets: map<string, nat>, count: nat) {
    && (forall p :: p in buckets ==> buckets[p] < count)
    && (forall p, q :: p in buckets && q in buckets && buckets[p] == buckets[q] ==> p == q)
  }

  /** What a thread has learnt about its property still holds. */
  predicate Informed(pc: Pc, buckets: map<string, nat>) {
    && (HoldsBucket(pc) ==> pc.property in buckets && buckets[pc.property] == pc.bucket)
    && (pc.Creating? || pc.Dated? ==> pc.property !in buckets)
  }

  /** The counters of every bucket stand for its logs, and no reading of the clock lies ahead. */
  ghost predicate Kept(s: State) {
    && (forall b :: 0 <= b < |s.heap| ==>
          Quota.Ledger(s.heap[b].counters, s.heap[b].log, s.heap[b].realtime, s.clock))
    && forall t: nat :: s.At(t).Dated? ==> s.At(t).hourClock <= s.clock
  }

  ghost predicate Valid(s: State) {
    && LockDiscipline(s)
    && OwnBuckets(s.buckets, |s.heap|)
    && (forall t: nat :: Informed(s.At(t), s.buckets))
    && Kept(s)
  }

  lemma OthersStay(s: State, e: Event)
    requires !e.Wait?
    ensures forall t: nat :: t != e.t ==> Apply(s, e).At(t) == s.At(t)
  {
    hide Quota.Charged, Quota.ChargedRealtime, Quota.Rolled, Quota.NewCounters;
  }

  lemma LockStep(s: State, e: Event)
    requires LockDiscipline(s)
    ensures LockDiscipline(Apply(s, e))
  {
    hide Quota.Charged, Quota.ChargedRealtime, Quota.Rolled, Quota.NewCounters;
    if !e.Wait? {
      OthersStay(s, e);
    }
  }

  lemma BucketStep(s: State, e: Event)
    requires LockDiscipline(s) && OwnBuckets(s.buckets, |s.heap|) && forall t: nat :: Informed(s.At(t), s.buckets)
    ensures var s' := Apply(s, e);
            && OwnBuckets(s'.buckets, |s'.heap|)
            && forall t: nat :: Informed(s'.At(t), s'.buckets)
  {
    hide Quota.Charged, Quota.ChargedRealtime, Quota.Rolled, Quota.NewCounters;
    var s' := Apply(s, e);
    if e.Create? && Enabled(s, e) {
      // Only the writer creates, so no other thread believes a bucket to be missing.
      OthersStay(s, e);
      assert HoldsWrite(s.At(e.t));
      forall t: nat ensures Informed(s'.At(t), s'.buckets) {
        assert t != e.t ==> !HoldsWrite(s.At(t));
      }
    } else {
      assert s'.buckets == s.buckets && |s'.heap| == |s.heap|;
      if !e.Wait? {
        OthersStay(s, e);
        assert Informed(s.At(e.t), s.buckets);
        assert Informed(s'.At(e.t), s'.buckets);
      }
      forall t: nat ensures Informed(s'.At(t), s'.buckets) {
        assert Informed(s.At(t), s.buckets);
      }
    }
  }

  /** A bucket method keeps the counters true to the logs. */
  lemma SlotStep(slot: Slot, clock: nat, cost: nat)
    requires Quota.Ledger(slot.counters, slot.log, slot.realtime, clock)
    ensures var (counters, refused) := Quota.Charged(slot.counters, cost, clock);
            && (refused <==> !Quota.Admits(slot.log, clock, cost))
            && Quota.Ledger(counters, Quota.Admitted(slot.log, clock, cost), slot.realtime, clock)
    ensures var (counters, refused) := Quota.ChargedRealtime(slot.counters, clock);
            && (refused <==> !Quota.AdmitsRealtime(slot.realtime, clock))
            && Quota.Ledger(counters, slot.log, Quota.AdmittedRealtime(slot.realtime, clock), clock)
    ensures Quota.Ledger(Quota.Rolled(slot.counters, clock), slot.log, slot.realtime, clock)
  {
    hide *;
    Quota.ChargedLedger(slot.counters, slot.log, slot.realtime, clock, cost, clock);
    Quota.ChargedRealtimeLedger(slot.counters, slot.log, slot.realtime, clock, clock);
    Quota.RolledLedger(slot.counters, slot.log, slot.realtime, clock, clock);
  }

  lemma KeptStep(s: State, e: Event)
    requires Kept(s)
    ensures Kept(Apply(s, e))
  {
    hide Quota.Charged, Quota.ChargedRealtime, Quota.Rolled, Quota.NewCounters, Quota.Ledger, Quota.Admits,
         Quota.AdmitsRealtime;
    var s' := Apply(s, e);
    forall b | 0 <= b < |s'.heap|
      ensures Quota.Ledger(s'.heap[b].counters, s'.heap[b].log, s'.heap[b].realtime, s'.clock)
    {
      if b < |s.heap| {
        SlotStep(s.heap[b], s.clock, if e.Consume? then e.cost else 0);
        Quota.LedgerLater(s.heap[b].counters, s.heap[b].log, s.heap[b].realtime, s.clock, s'.clock);
      } else {
        Quota.NewLedger(s.At(e.t).hourClock, s.clock);
      }
    }
    forall t: nat | s'.At(t).Dated? ensures s'.At(t).hourClock <= s'.clock {
      assert s'.At(t) == s.At(t) || (e.ReadClock? && e.t == t);
    }
  }

  /** The property-to-bucket map only grows. */
  predicate OnlyGrown(before: map<string, nat>, after: map<string, nat>) {
    forall p :: p in before ==> p in after && after[p] == before[p]
  }

  lemma {:induction false} AlwaysValid(events: seq<Event>)
    ensures Valid(Run(events)) && Run(events).clock == Clock(events)
  {
    if events != [] {
      var s, e := Run(events[..|events| - 1]), events[|events| - 1];
      AlwaysValid(events[..|events| - 1]);
      LockStep(s, e);
      BucketStep(s, e);
      KeptStep(s, e);
      ClockStep(s, e);
      hide LockDiscipline, OwnBuckets, Informed, Kept, Apply;
    }
  }

  lemma ClockStep(s: State, e: Event)
    ensures Apply(s, e).clock == s.clock + if e.Wait? then e.d else 0
  {
    hide Quota.Charged, Quota.ChargedRealtime, Quota.Rolled, Quota.NewCounters;
  }

  lemma StepKeeps(s: State, e: Event)
    requires Valid(s)
    ensures OnlyGrown(s.buckets, Apply(s, e).buckets)
  {
    hide Quota.Charged, Quota.ChargedRealtime, Quota.Rolled, Quota.NewCounters;
  }

  lemma {:induction false} RunKeeps(events: seq<Event>, k: nat)
    requires k <= |events|
    ensures OnlyGrown(Run(events[..k]).buckets, Run(events).buckets)
  {
    if k == |events| {
      assert events[..k] == events;
    } else {
      var front := events[..|events| - 1];
      assert front[..k] == events[..k];
      RunKeeps(front, k);
      AlwaysValid(front);
      StepKeeps(Run(front), events[|events| - 1]);
    }
  }

  // ---------- main results ----------

  /** Whoever holds a bucket for a property, at whatever two moments of a run, holds the same
      one. */
  lemma SameBucketForever(events: seq<Event>, k: nat, t: nat, u: nat)
    requires k <= |events|
    requires Run(events[..k]).At(t).Got? && Run(events).At(u).Got?
    requires Run(events[..k]).At(t).property == Run(events).At(u).property
    ensures Run(events[..k]).At(t).bucket == Run(events).At(u).bucket
  {
    AlwaysValid(events[..k]);
    AlwaysValid(events);
    RunKeeps(events, k);
    assert Informed(Run(events[..k]).At(t), Run(events[..k]).buckets);
    assert Informed(Run(events).At(u), Run(events).buckets);
  }

  /** Mutual exclusion: at most one thread is inside the writing section, and none reads then. */
  lemma MutualExclusion(events: seq<Event>, t: nat, u: nat)
    requires HoldsWrite(Run(events).At(t)) && t != u
    ensures !HoldsWrite(Run(events).At(u)) && !HoldsRead(Run(events).At(u))
  {
    AlwaysValid(events);
    assert Run(events).writer == Some(t);
    assert u !in Run(events).readers;
  }

  lemma LogStep(s: State, e: Event, property: string)
    requires Valid(s) && Enabled(s, e)
    ensures Apply(s, e).Log(property) ==
            if e.Consume? && e.property == property then Quota.Admitted(s.Log(property), s.clock, e.cost)
            else s.Log(property)
    ensures Apply(s, e).Realtime(property) ==
            if e.ConsumeRealtime? && e.property == property then Quota.AdmittedRealtime(s.Realtime(property), s.clock)
            else s.Realtime(property)
  {
    hide Quota.Charged, Quota.ChargedRealtime, Quota.Rolled, Quota.NewCounters, Quota.Ledger, Quota.Admits,
         Quota.AdmitsRealtime, LockDiscipline;
    if !e.Wait? {
      assert Informed(s.At(e.t), s.buckets);
      if e.Consume? || e.ConsumeRealtime? {
        SlotStep(s.heap[s.At(e.t).bucket], s.clock, if e.Consume? then e.cost else 0);
      }
    }
  }

  /** The store refines the reference: however calls interleave and time passes, the counters
      charge each property as if its requests had been admitted one at a time on a single log. */
  lemma {:induction false} RefinesReference(events: seq<Event>, property: string)
    requires Possible(events)
    ensures Run(events).Log(property) == Reference(events, property)
    ensures Run(events).Realtime(property) == RealtimeReference(events, property)
  {
    if events != [] {
      hide Apply, Enabled, Valid, State.Log, State.Realtime;
      var front := events[..|events| - 1];
      RefinesReference(front, property);
      AlwaysValid(front);
      LogStep(Run(front), events[|events| - 1], property);
    } else {
      assert INITIAL.Log(property) == [] == INITIAL.Realtime(property);
    }
  }

  /** A request is refused exactly when it would overrun the hour or the day of what all threads
      together were admitted. */
  lemma RefusedIff(events: seq<Event>, t: nat, property: string, cost: nat)
    requires Possible(events) && Enabled(Run(events), Consume(t, property, cost))
    ensures Apply(Run(events), Consume(t, property, cost)).At(t)
            == Idle(!Quota.Admits(Reference(events, property), Clock(events), cost))
  {
    hide Quota.Charged, Quota.ChargedRealtime, Quota.Rolled, Quota.NewCounters, Quota.Ledger, Quota.Admits, Reference,
         Run, Clock, LockDiscipline;
    AlwaysValid(events);
    RefinesReference(events, property);
    var s := Run(events);
    assert Informed(s.At(t), s.buckets);
    SlotStep(s.heap[s.At(t).bucket], s.clock, cost);
  }

  /** A realtime request is refused exactly when the day's budget is used up. */
  lemma RealtimeRefusedIff(events: seq<Event>, t: nat, property: string)
    requires Possible(events) && Enabled(Run(events), ConsumeRealtime(t, property))
    ensures Apply(Run(events), ConsumeRealtime(t, property)).At(t)
            == Idle(!Quota.AdmitsRealtime(RealtimeReference(events, property), Clock(events)))
  {
    hide Quota.Charged, Quota.ChargedRealtime, Quota.Rolled, Quota.NewCounters, Quota.Ledger, Quota.AdmitsRealtime,
         RealtimeReference, Run, Clock, LockDiscipline;
    AlwaysValid(events);
    RefinesReference(events, property);
    var s := Run(events);
    assert Informed(s.At(t), s.buckets);
    SlotStep(s.heap[s.At(t).bucket], s.clock, 0);
  }

  lemma QueryRolls(s: State, t: nat, property: string)
    requires Valid(s) && Enabled(s, Query(t, property))
    ensures s.At(t).Got? && s.At(t).bucket < |s.heap|
    ensures var s', slot := Apply(s, Query(t, property)), s.heap[s.At(t).bucket];
            && s'.At(t) == Idle(false) && s'.heap == s.heap[s.At(t).bucket := s'.heap[s.At(t).bucket]]
            && s'.heap[s.At(t).bucket].counters == Quota.Rolled(slot.counters, s.clock)
            && s.Log(property) == slot.log && Quota.Ledger(slot.counters, slot.log, slot.realtime, s.clock)
  {
    hide Quota.Rolled, Quota.NewCounters, Quota.Ledger, Quota.Charged, Quota.ChargedRealtime, LockDiscipline;
    assert Informed(s.At(t), s.buckets);
  }

  /** The hourly tokens a query reads are those spent by all threads in the current hour. */
  lemma QueryAnswers(events: seq<Event>, t: nat, property: string)
    requires Possible(events) && Enabled(Run(events), Query(t, property))
    ensures var s, s' := Run(events), Apply(Run(events), Query(t, property));
            && s'.At(t) == Idle(false) && s.At(t).bucket < |s'.heap| == |s.heap|
            && s'.heap[s.At(t).bucket].counters.hourly
               == Quota.SpentInWindow(Reference(events, property), s.clock, Quota.HOUR)
  {
    hide *;
    AlwaysValid(events);
    RefinesReference(events, property);
    var s := Run(events);
    QueryRolls(s, t, property);
    var slot := s.heap[s.At(t).bucket];
    Quota.RolledLedger(slot.counters, slot.log, slot.realtime, s.clock, s.clock);
  }

  /** So no interleaving of threads overruns a property's hour, day or realtime day. */
  lemma NeverOverrun(events: seq<Event>, property: string, w: nat)
    ensures w % Quota.HOUR == 0 ==>
              Quota.Spent(Run(events).Log(property), w, w + Quota.HOUR) <= Quota.HOURLY_TOKEN_LIMIT
    ensures w % Quota.DAY == 0 ==>
              && Quota.Spent(Run(events).Log(property), w, w + Quota.DAY) <= Quota.DAILY_TOKEN_LIMIT
              && Quota.Spent(Run(events).Realtime(property), w, w + Quota.DAY) <= Quota.REALTIME_DAILY_LIMIT
  {
    hide Quota.Spent, Run, Quota.Counts, Quota.AllBefore, LockDiscipline, OwnBuckets, Informed;
    AlwaysValid(events);
    var s := Run(events);
    assert Quota.Budgeted([]) && Quota.RealtimeBudgeted([]);
    hide Quota.Budgeted, Quota.RealtimeBudgeted;
    Quota.WindowBound(s.Log(property), w);
    if w % Quota.DAY == 0 {
      Quota.RealtimeBound(s.Realtime(property), w);
    }
  }

  /** Nor does any span of at most an hour, aligned or not, exceed two hourly budgets. */
  lemma NeverOverrunSliding(events: seq<Event>, property: string, from: nat, to: nat)
    requires from <= to <= from + Quota.HOUR
    ensures Quota.Spent(Run(events).Log(property), from, to) <= 2 * Quota.HOURLY_TOKEN_LIMIT
  {
    hide Quota.Spent, Run, Quota.Counts, Quota.AllBefore, LockDiscipline, OwnBuckets, Informed;
    AlwaysValid(events);
    assert Quota.Budgeted([]);
    hide Quota.Budgeted;
    Quota.SlidingHourBound(Run(events).Log(property), from, to);
  }

  /** No deadlock: while some thread is inside a call, some thread inside a call can step. */
  lemma Progress(events: seq<Event>, t: nat) returns (e: Event)
    requires !Run(events).At(t).Idle?
    ensures Enabled(Run(events), e) && !e.Call? && !e.Wait?
  {
    AlwaysValid(events);
    var s := Run(events);
    var u := if s.writer.Some? then s.writer.value else if s.readers != {} then Pick(s.readers) else t;
    var pc := s.At(u);
    assert s.writer.Some? ==> HoldsWrite(pc);
    assert s.writer.None? && s.readers != {} ==> HoldsRead(pc);
    e := match pc
      case Calling(_) => RLock(u)
      case Reading(_) => Lookup(u)
      case Hit(_, _) => RUnlock(u)
      case Miss(_) => RUnlock(u)
      case Retrying(_) => Lock(u)
      case Writing(_) => Recheck(u)
      case Creating(_) => ReadClock(u)
      case Dated(_, _) => Create(u)
      case Leaving(_, _) => Unlock(u)
      case Got(property, _) => Consume(u, property, 1);
  }

  ghost function Pick(s: set<nat>): (t: nat)
    requires s != {}
    ensures t in s
  {
    var t :| t in s;
    t
  }
}
