/** The enrich service: a mutex-guarded queue, one background worker that drains, embeds and
    publishes or requeues, and cursor readers over the append-only results. */
module EnrichService {
  import opened Wrappers
  import opened Strconv

  /** A JSON value as far as the service looks at it. */
  datatype Value = Text(s: string) | Other(json: string)

  type Record = map<string, Value>

  type Embedding = seq<real>

  datatype Result = Result(productId: string, embedding: Embedding, record: Record)

  /** A string field, or the empty string when it is absent or not a string. */
  function TextField(r: Record, key: string): string {
    if key in r && r[key].Text? then r[key].s else ""
  }

  function ResultOf(r: Record, e: Embedding): Result {
    Result(TextField(r, "product_id"), e, r)
  }

  /** The guarded fields. */
  datatype Store = Store(pending: seq<Record>, done: seq<Result>)

  datatype Page = Page(results: seq<Result>, nextCursor: int, hasMore: bool)

  // ---------- what each mutex-held method does ----------

  function Enqueued(st: Store, records: seq<Record>): Store {
    st.(pending := st.pending + records)
  }

  function Appended(st: Store, results: seq<Result>): Store {
    st.(done := st.done + results)
  }

  function PageOf(done: seq<Result>, cursor: nat, limit: nat): Page {
    if cursor >= |done| then Page([], cursor, false)
    else
      var end := Min(cursor + limit, |done|);
      Page(done[cursor..end], end, end < |done|)
  }

  /** Texts sent to the embedder, one per record of the batch. */
  function Texts(batch: seq<Record>): seq<string> {
    seq(|batch|, i requires 0 <= i < |batch| => TextField(batch[i], "embed_text"))
  }

  /** Records paired with the embeddings at the same position, up to the shorter of both. */
  function Paired(batch: seq<Record>, embeddings: seq<Embedding>): seq<Result> {
    seq(Min(|batch|, |embeddings|),
        i requires 0 <= i < Min(|batch|, |embeddings|) => ResultOf(batch[i], embeddings[i]))
  }

  /** Records a short reply leaves without an embedding. */
  function Unanswered(batch: seq<Record>, embeddings: seq<Embedding>): seq<Record> {
    batch[Min(|batch|, |embeddings|)..]
  }

  function EffectiveLimit(limit: int): nat {
    if limit <= 0 || limit > 500 then 100 else limit
  }

  /** The page served for the query parameters `cursor` and `limit`; text that does not parse
      counts as the number Atoi returns beside its error. */
  function Served(done: seq<Result>, cursorText: string, limitText: string): Page {
    PageOf(done, Max(0, Atoi(cursorText).0), EffectiveLimit(Atoi(limitText).0))
  }

  /** A cursor below zero is out of range of the slice: the handler dies. */
  datatype Response = Answered(page: Page) | Panicked

  class Service {
    var pending: seq<Record>
    var done: seq<Result>

    function View(): Store
      reads this
    {
      Store(pending, done)
    }

    constructor ()
      ensures View() == Store([], [])
    {
      pending, done := [], [];
    }

    method Enqueue(records: seq<Record>)
      modifies this
      ensures View() == Enqueued(old(View()), records)
    {
      pending := pending + records;
    }

    method Drain() returns (batch: seq<Record>, ok: bool)
      modifies this
      ensures ok <==> old(pending) != []
      ensures batch == old(pending) && View() == old(View()).(pending := [])
    {
      if |pending| == 0 {
        return [], false;
      }
      batch, ok := pending, true;
      pending := [];
    }

    method AppendDone(results: seq<Result>)
      modifies this
      ensures View() == Appended(old(View()), results)
    {
      done := done + results;
    }

    method GetResults(cursor: int, limit: nat) returns (response: Response)
      ensures response == if cursor < 0 then Panicked else Answered(PageOf(done, cursor, limit))
    {
      if cursor >= |done| {
        return Answered(Page([], cursor, false));
      }
      var end := cursor + limit;
      if end > |done| {
        end := |done|;
      }
      if !(0 <= cursor <= end) {
        return Panicked;
      }
      return Answered(Page(done[cursor..end], end, end < |done|));
    }

    method Stats() returns (waiting: nat, finished: nat)
      ensures waiting == |pending| && finished == |done|
    {
      return |pending|, |done|;
    }

    method HandleResults(cursorText: string, limitText: string) returns (response: Response)
      ensures response.Panicked? <==> Atoi(cursorText).0 < 0
      ensures response.Answered? ==> response.page == Served(done, cursorText, limitText)
    {
      var cursor := Atoi(cursorText).0;
      var limit := Atoi(limitText).0;
      if limit <= 0 || limit > 500 {
        limit := 100;
      }
      response := GetResults(cursor, limit);
    }
  }

  method CollectTexts(batch: seq<Record>) returns (texts: seq<string>)
    ensures texts == Texts(batch)
  {
    var a := new string[|batch|](_ => "");
    for i := 0 to |batch|
      invariant forall j :: 0 <= j < i ==> a[j] == Texts(batch)[j]
    {
      a[i] := TextField(batch[i], "embed_text");
    }
    texts := a[..];
  }

  method PairResults(batch: seq<Record>, embeddings: seq<Embedding>) returns (results: seq<Result>)
    ensures results == Paired(batch, embeddings)
  {
    results := [];
    for i := 0 to |batch|
      invariant i <= |embeddings| && results == Paired(batch[..i], embeddings)
    {
      if i >= |embeddings| {
        assert batch[..i] == batch[..Min(|batch|, |embeddings|)];
        return;
      }
      results := results + [ResultOf(batch[i], embeddings[i])];
    }
    assert batch[..|batch|] == batch;
  }

  /** The store after one undisturbed round of the worker; no reply stands for an error. */
  function AfterRound(st: Store, reply: Option<seq<Embedding>>): Store {
    if st.pending == [] || reply == None then st
    else Appended(st.(pending := []), Paired(st.pending, reply.value))
  }

  // ---------- all interleavings ----------

  /** Where the worker stands between two critical sections. */
  datatype Worker =
    | Idle
    | Embedding(batch: seq<Record>)
    | Failed(batch: seq<Record>)
    | Replied(batch: seq<Record>, embeddings: seq<Embedding>)
  {
    function InFlight(): seq<Record> {
      if Idle? then [] else batch
    }
  }

  datatype Reader = Reader(cursor: nat, collected: seq<Result>, caughtUp: bool)

  /** The service, its worker, the readers, and two logs: records accepted and records lost. */
  datatype World = World(store: Store, worker: Worker, readers: map<nat, Reader>,
                         accepted: seq<Record>, dropped: seq<Record>)

  datatype Event =
    | Accept(records: seq<Record>)
    | StartBatch
    | EmbedFails
    | EmbedReplies(embeddings: seq<Embedding>)
    | Requeue
    | Publish
    | Poll(reader: nat, limitText: string)

  const INITIAL := World(Store([], []), Idle, map[], [], [])

  function PolledBy(w: World, id: nat): Reader {
    if id in w.readers then w.readers[id] else Reader(0, [], false)
  }

  /** One atomic step; a step that cannot happen now changes nothing. */
  function Apply(w: World, e: Event): World {
    match e
    case Accept(records) =>
      w.(store := Enqueued(w.store, records), accepted := w.accepted + records)
    case StartBatch =>
      if w.worker.Idle? && w.store.pending != [] then
        w.(store := w.store.(pending := []), worker := Embedding(w.store.pending))
      else w
    case EmbedFails =>
      if w.worker.Embedding? then w.(worker := Failed(w.worker.batch)) else w
    case EmbedReplies(embeddings) =>
      if w.worker.Embedding? then w.(worker := Replied(w.worker.batch, embeddings)) else w
    case Requeue =>
      if w.worker.Failed? then w.(store := Enqueued(w.store, w.worker.batch), worker := Idle) else w
    case Publish =>
      if w.worker.Replied? && |w.store.done| + |w.worker.batch| <= MAX_INT then
        w.(store := Appended(w.store, Paired(w.worker.batch, w.worker.embeddings)),
           worker := Idle,
           dropped := w.dropped + Unanswered(w.worker.batch, w.worker.embeddings))
      else w
    case Poll(id, limitText) =>
      var r := PolledBy(w, id);
      var page := Served(w.store.done, Format(r.cursor), limitText);
      w.(readers := w.readers[id := Reader(Max(0, page.nextCursor), r.collected + page.results, !page.hasMore)])
  }

  function Run(events: seq<Event>): World {
    if events == [] then INITIAL else Apply(Run(events[..|events| - 1]), events[|events| - 1])
  }

  /** The text stands in the record's entry, or is empty when the entry is no text. */
  ghost predicate TextOf(text: string, r: Record, key: string) {
    if key in r && r[key].Text? then r[key] == Text(text) else text == ""
  }

  /** The steps of one undisturbed round; no reply stands for an error. */
  function Round(w: World, reply: Option<seq<Embedding>>): World {
    match reply
    case None => Apply(Apply(Apply(w, StartBatch), EmbedFails), Requeue)
    case Some(embeddings) => Apply(Apply(Apply(w, StartBatch), EmbedReplies(embeddings)), Publish)
  }

  lemma RoundStore(w: World, reply: Option<seq<Embedding>>)
    requires w.worker.Idle? && |w.store.done| + |w.store.pending| <= MAX_INT
    ensures Round(w, reply).store == AfterRound(w.store, reply)
  {
    hide Paired, Unanswered, Served, PolledBy;
    assert [] + w.store.pending == w.store.pending;
  }

  /** One round of the background worker; the reply of the embedder is given. Undisturbed, it
      does what the steps above do, from any world with this store. */
  method WorkerRound(s: Service, reply: Option<seq<Embedding>>, ghost w: World)
    returns (texts: seq<string>, finished: nat)
    modifies s
    ensures s.View() == AfterRound(old(s.View()), reply)
    ensures w.store == old(s.View()) && w.worker.Idle? && |old(s.done)| + |old(s.pending)| <= MAX_INT ==>
              Round(w, reply).store == s.View()
    ensures |texts| == |old(s.pending)|
    ensures forall i :: 0 <= i < |texts| ==> TextOf(texts[i], old(s.pending)[i], "embed_text")
    ensures finished == if old(s.pending) != [] && reply.Some? then |s.done| else 0
  {
    if w.worker.Idle? && |s.done| + |s.pending| <= MAX_INT && w.store == s.View() {
      RoundStore(w, reply);
    }
    hide Round, Paired;
    var batch, ok := s.Drain();
    if !ok {
      return [], 0;
    }
    finished := 0;
    texts := CollectTexts(batch);
    if reply == None {
      s.Enqueue(batch);
      assert [] + batch == batch;
      return;
    }
    var results := PairResults(batch, reply.value);
    s.AppendDone(results);
    var _, total := s.Stats();
    finished := total;
  }

  function RecordsOf(results: seq<Result>): seq<Record> {
    seq(|results|, i requires 0 <= i < |results| => results[i].record)
  }

  /** The event publishes a reply that is shorter than its batch. */
  predicate ShortPublish(w: World, e: Event) {
    e.Publish? && w.worker.Replied? && |w.store.done| + |w.worker.batch| <= MAX_INT
    && |w.worker.embeddings| < |w.worker.batch|
  }

  /** `ok` held at every step of the run. */
  ghost predicate Always(ok: (World, Event) -> bool, events: seq<Event>) {
    events == [] || (Always(ok, events[..|events| - 1]) && ok(Run(events[..|events| - 1]), events[|events| - 1]))
  }

  /** No reply was published short. */
  ghost predicate NoShort(events: seq<Event>) {
    Always((w, e) => !ShortPublish(w, e), events)
  }

  /** The event puts a batch back behind records accepted after it was drained. */
  predicate Overtakes(w: World, e: Event) {
    e.Requeue? && w.worker.Failed? && w.store.pending != []
  }

  ghost predicate NoOvertaking(events: seq<Event>) {
    Always((w, e) => !Overtakes(w, e), events)
  }

  /** Reply i is the embedding of text i. */
  predicate HonestReply(embed: string -> Embedding, batch: seq<Record>, embeddings: seq<Embedding>) {
    forall j :: 0 <= j < Min(|batch|, |embeddings|) ==> embeddings[j] == embed(Texts(batch)[j])
  }

  /** The embedder answers position by position. */
  ghost predicate Honest(embed: string -> Embedding, events: seq<Event>) {
    Always((w: World, e: Event) =>
             e.EmbedReplies? && w.worker.Embedding? ==> HonestReply(embed, w.worker.batch, e.embeddings),
           events)
  }

  // ---------- conservation ----------

  lemma PairedRecords(batch: seq<Record>, embeddings: seq<Embedding>)
    ensures RecordsOf(Paired(batch, embeddings)) + Unanswered(batch, embeddings) == batch
    ensures Unanswered(batch, embeddings) == [] <==> |embeddings| >= |batch|
  {}

  lemma RecordsAppend(a: seq<Result>, b: seq<Result>)
    ensures RecordsOf(a + b) == RecordsOf(a) + RecordsOf(b)
  {}

  ghost predicate Conserved(w: World) {
    multiset(w.accepted) == multiset(w.store.pending) + multiset(w.worker.InFlight())
                            + multiset(RecordsOf(w.store.done)) + multiset(w.dropped)
  }

  lemma ApplyConserves(w: World, e: Event)
    requires Conserved(w)
    ensures Conserved(Apply(w, e))
  {
    if e == Publish && w.worker.Replied? {
      var batch, embeddings := w.worker.batch, w.worker.embeddings;
      PairedRecords(batch, embeddings);
      RecordsAppend(w.store.done, Paired(batch, embeddings));
      assert multiset(batch)
             == multiset(RecordsOf(Paired(batch, embeddings))) + multiset(Unanswered(batch, embeddings));
    }
  }

  /** In every interleaving each accepted record is pending, in flight, done or dropped,
      exactly as often as it was accepted. */
  lemma {:induction false} Conservation(events: seq<Event>)
    ensures Conserved(Run(events))
  {
    if events == [] {
      assert RecordsOf([]) == [];
    } else {
      Conservation(events[..|events| - 1]);
      ApplyConserves(Run(events[..|events| - 1]), events[|events| - 1]);
    }
  }

  /** Records are dropped exactly when a reply shorter than its batch is published. */
  lemma {:induction false} DroppedIff(events: seq<Event>)
    ensures Run(events).dropped == [] <==> NoShort(events)
  {
    if events != [] {
      var front, e := events[..|events| - 1], events[|events| - 1];
      DroppedIff(front);
      DropStep(Run(front), e);
    }
  }

  lemma DropStep(w: World, e: Event)
    ensures Apply(w, e).dropped == [] <==> w.dropped == [] && !ShortPublish(w, e)
  {
    if w.worker.Replied? {
      PairedRecords(w.worker.batch, w.worker.embeddings);
    }
  }

  /** Results, the batch in flight and the queue together are the accepted sequence. */
  ghost predicate Ordered(w: World) {
    RecordsOf(w.store.done) + w.worker.InFlight() + w.store.pending == w.accepted
  }

  /** The event puts a batch back behind the queue, and the order of the two matters. */
  predicate Reorders(w: World, e: Event) {
    e.Requeue? && w.worker.Failed? && w.store.pending + w.worker.batch != w.worker.batch + w.store.pending
  }

  lemma OrderedStepIff(w: World, e: Event)
    requires Ordered(w)
    ensures Ordered(Apply(w, e)) <==> !ShortPublish(w, e) && !Reorders(w, e)
  {
    var done, pending := RecordsOf(w.store.done), w.store.pending;
    if e == Publish && w.worker.Replied? {
      var batch, embeddings := w.worker.batch, w.worker.embeddings;
      PairedRecords(batch, embeddings);
      RecordsAppend(w.store.done, Paired(batch, embeddings));
      assert |w.accepted| == |done| + |batch| + |pending|;
    } else if e == Requeue && w.worker.Failed? {
      var batch := w.worker.batch;
      assert done + [] + (pending + batch) == done + (pending + batch);
      assert done + batch + pending == done + (batch + pending);
      assert (done + (pending + batch))[|done|..] == pending + batch;
      assert (done + (batch + pending))[|done|..] == batch + pending;
    }
  }

  /** The order is kept at every moment of a run if and only if no reply was published short
      and no failed batch was requeued behind records it does not commute with. */
  lemma {:induction false} OrderedIff(events: seq<Event>)
    ensures (forall n: nat :: n <= |events| ==> Ordered(Run(events[..n])))
            <==> Always((w, e) => !ShortPublish(w, e) && !Reorders(w, e), events)
  {
    if events == [] {
      assert RecordsOf([]) == [];
      forall n: nat | n <= |events| ensures Ordered(Run(events[..n])) {
        assert events[..n] == [];
      }
    } else {
      var front, e := events[..|events| - 1], events[|events| - 1];
      OrderedIff(front);
      OrderedThroughout(events);
      if Ordered(Run(front)) {
        OrderedStepIff(Run(front), e);
      }
      assert front[..|front|] == front;
    }
  }

  lemma OrderedThroughout(events: seq<Event>)
    requires events != []
    ensures (forall n: nat :: n <= |events| ==> Ordered(Run(events[..n]))) <==>
            var front := events[..|events| - 1];
            && (forall n: nat :: n <= |front| ==> Ordered(Run(front[..n])))
            && Ordered(Run(events))
  {
    hide Ordered, Run;
    var front := events[..|events| - 1];
    assert events[..|events|] == events;
    forall n: nat | n < |events| ensures front[..n] == events[..n] {}
    if forall n: nat :: n <= |events| ==> Ordered(Run(events[..n])) {
      forall n: nat | n < |events| ensures Ordered(Run(front[..n])) {
        assert Ordered(Run(events[..n]));
      }
    } else {
      var n: nat :| n <= |events| && !Ordered(Run(events[..n]));
      assert n < |events| ==> !Ordered(Run(front[..n]));
    }
  }

  /** In particular nothing is out of order without short replies and overtaking requeues. */
  lemma OrderKept(events: seq<Event>)
    requires NoShort(events) && NoOvertaking(events)
    ensures Ordered(Run(events))
  {
    NothingReorders(events);
    OrderedIff(events);
    assert events[..|events|] == events;
  }

  lemma {:induction false} NothingReorders(events: seq<Event>)
    requires NoShort(events) && NoOvertaking(events)
    ensures Always((w, e) => !ShortPublish(w, e) && !Reorders(w, e), events)
  {
    if events != [] {
      NothingReorders(events[..|events| - 1]);
      var w := Run(events[..|events| - 1]);
      if w.worker.Failed? && w.store.pending == [] {
        assert [] + w.worker.batch == w.worker.batch + [];
      }
    }
  }

  /** Only a failed embed call can make a batch overtake. */
  lemma {:induction false} NoFailureNoOvertaking(events: seq<Event>)
    requires forall i :: 0 <= i < |events| ==> !events[i].EmbedFails?
    ensures NoOvertaking(events) && !Run(events).worker.Failed?
  {
    if events != [] {
      NoFailureNoOvertaking(events[..|events| - 1]);
    }
  }

  lemma RunNext(events: seq<Event>, e: Event)
    ensures Run(events + [e]) == Apply(Run(events), e)
  {
    assert (events + [e])[..|events|] == events;
  }

  /** A failed call does reorder when something was accepted meanwhile. */
  lemma FailureReorders(a: Record, b: Record)
    ensures Run([Accept([a]), StartBatch, EmbedFails, Accept([b]), Requeue]).store.pending == [b, a]
  {
    var e1, e2 := [Accept([a])], [Accept([a]), StartBatch];
    var e3 := e2 + [EmbedFails];
    var e4 := e3 + [Accept([b])];
    RunNext([], Accept([a]));
    assert [] + [Accept([a])] == e1;
    RunNext(e1, StartBatch);
    assert e1 + [StartBatch] == e2;
    RunNext(e2, EmbedFails);
    RunNext(e3, Accept([b]));
    RunNext(e4, Requeue);
    hide Run;
    assert e4 + [Requeue] == [Accept([a]), StartBatch, EmbedFails, Accept([b]), Requeue];
  }

  // ---------- pairing ----------

  /** The entries of the record decide: a text is taken as it is, anything else as empty. */
  ghost predicate OwnEmbedding(embed: string -> Embedding, r: Result) {
    && (forall s :: "embed_text" in r.record && r.record["embed_text"] == Text(s) ==> r.embedding == embed(s))
    && ("embed_text" !in r.record || r.record["embed_text"].Other? ==> r.embedding == embed(""))
    && (forall s :: "product_id" in r.record && r.record["product_id"] == Text(s) ==> r.productId == s)
    && ("product_id" !in r.record || r.record["product_id"].Other? ==> r.productId == "")
  }

  ghost predicate AllOwn(embed: string -> Embedding, w: World) {
    && (forall i :: 0 <= i < |w.store.done| ==> OwnEmbedding(embed, w.store.done[i]))
    && (w.worker.Replied? ==> HonestReply(embed, w.worker.batch, w.worker.embeddings))
  }

  /** With an honest embedder every result carries the embedding of its own record's text. */
  lemma {:induction false} PairedWithOwnText(embed: string -> Embedding, events: seq<Event>)
    requires Honest(embed, events)
    ensures AllOwn(embed, Run(events))
  {
    if events != [] {
      PairedWithOwnText(embed, events[..|events| - 1]);
      var w, e := Run(events[..|events| - 1]), events[|events| - 1];
      if e.Publish? && w.worker.Replied? {
        PairedOwn(embed, w.worker.batch, w.worker.embeddings);
      }
    }
  }

  lemma PairedOwn(embed: string -> Embedding, batch: seq<Record>, embeddings: seq<Embedding>)
    requires HonestReply(embed, batch, embeddings)
    ensures forall i :: 0 <= i < |Paired(batch, embeddings)| ==> OwnEmbedding(embed, Paired(batch, embeddings)[i])
  {
    forall i | 0 <= i < |Paired(batch, embeddings)|
      ensures OwnEmbedding(embed, Paired(batch, embeddings)[i])
    {
      assert embeddings[i] == embed(Texts(batch)[i]);
    }
  }

  // ---------- readers ----------

  ghost predicate ReaderOk(done: seq<Result>, r: Reader) {
    r.cursor <= |done| && r.collected == done[..r.cursor]
  }

  ghost predicate ReadersOk(w: World) {
    && |w.store.done| <= MAX_INT
    && forall id :: id in w.readers ==> ReaderOk(w.store.done, w.readers[id])
  }

  /** One poll: the page continues where the reader stopped, and a page that announces no
      more leaves the reader with every result published so far. */
  lemma PollContinues(done: seq<Result>, r: Reader, limitText: string)
    requires |done| <= MAX_INT && ReaderOk(done, r)
    ensures var page := Served(done, Format(r.cursor), limitText);
            && 0 <= page.nextCursor <= |done| && r.collected + page.results == done[..page.nextCursor]
            && (page.hasMore <==> page.nextCursor < |done|)
            && |page.results| == page.nextCursor - r.cursor
            && var asked := Atoi(limitText).0;
               |page.results| == Min(if 1 <= asked <= 500 then asked else 100, |done| - r.cursor)
  {
    AtoiOfFormat(r.cursor, 0);
  }

  /** Any number of readers polling with any limits, interleaved with anything: a reader that
      passes back the cursor it was given has collected exactly the results below it, once
      and in order; results already published never change. */
  lemma {:induction false} ReadersSeeEachOnce(events: seq<Event>)
    ensures ReadersOk(Run(events))
  {
    if events != [] {
      var front, e := events[..|events| - 1], events[|events| - 1];
      ReadersSeeEachOnce(front);
      var w := Run(front);
      if e.Poll? {
        assert ReaderOk(w.store.done, PolledBy(w, e.reader));
        PollContinues(w.store.done, PolledBy(w, e.reader), e.limitText);
      }
    }
  }

  lemma {:induction false} ResultsAppendOnly(events: seq<Event>, n: nat)
    requires n <= |events|
    ensures Run(events[..n]).store.done <= Run(events).store.done
    decreases |events|
  {
    if n < |events| {
      var front := events[..|events| - 1];
      assert front[..n] == events[..n];
      ResultsAppendOnly(front, n);
    } else {
      assert events[..n] == events;
    }
  }
}
