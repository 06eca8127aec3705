/** A live insert statement by statement, so that the calls of different cities can interleave
    between any two statements. */
module LiveStatements {

  import opened Wrappers
  import opened LiveOrders
  import BatchInsert

  /** An answer of the database, and how many returned ids would be read of it. */
  datatype Reply = Reply(answer: Answer, read: nat)

  /** Where a call stands: probing behind a split, counting it, creating the next one, inserting
      the orders from `start` on with n ids read, or returned. */
  datatype Phase =
    | Probing(split: nat)
    | Counting(split: nat)
    | Opening(split: nat)
    | Appending(split: nat, start: nat, n: nat)
    | Finished(n: nat, ok: bool)

  /** What a call has heard: where and why its probe stopped, and the answers to what followed. */
  datatype Heard = Heard(probed: nat, catalogueFailed: bool, countFailed: bool, creation: Creation, chunks: seq<Reply>)

  datatype Memory = Memory(phase: Phase, heard: Heard)

  const START: Memory := Memory(Probing(1), Heard(1, false, false, Created, []))

  /** The next statement of a call. Creating a split is taken as one statement: of its tables
      only the first, the orders table, matters here. */
  function Statement(site: Site, orders: seq<Order>, cap: nat, reply: Reply, db: Database, memory: Memory)
    : (Database, Memory)
  {
    var fails, heard := !reply.answer.Works?, memory.heard;
    match memory.phase
    case Probing(split) =>
      if fails || OrdersTable(site, split + 1) !in db then
        (db, Memory(Counting(split), heard.(probed := split, catalogueFailed := fails)))
      else (db, Memory(Probing(split + 1), heard))
    case Counting(split) =>
      var rowCount := if fails then 0 else |Rows(db, site, split)|;
      (db, Memory(if rowCount >= cap then Opening(split + 1) else Appending(split, 0, 0),
                  heard.(countFailed := fails)))
    case Opening(split) =>
      var creation := match reply.answer case Works => Created case Half => OrdersOnly case Fails => NothingCreated;
      (Opened(db, site, split, creation),
       Memory(if fails then Finished(0, false) else Appending(split, 0, 0), heard.(creation := creation)))
    case Appending(split, start, n) =>
      var name, end := OrdersTable(site, split), Min(start + CHUNK, |orders|);
      if start >= |orders| then (db, memory.(phase := Finished(n, true)))
      else if reply.answer.Fails? || name !in db then (db, memory.(phase := Finished(n, false)))
      else
        (db[name := db[name] + orders[start..end]],
         Memory(if fails then Finished(n, false) else Appending(split, end, n + Min(reply.read, end - start)),
                heard.(chunks := heard.chunks + [reply])))
    case Finished(_, _) => (db, memory)
  }

  // ---------- the call a list of answers amounts to ----------

  function CatalogueOf(h: Heard): nat -> bool {
    (s: nat) => h.catalogueFailed && s == h.probed + 1
  }

  /** What has not been heard yet is taken as refused. */
  function ChunksOf(replies: seq<Reply>): nat -> Answer {
    (j: nat) => if j < |replies| then replies[j].answer else Fails
  }

  function ReadsOf(replies: seq<Reply>): nat -> nat {
    (j: nat) => if j < |replies| then replies[j].read else CHUNK
  }

  function WeatherOf(h: Heard): Weather {
    Weather(CatalogueOf(h), h.countFailed, h.creation, ChunksOf(h.chunks), ReadsOf(h.chunks))
  }

  /** All chunks went well, but for the last, which may have been stored and answered by an error. */
  ghost predicate Heardable(replies: seq<Reply>) {
    && (forall i :: 0 <= i < |replies| - 1 ==> replies[i].answer.Works?)
    && (replies != [] ==> !replies[|replies| - 1].answer.Fails?)
  }

  function Good(replies: seq<Reply>): nat {
    if replies != [] && !replies[|replies| - 1].answer.Works? then |replies| - 1 else |replies|
  }

  lemma {:induction false} ChunksHeard(total: nat, replies: seq<Reply>, start: nat, j: nat)
    requires Heardable(replies) && j <= |replies| && start == Min(CHUNK * j, total)
    ensures BatchInsert.StoredRows(total, CHUNK, start, j, ChunksOf(replies)) == Min(CHUNK * |replies|, total) - start
    ensures j <= Good(replies) ==>
              BatchInsert.AnsweredRows(total, CHUNK, start, j, ChunksOf(replies))
              == Min(CHUNK * Good(replies), total) - start
    decreases |replies| - j
  {
    if j < |replies| {
      ChunksHeard(total, replies, Min(CHUNK * (j + 1), total), j + 1);
    }
  }

  lemma {:induction false} ReadsHeard(m: nat, m': nat, replies: seq<Reply>, r: Reply, j: nat)
    requires j <= |replies| && m == CHUNK * |replies| && m <= m' <= m + CHUNK
    ensures ReadBack(m', CHUNK * j, j, ReadsOf(replies + [r]))
            == ReadBack(m, CHUNK * j, j, ReadsOf(replies)) + Min(r.read, m' - m)
    decreases |replies| - j
  {
    if j < |replies| {
      ReadsHeard(m, m', replies, r, j + 1);
    }
  }

  /** Statement by statement a call does what one call does under some weather, as far as it has
      got: before its first insert nothing has changed but the split it may have opened. */
  ghost predicate CallStands(site: Site, orders: seq<Order>, cap: nat, db0: Database, db: Database, memory: Memory) {
    var h := memory.heard;
    match memory.phase
    case Probing(split) =>
      db == db0 && h.chunks == [] && split >= 1 && forall s: nat :: 2 <= s <= split ==> OrdersTable(site, s) in db0
    case Counting(split) =>
      db == db0 && h.chunks == [] && ActiveFrom(db0, site, CatalogueOf(h), 1) == split
    case Opening(split) =>
      db == db0 && h.chunks == [] && Choose(db0, site, cap, WeatherOf(h)) == (split, true)
    case Appending(split, start, n) =>
      && InsertOrders(db0, site, orders, cap, WeatherOf(h)) == Result(db, n, start >= |orders|)
      && Choose(db0, site, cap, WeatherOf(h)).0 == split
      && (Choose(db0, site, cap, WeatherOf(h)).1 ==> h.creation.Created?)
      && (forall i :: 0 <= i < |h.chunks| ==> h.chunks[i].answer.Works?)
      && start == Min(CHUNK * |h.chunks|, |orders|)
      && (OrdersTable(site, split) !in db ==> h.chunks == [])
    case Finished(n, ok) =>
      InsertOrders(db0, site, orders, cap, WeatherOf(h)) == Result(db, n, ok)
  }

  lemma {:induction false} ProbeEnds(db: Database, site: Site, h: Heard, s: nat)
    requires 1 <= s <= h.probed && (h.catalogueFailed || OrdersTable(site, h.probed + 1) !in db)
    requires forall x: nat :: 2 <= x <= h.probed ==> OrdersTable(site, x) in db
    ensures ActiveFrom(db, site, CatalogueOf(h), s) == h.probed
    decreases h.probed - s
  {
    hide OrdersTable;
    if s < h.probed {
      assert OrdersTable(site, s + 1) in db;
      ProbeEnds(db, site, h, s + 1);
    }
  }

  /** Before the first chunk: opening apart, nothing is done yet. */
  lemma NothingHeard(db0: Database, site: Site, orders: seq<Order>, cap: nat, h: Heard)
    requires h.chunks == []
    ensures var (split, opens) := Choose(db0, site, cap, WeatherOf(h));
            var next := if opens then Opened(db0, site, split, h.creation) else db0;
            InsertOrders(db0, site, orders, cap, WeatherOf(h))
            == if opens && !h.creation.Created? then Result(next, 0, false)
               else Result(next, 0, orders == [])
  {
    hide OrdersTable, ActiveFrom;
    ChunksHeard(|orders|, [], 0, 0);
    var w := WeatherOf(h);
    assert Stored(orders, w) == 0 == Answered(orders, w);
    hide BatchInsert.StoredRows, BatchInsert.AnsweredRows;
    assert forall rows: seq<Order> :: rows + orders[..0] == rows;
  }

  /** One more chunk. */
  lemma MoreHeard(db0: Database, site: Site, orders: seq<Order>, cap: nat, h: Heard, r: Reply, split: nat, start: nat,
                  db: Database, n: nat)
    requires CallStands(site, orders, cap, db0, db, Memory(Appending(split, start, n), h))
    requires start < |orders| && !r.answer.Fails? && OrdersTable(site, split) in db
    ensures var end, name := Min(start + CHUNK, |orders|), OrdersTable(site, split);
            var h' := h.(chunks := h.chunks + [r]);
            InsertOrders(db0, site, orders, cap, WeatherOf(h'))
            == Result(db[name := db[name] + orders[start..end]],
                      if r.answer.Works? then n + Min(r.read, end - start) else n,
                      r.answer.Works? && end == |orders|)
  {
    hide OrdersTable, ActiveFrom, Append, Stored, Answered, ReadBack;
    var h', end := h.(chunks := h.chunks + [r]), Min(start + CHUNK, |orders|);
    var w, w' := WeatherOf(h), WeatherOf(h');
    assert Choose(db0, site, cap, w) == Choose(db0, site, cap, w');
    hide Choose;
    NumbersHeard(orders, h, r, start);
    var next := if Choose(db0, site, cap, w).1 then Opened(db0, site, split, h.creation) else db0;
    AppendKeepsTable(next, site, split, orders, w);
    AppendMore(next, site, split, orders, w, w', start, end);
    AppendAnswers(next, site, split, orders, w);
    AppendAnswers(next, site, split, orders, w');
  }

  lemma AppendAnswers(db: Database, site: Site, split: nat, orders: seq<Order>, w: Weather)
    requires OrdersTable(site, split) in db
    ensures Append(db, site, split, orders, w).n == ReadBack(Answered(orders, w), 0, 0, w.scanned)
    ensures Append(db, site, split, orders, w).ok <==> Answered(orders, w) == |orders|
  {}

  lemma AppendKeepsTable(db: Database, site: Site, split: nat, orders: seq<Order>, w: Weather)
    ensures OrdersTable(site, split) in Append(db, site, split, orders, w).db <==> OrdersTable(site, split) in db
  {
    hide OrdersTable, Stored, Answered, ReadBack;
  }

  lemma NumbersHeard(orders: seq<Order>, h: Heard, r: Reply, start: nat)
    requires start < |orders| && start == Min(CHUNK * |h.chunks|, |orders|) && !r.answer.Fails?
    requires forall i :: 0 <= i < |h.chunks| ==> h.chunks[i].answer.Works?
    ensures var end := Min(start + CHUNK, |orders|);
            var w, w' := WeatherOf(h), WeatherOf(h.(chunks := h.chunks + [r]));
            && Stored(orders, w) == start == Answered(orders, w) && Stored(orders, w') == end
            && Answered(orders, w') == (if r.answer.Works? then end else start)
            && ReadBack(Answered(orders, w'), 0, 0, w'.scanned)
               == ReadBack(start, 0, 0, w.scanned) + if r.answer.Works? then Min(r.read, end - start) else 0
  {
    hide ReadBack;
    var rs, end := h.chunks, Min(start + CHUNK, |orders|);
    ChunksHeard(|orders|, rs, 0, 0);
    ChunksHeard(|orders|, rs + [r], 0, 0);
    ReadsHeard(start, if r.answer.Works? then end else start, rs, r, 0);
  }

  lemma AppendMore(next: Database, site: Site, split: nat, orders: seq<Order>, w: Weather, w': Weather, start: nat,
                   end: nat)
    requires OrdersTable(site, split) in next && start <= end <= |orders|
    requires Stored(orders, w) == start && Stored(orders, w') == end
    ensures var db, name := Append(next, site, split, orders, w).db, OrdersTable(site, split);
            && name in db
            && Append(next, site, split, orders, w').db == db[name := db[name] + orders[start..end]]
  {
    hide OrdersTable, Stored, Answered, ReadBack;
    var rows := Rows(next, site, split);
    assert rows + orders[..start] + orders[start..end] == rows + orders[..end];
  }

  /** Each statement keeps a call where one call stands; a finished one has done one whole call. */
  lemma StatementStands(site: Site, orders: seq<Order>, cap: nat, reply: Reply, db0: Database, db: Database,
                        memory: Memory)
    requires CallStands(site, orders, cap, db0, db, memory)
    ensures var (db', memory') := Statement(site, orders, cap, reply, db, memory);
            CallStands(site, orders, cap, db0, db', memory')
  {
    hide OrdersTable, InsertOrders, ActiveFrom;
    var h := memory.heard;
    match memory.phase
    case Probing(split) =>
      ProbeStands(site, orders, cap, reply, db, memory);
    case Counting(split) =>
      CountStands(site, orders, cap, reply, db, memory);
    case Opening(split) =>
      var h' := Statement(site, orders, cap, reply, db, memory).1.heard;
      assert Choose(db0, site, cap, WeatherOf(h)) == Choose(db0, site, cap, WeatherOf(h'));
      hide Choose;
      NothingHeard(db0, site, orders, cap, h');
    case Appending(split, start, n) =>
      AppendStands(site, orders, cap, reply, db0, db, memory);
    case Finished(_, _) =>
  }

  lemma ProbeStands(site: Site, orders: seq<Order>, cap: nat, reply: Reply, db: Database, memory: Memory)
    requires CallStands(site, orders, cap, db, db, memory) && memory.phase.Probing?
    ensures var (db', memory') := Statement(site, orders, cap, reply, db, memory);
            db' == db && CallStands(site, orders, cap, db, db, memory')
  {
    hide OrdersTable, InsertOrders, ActiveFrom;
    var memory' := Statement(site, orders, cap, reply, db, memory).1;
    if memory'.phase.Counting? {
      ProbeEnds(db, site, memory'.heard, 1);
    }
  }

  lemma CountStands(site: Site, orders: seq<Order>, cap: nat, reply: Reply, db: Database, memory: Memory)
    requires CallStands(site, orders, cap, db, db, memory) && memory.phase.Counting?
    ensures var (db', memory') := Statement(site, orders, cap, reply, db, memory);
            db' == db && CallStands(site, orders, cap, db, db, memory')
  {
    hide OrdersTable, InsertOrders, ActiveFrom;
    var memory' := Statement(site, orders, cap, reply, db, memory).1;
    NothingHeard(db, site, orders, cap, memory'.heard);
    assert CatalogueOf(memory'.heard) == CatalogueOf(memory.heard);
  }

  lemma AppendStands(site: Site, orders: seq<Order>, cap: nat, reply: Reply, db0: Database, db: Database,
                     memory: Memory)
    requires CallStands(site, orders, cap, db0, db, memory) && memory.phase.Appending?
    ensures var (db', memory') := Statement(site, orders, cap, reply, db, memory);
            CallStands(site, orders, cap, db0, db', memory')
  {
    hide OrdersTable, InsertOrders, ActiveFrom;
    var h, phase := memory.heard, memory.phase;
    if phase.start < |orders| && !reply.answer.Fails? && OrdersTable(site, phase.split) in db {
      MoreHeard(db0, site, orders, cap, h, reply, phase.split, phase.start, db, phase.n);
      var h' := h.(chunks := h.chunks + [reply]);
      assert Choose(db0, site, cap, WeatherOf(h)) == Choose(db0, site, cap, WeatherOf(h'));
      hide Choose;
    }
  }

  // ---------- a call whose statements work ----------

  /** No statement of the call has been answered by an error so far. */
  predicate Unfailed(memory: Memory) {
    memory.phase.Finished? ==> memory.phase.ok
  }

  /** Statements still needed at most. */
  function StatementsLeft(k: nat, orders: seq<Order>, memory: Memory): nat {
    match memory.phase
    case Probing(split) => Max(0, k - split) + |orders| + 4
    case Counting(_) => |orders| + 3
    case Opening(_) => |orders| + 2
    case Appending(_, start, _) => Max(0, |orders| - start) + 1
    case Finished(_, _) => 0
  }

  /** A working statement never fails a call, and brings it nearer to its end. */
  lemma WorkingStatement(site: Site, orders: seq<Order>, cap: nat, reply: Reply, db0: Database, db: Database,
                         memory: Memory, k: nat)
    requires Contiguous(db0, site, k) && CallStands(site, orders, cap, db0, db, memory) && Unfailed(memory)
    requires reply.answer.Works?
    ensures var memory' := Statement(site, orders, cap, reply, db, memory).1;
            && Unfailed(memory')
            && (!memory.phase.Finished? ==>
                  StatementsLeft(k, orders, memory') < StatementsLeft(k, orders, memory))
  {
    hide OrdersTable, InsertOrders, ActiveFrom, Choose;
    match memory.phase
    case Probing(split) =>
      assert split > 1 ==> OrdersTable(site, split) in db0;
    case Counting(_) =>
    case Opening(_) =>
    case Appending(split, start, n) =>
      CallEffect(db0, site, k, orders, cap, WeatherOf(memory.heard));
      ChooseOpens(db0, site, k, cap, WeatherOf(memory.heard));
    case Finished(_, _) =>
  }

  /** Only the split behind the last is opened, and only as one to be created. */
  lemma ChooseOpens(db: Database, site: Site, k: nat, cap: nat, w: Weather)
    requires Contiguous(db, site, k)
    ensures Choose(db, site, cap, w).0 == k + 1 ==> Choose(db, site, cap, w).1
  {
    hide OrdersTable, ActiveFrom;
    ActiveIsHighestIff(db, site, k, w.catalogueFails, 1);
  }
}
