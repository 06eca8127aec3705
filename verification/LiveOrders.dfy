/** Live order inserts: each call probes for the highest order split of a city, opens the next
    one when that is full, and appends its orders in chunks. */
module LiveOrders {

  import opened Wrappers
  import opened Strconv
  import opened Strings
  import BatchInsert

  const CHUNK: nat := 500

  datatype Order = Order(customerId: nat, cityId: nat, status: string)

  /** A city of a brand; each brand has a database of its own. */
  datatype Site = Site(brand: string, city: string)

  datatype TableName = TableName(brand: string, table: string)

  function OrdersTable(site: Site, split: nat): TableName {
    TableName(site.brand, "orders_" + site.city + "_" + Format(split))
  }

  /** All order tables of all brands. */
  type Database = map<TableName, seq<Order>>

  /** How far creating the tables of a split gets; the orders table comes first. */
  datatype Creation = Created | OrdersOnly | NothingCreated

  /** What the database does to one call. `chunk(j)` is its answer to the j-th insert, `scanned(j)`
      bounds how many of the returned ids are read. */
  datatype Weather = Weather(
    catalogueFails: nat -> bool,
    countFails: bool,
    creation: Creation,
    chunk: nat -> Answer,
    scanned: nat -> nat)

  datatype Result = Result(db: Database, n: nat, ok: bool)

  // ---------- names ----------

  /** Whatever the cities are called, no two splits and no two sites share a table. */
  lemma TableInjective(a: Site, m: nat, b: Site, n: nat)
    requires OrdersTable(a, m) == OrdersTable(b, n)
    ensures a == b && m == n
  {
    PlainNumber(m);
    PlainNumber(n);
    var pa, pb := "orders_" + a.city, "orders_" + b.city;
    LastPart(pa, Format(m), pb, Format(n));
    FormatInjective(m, n);
    assert pa[7..] == a.city && pb[7..] == b.city;
  }

  lemma PlainNumber(n: nat)
    ensures Plain(Format(n))
  {}

  lemma OwnTables(site: Site)
    ensures forall m: nat, n: nat :: OrdersTable(site, m) == OrdersTable(site, n) ==> m == n
  {
    forall m: nat, n: nat | OrdersTable(site, m) == OrdersTable(site, n) ensures m == n {
      TableInjective(site, m, site, n);
    }
  }

  lemma TableExample()
    ensures OrdersTable(Site("blinkit", "mumbai"), 2) == TableName("blinkit", "orders_mumbai_2")
  {}

  // ---------- one call ----------

  ghost function Beyond(db: Database, site: Site, split: nat): set<TableName> {
    set name | name in db && exists k: nat :: split < k && name == OrdersTable(site, k)
  }

  lemma BeyondShrinks(db: Database, site: Site, split: nat)
    requires OrdersTable(site, split + 1) in db
    ensures Beyond(db, site, split + 1) < Beyond(db, site, split)
  {
    var name := OrdersTable(site, split + 1);
    OwnTables(site);
    hide OrdersTable;
    assert name in Beyond(db, site, split) && name !in Beyond(db, site, split + 1);
  }

  /** The split the probe settles on, from a split on. */
  function ActiveFrom(db: Database, site: Site, fails: nat -> bool, split: nat): (a: nat)
    ensures a >= split
    decreases Beyond(db, site, split)
  {
    if fails(split + 1) || OrdersTable(site, split + 1) !in db then split
    else
      BeyondShrinks(db, site, split);
      ActiveFrom(db, site, fails, split + 1)
  }

  function Rows(db: Database, site: Site, split: nat): seq<Order> {
    if OrdersTable(site, split) in db then db[OrdersTable(site, split)] else []
  }

  /** A failed count, like a missing table, reads as zero. */
  function RowCount(db: Database, site: Site, split: nat, w: Weather): nat {
    if w.countFails then 0 else |Rows(db, site, split)|
  }

  /** The split that will receive the orders, and whether it is to be created. */
  function Choose(db: Database, site: Site, cap: nat, w: Weather): (nat, bool) {
    var a := ActiveFrom(db, site, w.catalogueFails, 1);
    if RowCount(db, site, a, w) >= cap then (a + 1, true) else (a, false)
  }

  function Opened(db: Database, site: Site, split: nat, creation: Creation): Database {
    if creation.NothingCreated? || OrdersTable(site, split) in db then db else db[OrdersTable(site, split) := []]
  }

  /** Ids read back from the first m rows. */
  function ReadBack(m: nat, start: nat, j: nat, scanned: nat -> nat): (n: nat)
    ensures n <= Max(0, m - start)
    decreases m - start
  {
    if start >= m then 0
    else
      var size := Min(CHUNK, m - start);
      Min(scanned(j), size) + ReadBack(m, start + CHUNK, j + 1, scanned)
  }

  /** Orders stored: the chunks up to the first error, with that one when it was stored. */
  function Stored(orders: seq<Order>, w: Weather): (m: nat)
    ensures m <= |orders|
  {
    BatchInsert.StoredRows(|orders|, CHUNK, 0, 0, w.chunk)
  }

  /** Orders whose chunks were answered without an error. */
  function Answered(orders: seq<Order>, w: Weather): (m: nat)
    ensures m <= Stored(orders, w)
  {
    BatchInsert.AnsweredRows(|orders|, CHUNK, 0, 0, w.chunk)
  }

  function Append(db: Database, site: Site, split: nat, orders: seq<Order>, w: Weather): Result {
    if OrdersTable(site, split) !in db then Result(db, 0, orders == [])
    else
      Result(db[OrdersTable(site, split) := Rows(db, site, split) + orders[..Stored(orders, w)]],
             ReadBack(Answered(orders, w), 0, 0, w.scanned), Answered(orders, w) == |orders|)
  }

  function InsertOrders(db: Database, site: Site, orders: seq<Order>, cap: nat, w: Weather): Result {
    var (split, opens) := Choose(db, site, cap, w);
    if !opens then Append(db, site, split, orders, w)
    else
      var next := Opened(db, site, split, w.creation);
      if w.creation.Created? then Append(next, site, split, orders, w) else Result(next, 0, false)
  }

  class Server {
    var db: Database

    constructor ()
      ensures db == map[]
    {
      db := map[];
    }

    method ActiveSplit(site: Site, catalogueFails: nat -> bool) returns (split: nat)
      ensures split == ActiveFrom(db, site, catalogueFails, 1)
    {
      split := 1;
      while true
        invariant ActiveFrom(db, site, catalogueFails, split) == ActiveFrom(db, site, catalogueFails, 1)
        decreases Beyond(db, site, split)
      {
        if catalogueFails(split + 1) || OrdersTable(site, split + 1) !in db {
          return;
        }
        BeyondShrinks(db, site, split);
        split := split + 1;
      }
    }

    /** On an error the number of ids read so far is returned; without one, all of them. */
    method AppendOrders(site: Site, split: nat, orders: seq<Order>, w: Weather) returns (n: nat, ok: bool)
      modifies this
      ensures Result(db, n, ok) == Append(old(db), site, split, orders, w)
    {
      hide OrdersTable, BatchInsert.StoredRows, BatchInsert.AnsweredRows, ReadBack;
      n := 0;
      var name := OrdersTable(site, split);
      if name !in db {
        return 0, orders == [];
      }
      var start, j: nat := 0, 0;
      ghost var before := db;
      ghost var answered := Answered(orders, w);
      assert before[name] + orders[..0] == before[name];
      while start < |orders|
        invariant 0 <= start <= |orders|
        invariant db == before[name := before[name] + orders[..start]]
        invariant Stored(orders, w) == start + BatchInsert.StoredRows(|orders|, CHUNK, start, j, w.chunk)
        invariant answered == start + BatchInsert.AnsweredRows(|orders|, CHUNK, start, j, w.chunk)
        invariant ReadBack(answered, 0, 0, w.scanned) == n + ReadBack(answered, start, j, w.scanned)
      {
        var end := Min(start + CHUNK, |orders|);
        BatchInsert.StoredStep(|orders|, CHUNK, start, j, w.chunk);
        ReadBackStep(answered, start, j, w.scanned);
        if w.chunk(j).Fails? {
          return n, false;
        }
        AppendChunk(before[name], orders, start, end);
        db := db[name := db[name] + orders[start..end]];
        if w.chunk(j).Half? {
          return n, false;
        }
        n := n + Min(w.scanned(j), end - start);
        ReadBackDone(answered, start, end, j, w.scanned);
        start, j := end, j + 1;
      }
      BatchInsert.StoredStep(|orders|, CHUNK, start, j, w.chunk);
      ReadBackStep(answered, start, j, w.scanned);
      return n, true;
    }

    method InsertLiveOrders(site: Site, orders: seq<Order>, cap: nat, w: Weather) returns (n: nat, ok: bool)
      modifies this
      ensures Result(db, n, ok) == InsertOrders(old(db), site, orders, cap, w)
    {
      hide Append, ActiveFrom, OrdersTable;
      var split := ActiveSplit(site, w.catalogueFails);
      var rowCount := if OrdersTable(site, split) in db && !w.countFails then |db[OrdersTable(site, split)]| else 0;
      if rowCount >= cap {
        split := split + 1;
        if !w.creation.NothingCreated? && OrdersTable(site, split) !in db {
          db := db[OrdersTable(site, split) := []];
        }
        if !w.creation.Created? {
          return 0, false;
        }
      }
      n, ok := AppendOrders(site, split, orders, w);
    }
  }

  lemma ReadBackStep(m: nat, start: nat, j: nat, scanned: nat -> nat)
    ensures ReadBack(m, start, j, scanned)
            == if start >= m then 0
               else Min(scanned(j), Min(CHUNK, m - start)) + ReadBack(m, start + CHUNK, j + 1, scanned)
  {}

  lemma ReadBackDone(m: nat, start: nat, end: nat, j: nat, scanned: nat -> nat)
    requires end == start + CHUNK || m <= end <= start + CHUNK
    ensures ReadBack(m, start + CHUNK, j + 1, scanned) == ReadBack(m, end, j + 1, scanned)
  {}

  lemma AppendChunk(rows: seq<Order>, orders: seq<Order>, start: nat, end: nat)
    requires start <= end <= |orders|
    ensures rows + orders[..start] + orders[start..end] == rows + orders[..end]
  {}

  // ---------- what one call keeps ----------

  /** The splits of a site are numbered 1 to k without gaps. */
  ghost predicate Contiguous(db: Database, site: Site, k: nat) {
    k >= 1 && forall n: nat :: OrdersTable(site, n) in db <==> 1 <= n <= k
  }

  /** The probe finds a split that exists, never beyond the highest. It finds the highest exactly
      when the catalogue answers for every split it has to pass. */
  lemma {:induction false} ActiveIsHighestIff(db: Database, site: Site, k: nat, fails: nat -> bool, split: nat)
    requires Contiguous(db, site, k) && 1 <= split <= k
    ensures split <= ActiveFrom(db, site, fails, split) <= k
    ensures ActiveFrom(db, site, fails, split) == k <==> forall s :: split < s <= k ==> !fails(s)
    decreases k - split
  {
    hide OrdersTable;
    if !fails(split + 1) && split + 1 <= k {
      ActiveIsHighestIff(db, site, k, fails, split + 1);
    }
  }

  /** f is the first split in 2..k the catalogue does not answer for, or k + 1 if there is none. */
  ghost predicate FirstUnanswered(fails: nat -> bool, k: nat, f: nat) {
    2 <= f <= k + 1 && (forall s :: 2 <= s < f ==> !fails(s)) && (f <= k ==> fails(f))
  }

  /** The probe stops just before that split. */
  lemma {:induction false} ActiveStops(db: Database, site: Site, k: nat, fails: nat -> bool, split: nat)
    requires Contiguous(db, site, k) && 1 <= split <= k && forall s :: 2 <= s <= split ==> !fails(s)
    ensures FirstUnanswered(fails, k, ActiveFrom(db, site, fails, split) + 1)
    decreases k - split
  {
    hide OrdersTable;
    if !fails(split + 1) && split + 1 <= k {
      ActiveStops(db, site, k, fails, split + 1);
    }
  }

  /** The table that receives rows, how many, and which table is opened for them. */
  lemma CallEffect(db: Database, site: Site, k: nat, orders: seq<Order>, cap: nat, w: Weather)
    requires Contiguous(db, site, k)
    ensures var after, split := InsertOrders(db, site, orders, cap, w).db, Choose(db, site, cap, w).0;
            && 1 <= split <= k + 1
            && Contiguous(after, site, if split == k + 1 && !w.creation.NothingCreated? then k + 1 else k)
            && (forall s: nat :: s != split ==> Rows(after, site, s) == Rows(db, site, s))
            && (Choose(db, site, cap, w).1 && !w.creation.Created? ==>
                  Rows(after, site, split) == Rows(db, site, split))
            && (!Choose(db, site, cap, w).1 || w.creation.Created? ==>
                  Rows(after, site, split) == Rows(db, site, split) + orders[..Stored(orders, w)])
  {
    OwnTables(site);
    hide ActiveFrom, OrdersTable, Stored;
    ActiveIsHighestIff(db, site, k, w.catalogueFails, 1);
  }

  /** A call only ever appends to splits or adds the next one, whatever fails. */
  lemma ContiguousKept(db: Database, site: Site, k: nat, orders: seq<Order>, cap: nat, w: Weather)
    requires Contiguous(db, site, k)
    ensures var after := InsertOrders(db, site, orders, cap, w).db;
            && (Contiguous(after, site, k) || Contiguous(after, site, k + 1))
            && forall s: nat :: Rows(db, site, s) <= Rows(after, site, s)
  {
    CallEffect(db, site, k, orders, cap, w);
    hide InsertOrders, Choose, Rows, Contiguous, Stored;
  }

  /** The catalogue and count queries of the call answer. */
  ghost predicate Answering(w: Weather) {
    !w.countFails && forall s: nat :: !w.catalogueFails(s)
  }

  /** Every closed split holds at least the cap. */
  ghost predicate ClosedFull(db: Database, site: Site, k: nat, cap: nat) {
    forall s: nat :: 1 <= s < k ==> cap <= |Rows(db, site, s)|
  }

  /** And no split holds more than the cap less one plus the largest batch. */
  ghost predicate Filled(db: Database, site: Site, k: nat, cap: nat, batch: nat) {
    && ClosedFull(db, site, k, cap)
    && (forall s: nat :: 1 <= s <= k ==> |Rows(db, site, s)| <= cap - 1 + batch)
  }

  lemma ChooseAnswering(db: Database, site: Site, k: nat, cap: nat, w: Weather)
    requires Contiguous(db, site, k) && Answering(w)
    ensures Choose(db, site, cap, w) == if |Rows(db, site, k)| >= cap then (k + 1, true) else (k, false)
  {
    hide ActiveFrom, Rows;
    ActiveIsHighestIff(db, site, k, w.catalogueFails, 1);
  }

  lemma NoRows(db: Database, site: Site, k: nat)
    requires Contiguous(db, site, k)
    ensures Rows(db, site, k + 1) == []
  {}

  /** When the queries answer: capacity is kept, and only the highest split or its fresh
      successor receives rows. */
  lemma CapacityKept(db: Database, site: Site, k: nat, orders: seq<Order>, cap: nat, batch: nat, w: Weather)
    requires cap >= 1 && Contiguous(db, site, k) && Filled(db, site, k, cap, batch)
    requires |orders| <= batch && Answering(w)
    ensures var after := InsertOrders(db, site, orders, cap, w).db;
            && (forall s: nat :: 1 <= s < k ==> Rows(after, site, s) == Rows(db, site, s))
            && exists k' :: k <= k' <= k + 1 && Contiguous(after, site, k') && Filled(after, site, k', cap, batch)
                       && (k' > k ==> Rows(after, site, k) == Rows(db, site, k))
  {
    ChooseAnswering(db, site, k, cap, w);
    CallEffect(db, site, k, orders, cap, w);
    NoRows(db, site, k);
    hide Choose, Answering, InsertOrders, Contiguous, Rows, Stored;
    var after := InsertOrders(db, site, orders, cap, w).db;
    var split := Choose(db, site, cap, w).0;
    var k' := if split == k + 1 && !w.creation.NothingCreated? then k + 1 else k;
    assert Contiguous(after, site, k') && Filled(after, site, k', cap, batch);
  }

  // ---------- when capacity is lost ----------

  lemma StoredSome(orders: seq<Order>, w: Weather)
    ensures Stored(orders, w) >= 1 <==> orders != [] && !w.chunk(0).Fails?
  {}

  /** What decides about a call: the first unanswered split. */
  lemma ChooseFirst(db: Database, site: Site, k: nat, cap: nat, w: Weather) returns (f: nat)
    requires cap >= 1 && Contiguous(db, site, k) && ClosedFull(db, site, k, cap)
    ensures FirstUnanswered(w.catalogueFails, k, f)
    ensures Choose(db, site, cap, w)
            == if !w.countFails && (f <= k || |Rows(db, site, k)| >= cap) then (f, true) else (f - 1, false)
  {
    hide Rows;
    ActiveStops(db, site, k, w.catalogueFails, 1);
    hide ActiveFrom, Contiguous;
    f := ActiveFrom(db, site, w.catalogueFails, 1) + 1;
  }

  /** Something about the call sends rows to a split that has a successor: its first chunk is
      stored, and the catalogue fails for some split: any but the first when the count fails
      too, and otherwise any but the first and the last, with the needless creation succeeding. */
  ghost predicate Disturbs(k: nat, orders: seq<Order>, w: Weather) {
    && orders != [] && !w.chunk(0).Fails?
    && if w.countFails then exists s: nat :: 2 <= s <= k && w.catalogueFails(s)
       else w.creation.Created? && exists s: nat :: 2 <= s < k && w.catalogueFails(s)
  }

  /** A call adds rows to a split that has a successor if and only if that is so. */
  lemma ClosedSplitGainsIff(db: Database, site: Site, k: nat, orders: seq<Order>, cap: nat, w: Weather)
    requires cap >= 1 && Contiguous(db, site, k) && ClosedFull(db, site, k, cap)
    ensures var after := InsertOrders(db, site, orders, cap, w).db;
            (exists s: nat :: 1 <= s < k && |Rows(after, site, s)| > |Rows(db, site, s)|) <==> Disturbs(k, orders, w)
  {
    var f := ChooseFirst(db, site, k, cap, w);
    CallEffect(db, site, k, orders, cap, w);
    StoredSome(orders, w);
    hide Choose, InsertOrders, Contiguous, Rows, Stored, ClosedFull;
    var after := InsertOrders(db, site, orders, cap, w).db;
    var split := Choose(db, site, cap, w).0;
    if 1 <= split < k && Stored(orders, w) >= 1 && (w.countFails || w.creation.Created?) {
      assert |Rows(after, site, split)| > |Rows(db, site, split)|;
    }
  }

  /** Closed splits stay full, whatever fails: a split is only closed when it was counted full. */
  lemma ClosedFullKept(db: Database, site: Site, k: nat, orders: seq<Order>, cap: nat, w: Weather) returns (k': nat)
    requires cap >= 1 && Contiguous(db, site, k) && ClosedFull(db, site, k, cap)
    ensures var after := InsertOrders(db, site, orders, cap, w).db;
            k <= k' <= k + 1 && Contiguous(after, site, k') && ClosedFull(after, site, k', cap)
  {
    var f := ChooseFirst(db, site, k, cap, w);
    CallEffect(db, site, k, orders, cap, w);
    ContiguousKept(db, site, k, orders, cap, w);
    hide Choose, InsertOrders, Contiguous, Rows, Stored;
    var after, split := InsertOrders(db, site, orders, cap, w).db, Choose(db, site, cap, w).0;
    k' := if split == k + 1 && !w.creation.NothingCreated? then k + 1 else k;
    forall s: nat | 1 <= s < k' ensures cap <= |Rows(after, site, s)| {
      assert Rows(db, site, s) <= Rows(after, site, s);
    }
  }

  /** The bound of cap - 1 + batch rows is broken if and only if the split before the first
      unanswered one, when the count fails, or else that split itself, has no room left. */
  lemma OverfillsIff(db: Database, site: Site, k: nat, orders: seq<Order>, cap: nat, batch: nat, w: Weather)
    requires cap >= 1 && Contiguous(db, site, k) && Filled(db, site, k, cap, batch) && |orders| <= batch
    ensures var after, m := InsertOrders(db, site, orders, cap, w).db, Stored(orders, w);
            (exists s: nat :: |Rows(after, site, s)| > cap - 1 + batch) <==>
            exists f: nat ::
              && FirstUnanswered(w.catalogueFails, k, f)
              && if w.countFails then |Rows(db, site, f - 1)| + m > cap - 1 + batch
                 else f <= k && w.creation.Created? && |Rows(db, site, f)| + m > cap - 1 + batch
  {
    var f := ChooseFirst(db, site, k, cap, w);
    CallEffect(db, site, k, orders, cap, w);
    NoRowsOutside(db, site, k);
    hide Choose, InsertOrders, Contiguous, Rows, Stored;
    var after, split := InsertOrders(db, site, orders, cap, w).db, Choose(db, site, cap, w).0;
    forall g: nat | FirstUnanswered(w.catalogueFails, k, g) ensures g == f {}
    forall s: nat ensures |Rows(db, site, s)| <= cap - 1 + batch {
      if !(1 <= s <= k) {
        assert Rows(db, site, s) == [];
      }
    }
    assert |Rows(after, site, split)| <= cap - 1 + batch ==> forall s: nat :: |Rows(after, site, s)| <= cap - 1 + batch;
  }

  lemma NoRowsOutside(db: Database, site: Site, k: nat)
    requires Contiguous(db, site, k)
    ensures forall s: nat :: !(1 <= s <= k) ==> Rows(db, site, s) == []
  {}

  /** The damage at the smallest input: one full split whose count fails. */
  lemma UncountedSplitOverfills(site: Site, order: Order, w: Weather)
    requires w.countFails && !w.chunk(0).Fails?
    ensures var db := map[OrdersTable(site, 1) := [order]];
            && Contiguous(db, site, 1) && Filled(db, site, 1, 1, 1)
            && |Rows(InsertOrders(db, site, [order], 1, w).db, site, 1)| == 2
  {
    OwnTables(site);
    hide OrdersTable;
    var db := map[OrdersTable(site, 1) := [order]];
    assert Contiguous(db, site, 1);
    assert Choose(db, site, 1, w) == (1, false);
    assert Stored([order], w) == 1;
  }

  // ---------- counting ----------

  function RowsUpTo(db: Database, site: Site, top: nat): nat {
    if top == 0 then 0 else RowsUpTo(db, site, top - 1) + |Rows(db, site, top)|
  }

  lemma {:induction false} RowsUpdate(a: Database, b: Database, site: Site, split: nat, added: nat, top: nat)
    requires forall s: nat :: s != split ==> |Rows(b, site, s)| == |Rows(a, site, s)|
    requires |Rows(b, site, split)| == |Rows(a, site, split)| + added && 1 <= split
    ensures RowsUpTo(b, site, top) == RowsUpTo(a, site, top) + if split <= top then added else 0
  {
    if top > 0 {
      hide Rows;
      RowsUpdate(a, b, site, split, added, top - 1);
    }
  }

  /** Every id the database returns is read. */
  ghost predicate ReadsAll(w: Weather) {
    forall i: nat :: w.scanned(i) >= CHUNK
  }

  lemma {:induction false} ReadBackAll(m: nat, start: nat, j: nat, w: Weather)
    requires ReadsAll(w)
    ensures ReadBack(m, start, j, w.scanned) == Max(0, m - start)
    decreases m - start
  {
    if start < m {
      ReadBackAll(m, start + CHUNK, j + 1, w);
    }
  }

  /** Rows a call adds to the site, counted over the splits up to a number none exceeds. */
  function Added(before: Database, after: Database, site: Site, top: nat): int {
    RowsUpTo(after, site, top) - RowsUpTo(before, site, top)
  }

  /** A call never reports more than it added; it reports exactly what it added when all
      returned ids are read, and a call without an error added all its orders. */
  lemma ReportedIsAdded(db: Database, site: Site, k: nat, orders: seq<Order>, cap: nat, w: Weather, top: nat)
    requires Contiguous(db, site, k) && k < top
    ensures var r := InsertOrders(db, site, orders, cap, w);
            && r.n <= Added(db, r.db, site, top) <= |orders|
            && (r.ok ==> Added(db, r.db, site, top) == |orders|)
            && (r.ok && ReadsAll(w) ==> r.n == |orders|)
  {
    CallEffect(db, site, k, orders, cap, w);
    var r, m := InsertOrders(db, site, orders, cap, w), Stored(orders, w);
    CallAnswer(db, site, k, orders, cap, w);
    hide InsertOrders, Contiguous, Rows, RowsUpTo, ReadBack, Stored, Answered, OrdersTable;
    var (split, opens) := Choose(db, site, cap, w);
    hide Choose;
    if ReadsAll(w) {
      ReadBackAll(Answered(orders, w), 0, 0, w);
    }
    RowsUpdate(db, r.db, site, split, if opens && !w.creation.Created? then 0 else m, top);
  }

  /** What a call answers. */
  lemma CallAnswer(db: Database, site: Site, k: nat, orders: seq<Order>, cap: nat, w: Weather)
    requires Contiguous(db, site, k)
    ensures var r := InsertOrders(db, site, orders, cap, w);
            if Choose(db, site, cap, w).1 && !w.creation.Created? then r.n == 0 && !r.ok
            else
              && r.n == ReadBack(Answered(orders, w), 0, 0, w.scanned)
              && (r.ok <==> Answered(orders, w) == |orders|)
  {
    hide ActiveFrom, OrdersTable, Stored, Answered, ReadBack;
    ActiveIsHighestIff(db, site, k, w.catalogueFails, 1);
  }

  lemma {:induction false} AnsweredAllIff(total: nat, start: nat, j: nat, answers: nat -> Answer)
    requires start == Min(CHUNK * j, total)
    ensures BatchInsert.AnsweredRows(total, CHUNK, start, j, answers) == total - start
            <==> forall i: nat :: i >= j && CHUNK * i < total ==> answers(i).Works?
    decreases total - start
  {
    if start < total && answers(j).Works? {
      AnsweredAllIff(total, Min(start + CHUNK, total), j + 1, answers);
    }
  }

  /** A call returns no error if and only if the split it needs is created, and every chunk of
      500 works that its orders need. */
  lemma CallSucceedsIff(db: Database, site: Site, k: nat, orders: seq<Order>, cap: nat, w: Weather)
    requires Contiguous(db, site, k)
    ensures InsertOrders(db, site, orders, cap, w).ok <==>
            && (Choose(db, site, cap, w).1 ==> w.creation.Created?)
            && forall j: nat :: 500 * j < |orders| ==> w.chunk(j).Works?
  {
    CallAnswer(db, site, k, orders, cap, w);
    AnsweredAllIff(|orders|, 0, 0, w.chunk);
  }

  // ---------- runs of calls for one site ----------

  datatype Call = Call(orders: seq<Order>, weather: Weather)

  /** The database after any number of calls for a site. */
  function AfterCalls(db: Database, site: Site, cap: nat, calls: seq<Call>): Database {
    if calls == [] then db
    else
      var call := calls[|calls| - 1];
      InsertOrders(AfterCalls(db, site, cap, calls[..|calls| - 1]), site, call.orders, cap, call.weather).db
  }

  /** Over any run of ticks, whatever fails, splits stay contiguous and rows are only appended. */
  lemma {:induction false} RunContiguous(db: Database, site: Site, k: nat, cap: nat, calls: seq<Call>) returns (k': nat)
    requires Contiguous(db, site, k)
    ensures Contiguous(AfterCalls(db, site, cap, calls), site, k') && k <= k' <= k + |calls|
    ensures forall s: nat :: Rows(db, site, s) <= Rows(AfterCalls(db, site, cap, calls), site, s)
  {
    k' := k;
    if calls != [] {
      hide InsertOrders, Rows, Contiguous;
      var call, front := calls[|calls| - 1], AfterCalls(db, site, cap, calls[..|calls| - 1]);
      k' := RunContiguous(db, site, k, cap, calls[..|calls| - 1]);
      ContiguousKept(front, site, k', call.orders, cap, call.weather);
      var after := InsertOrders(front, site, call.orders, cap, call.weather).db;
      if !Contiguous(after, site, k') {
        k' := k' + 1;
      }
      forall s: nat ensures Rows(db, site, s) <= Rows(after, site, s) {
        assert Rows(db, site, s) <= Rows(front, site, s) <= Rows(after, site, s);
      }
    }
  }

  ghost predicate Fair(calls: seq<Call>, batch: nat) {
    forall i :: 0 <= i < |calls| ==> |calls[i].orders| <= batch && Answering(calls[i].weather)
  }

  /** Over any run of ticks whose queries answer: splits stay contiguous and within capacity,
      and a split with a successor never changes again. */
  lemma {:induction false} RunCapacity(db: Database, site: Site, k: nat, cap: nat, batch: nat, calls: seq<Call>)
    returns (k': nat)
    requires cap >= 1 && Contiguous(db, site, k) && Filled(db, site, k, cap, batch) && Fair(calls, batch)
    ensures k <= k' && Contiguous(AfterCalls(db, site, cap, calls), site, k')
    ensures Filled(AfterCalls(db, site, cap, calls), site, k', cap, batch)
    ensures forall s: nat :: 1 <= s < k ==> Rows(AfterCalls(db, site, cap, calls), site, s) == Rows(db, site, s)
  {
    k' := k;
    if calls != [] {
      hide InsertOrders, Answering, Filled, Rows, Contiguous;
      var call, front := calls[|calls| - 1], AfterCalls(db, site, cap, calls[..|calls| - 1]);
      k' := RunCapacity(db, site, k, cap, batch, calls[..|calls| - 1]);
      CapacityKept(front, site, k', call.orders, cap, batch, call.weather);
      var after := InsertOrders(front, site, call.orders, cap, call.weather).db;
      var next :| k' <= next <= k' + 1 && Contiguous(after, site, next) && Filled(after, site, next, cap, batch);
      k' := next;
    }
  }

  /** The number of splits of a site that has them without gaps. */
  function SplitCount(db: Database, site: Site): nat {
    ActiveFrom(db, site, _ => false, 1)
  }

  lemma SplitCountIs(db: Database, site: Site, k: nat)
    requires Contiguous(db, site, k)
    ensures SplitCount(db, site) == k
  {
    ActiveIsHighestIff(db, site, k, _ => false, 1);
  }

  /** No call of the run was disturbing when it came. */
  ghost predicate Undisturbed(db: Database, site: Site, cap: nat, calls: seq<Call>) {
    calls != [] ==>
      var front, call := calls[..|calls| - 1], calls[|calls| - 1];
      && Undisturbed(db, site, cap, front)
      && !Disturbs(SplitCount(AfterCalls(db, site, cap, front), site), call.orders, call.weather)
  }

  /** Every split that had a successor at some moment of the run has the rows it had then. */
  ghost predicate ClosedIsFinal(db: Database, site: Site, cap: nat, calls: seq<Call>) {
    forall n: nat :: n <= |calls| ==>
      SameClosed(AfterCalls(db, site, cap, calls[..n]), AfterCalls(db, site, cap, calls), site)
  }

  ghost predicate SameClosed(a: Database, b: Database, site: Site) {
    forall s: nat :: 1 <= s < SplitCount(a, site) ==> Rows(b, site, s) == Rows(a, site, s)
  }

  /** What holds of the database between any two calls, whatever failed. */
  lemma {:induction false} RunFull(db: Database, site: Site, k: nat, cap: nat, calls: seq<Call>) returns (k': nat)
    requires cap >= 1 && Contiguous(db, site, k) && ClosedFull(db, site, k, cap)
    ensures k <= k' && Contiguous(AfterCalls(db, site, cap, calls), site, k')
    ensures ClosedFull(AfterCalls(db, site, cap, calls), site, k', cap)
  {
    k' := k;
    if calls != [] {
      hide InsertOrders, ClosedFull, Contiguous;
      var call, front := calls[|calls| - 1], calls[..|calls| - 1];
      k' := RunFull(db, site, k, cap, front);
      k' := ClosedFullKept(AfterCalls(db, site, cap, front), site, k', call.orders, cap, call.weather);
    }
  }

  /** One call leaves closed splits alone if and only if it is not disturbing. */
  lemma CallSparesClosedIff(db: Database, site: Site, k: nat, orders: seq<Order>, cap: nat, w: Weather)
    requires cap >= 1 && Contiguous(db, site, k) && ClosedFull(db, site, k, cap)
    ensures SameClosed(db, InsertOrders(db, site, orders, cap, w).db, site)
            <==> !Disturbs(SplitCount(db, site), orders, w)
  {
    SplitCountIs(db, site, k);
    ClosedSplitGainsIff(db, site, k, orders, cap, w);
    ContiguousKept(db, site, k, orders, cap, w);
    hide InsertOrders, Rows, Disturbs, Contiguous, SplitCount;
    var after := InsertOrders(db, site, orders, cap, w).db;
    forall s: nat | 1 <= s < k && |Rows(after, site, s)| <= |Rows(db, site, s)|
      ensures Rows(after, site, s) == Rows(db, site, s)
    {
      assert Rows(db, site, s) <= Rows(after, site, s);
    }
  }

  /** Over any run of calls, whatever fails: a split with a successor never changes again if and
      only if no call of the run was disturbing. */
  lemma {:induction false} ClosedIsFinalIff(db: Database, site: Site, k: nat, cap: nat, calls: seq<Call>)
    requires cap >= 1 && Contiguous(db, site, k) && ClosedFull(db, site, k, cap)
    ensures ClosedIsFinal(db, site, cap, calls) <==> Undisturbed(db, site, cap, calls)
  {
    if calls == [] {
      forall n: nat | n <= |calls| ensures calls[..n] == calls {}
    } else {
      var front, call := calls[..|calls| - 1], calls[|calls| - 1];
      ClosedIsFinalIff(db, site, k, cap, front);
      var k' := RunFull(db, site, k, cap, front);
      CallSparesClosedIff(AfterCalls(db, site, cap, front), site, k', call.orders, cap, call.weather);
      FinalStep(db, site, k, cap, calls);
    }
  }

  lemma FinalStep(db: Database, site: Site, k: nat, cap: nat, calls: seq<Call>)
    requires calls != [] && Contiguous(db, site, k)
    ensures var front := calls[..|calls| - 1];
            ClosedIsFinal(db, site, cap, calls) <==>
            && ClosedIsFinal(db, site, cap, front)
            && SameClosed(AfterCalls(db, site, cap, front), AfterCalls(db, site, cap, calls), site)
  {
    hide SameClosed, AfterCalls, Contiguous;
    var front := calls[..|calls| - 1];
    var before, after := AfterCalls(db, site, cap, front), AfterCalls(db, site, cap, calls);
    assert calls[..|calls|] == calls && calls[..|front|] == front;
    SameClosedSelf(after, site);
    if ClosedIsFinal(db, site, cap, calls) {
      assert SameClosed(AfterCalls(db, site, cap, calls[..|front|]), after, site);
      forall n: nat | n <= |front| ensures SameClosed(AfterCalls(db, site, cap, front[..n]), before, site) {
        assert SameClosed(AfterCalls(db, site, cap, calls[..n]), after, site);
        AtMoment(db, site, k, cap, calls, n);
      }
    }
    if ClosedIsFinal(db, site, cap, front) && SameClosed(before, after, site) {
      forall n: nat | n <= |calls| ensures SameClosed(AfterCalls(db, site, cap, calls[..n]), after, site) {
        if n <= |front| {
          assert SameClosed(AfterCalls(db, site, cap, front[..n]), before, site);
          AtMoment(db, site, k, cap, calls, n);
        }
      }
    }
  }

  lemma AtMoment(db: Database, site: Site, k: nat, cap: nat, calls: seq<Call>, n: nat)
    requires Contiguous(db, site, k) && n < |calls|
    ensures var front := calls[..|calls| - 1];
            var was, before, after := AfterCalls(db, site, cap, calls[..n]), AfterCalls(db, site, cap, front),
                                       AfterCalls(db, site, cap, calls);
            && front[..n] == calls[..n]
            && (SameClosed(was, after, site) && SameClosed(before, after, site) ==> SameClosed(was, before, site))
            && (SameClosed(was, before, site) && SameClosed(before, after, site) ==> SameClosed(was, after, site))
  {
    hide SameClosed, AfterCalls, Contiguous, Reaches;
    var front := calls[..|calls| - 1];
    assert front[..n] == calls[..n] && calls[..|front|] == front;
    Later(db, site, k, cap, front, n);
    Later(db, site, k, cap, calls, |front|);
    SameClosedChain(AfterCalls(db, site, cap, calls[..n]), AfterCalls(db, site, cap, front),
                    AfterCalls(db, site, cap, calls), site);
  }

  /** The second database is a later one: rows and splits were only added. */
  ghost predicate Reaches(a: Database, b: Database, site: Site) {
    && (forall s: nat :: Rows(a, site, s) <= Rows(b, site, s))
    && SplitCount(a, site) <= SplitCount(b, site)
  }

  lemma SameClosedSelf(a: Database, site: Site)
    ensures SameClosed(a, a, site)
  {}

  lemma SameClosedChain(a: Database, b: Database, c: Database, site: Site)
    requires Reaches(a, b, site) && Reaches(b, c, site)
    ensures SameClosed(a, c, site) && SameClosed(b, c, site) ==> SameClosed(a, b, site)
    ensures SameClosed(a, b, site) && SameClosed(b, c, site) ==> SameClosed(a, c, site)
  {
    hide Rows, SplitCount;
    if SameClosed(a, c, site) {
      forall s: nat | 1 <= s < SplitCount(a, site) ensures Rows(b, site, s) == Rows(a, site, s) {
        assert Rows(a, site, s) <= Rows(b, site, s) <= Rows(c, site, s) == Rows(a, site, s);
      }
    }
  }

  lemma {:induction false} Later(db: Database, site: Site, k: nat, cap: nat, calls: seq<Call>, n: nat)
    requires Contiguous(db, site, k) && n <= |calls|
    ensures Reaches(AfterCalls(db, site, cap, calls[..n]), AfterCalls(db, site, cap, calls), site)
  {
    if n == |calls| {
      assert calls[..n] == calls;
    } else {
      var front, call := calls[..|calls| - 1], calls[|calls| - 1];
      assert front[..n] == calls[..n];
      Later(db, site, k, cap, front, n);
      var k' := RunContiguous(db, site, k, cap, front);
      CallReaches(AfterCalls(db, site, cap, front), site, k', call.orders, cap, call.weather);
      hide Rows, SplitCount, InsertOrders;
      var a, b, c := AfterCalls(db, site, cap, calls[..n]), AfterCalls(db, site, cap, front),
                     AfterCalls(db, site, cap, calls);
      forall s: nat ensures Rows(a, site, s) <= Rows(c, site, s) {
        assert Rows(a, site, s) <= Rows(b, site, s) <= Rows(c, site, s);
      }
    }
  }

  lemma CallReaches(db: Database, site: Site, k: nat, orders: seq<Order>, cap: nat, w: Weather)
    requires Contiguous(db, site, k)
    ensures Reaches(db, InsertOrders(db, site, orders, cap, w).db, site)
  {
    hide InsertOrders, Rows, Contiguous, SplitCount;
    ContiguousKept(db, site, k, orders, cap, w);
    var after := InsertOrders(db, site, orders, cap, w).db;
    SplitCountIs(db, site, k);
    SplitCountIs(after, site, if Contiguous(after, site, k) then k else k + 1);
  }
}
