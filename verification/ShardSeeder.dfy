/** The shard seeder: inspects the existing splits of a shard, inserts the missing customers in
    batches, opens new splits at the row cap and then fills the child tables. */
module ShardSeeder {
  import opened Wrappers
  import opened SplitLayout
  import opened SplitResume
  import opened SplitHistory
  import opened ShardTables

  datatype ShardState = ShardState(totalRows: nat, currentSplit: nat, currentSplitRows: nat)

  /** Answer to an INSERT: refused, done, or done but with the generated id lost. */
  datatype InsertReply = Refused | IdLost | Inserted(firstId: int)

  /** The statements among the first n that did not simply work. */
  function Faults(answers: nat -> Answer, n: nat): nat {
    if n == 0 then 0 else Faults(answers, n - 1) + if answers(n - 1).Works? then 0 else 1
  }

  /** The four child tables of splits 1..n exist. */
  ghost predicate ChildTables(ch: Children, n: nat) {
    forall kind: Kind, s: nat :: 1 <= s <= n ==> (kind, s) in ch
  }

  /** Tables are never dropped. */
  ghost predicate Keeps(ch: Children, ch': Children) {
    forall key :: key in ch ==> key in ch'
  }

  /** The tables of one shard. `answers` holds what happens to the statements, in the order they
      are asked: each is done, refused, or done and answered by an error. */
  class Database {
    const answers: nat -> Answer
    var customers: Customers
    var children: Children
    var nextId: map<nat, int>
    var asked: nat
    ghost var faults: nat

    ghost predicate Valid()
      reads this
    {
      TablesValid(customers, nextId) && Linked(customers, children) && faults == Faults(answers, asked)
    }

    /** An empty first split, as the schema program leaves it. */
    constructor (answers: nat -> Answer)
      ensures Valid() && this.answers == answers && asked == 0 && faults == 0
      ensures customers == map[1 := []] && ChildTables(children, 1)
    {
      this.answers := answers;
      customers, nextId := map[1 := []], map[1 := 1];
      children := map kind: Kind | true :: (kind, 1) := [];
      asked, faults := 0, 0;
    }

    method Ask() returns (answer: Answer)
      modifies this`asked, this`faults
      ensures answer == answers(old(asked)) && asked == old(asked) + 1
      ensures faults == old(faults) + if answer.Works? then 0 else 1
      ensures old(Valid()) ==> Valid()
    {
      answer := answers(asked);
      asked := asked + 1;
      faults := faults + if answer.Works? then 0 else 1;
    }

    lemma RememberedRefers(m0: Customers, rs: seq<Record>)
      requires Valid() && Remembered(m0, customers, rs)
      ensures forall s: nat, r :: r in ChildRows(Select(rs, s)) ==> Refers(customers, s, r)
    {
      hide Remembered;
      hide Linked;
      hide TablesValid;
      hide Refers;
      forall s: nat, r | r in ChildRows(Select(rs, s)) ensures Refers(customers, s, r) {
        RememberedRefer(m0, customers, nextId, rs, s);
      }
    }

    method InsertCustomers(split: nat, rows: seq<RowData>, tableSplit: nat)
      returns (reply: InsertReply, ghost added: seq<Customer>)
      requires Valid() && |rows| > 0 && tableSplit == split
      modifies this`customers, this`nextId, this`asked, this`faults
      ensures Valid()
      ensures reply.Inserted? <==> faults == old(faults) && split in old(customers)
      ensures faults >= old(faults)
      ensures reply.Refused? ==> added == [] && customers == old(customers)
      ensures !reply.Refused? ==>
                && split in old(customers) && customers == Appended(old(customers), split, added)
                && exists firstId :: added == Stored(rows, firstId, split)
      ensures reply.Inserted? ==> added == Stored(rows, reply.firstId, split)
    {
      var answer := Ask();
      if answer.Fails? || split !in customers {
        return Refused, [];
      }
      var skipped: int := *;
      var firstId := nextId[split] + Max(0, skipped);
      added := Stored(rows, firstId, tableSplit);
      InsertKeepsTables(customers, nextId, children, split, rows, firstId);
      customers := customers[split := customers[split] + Stored(rows, firstId, tableSplit)];
      nextId := nextId[split := firstId + |rows|];
      reply := if answer.Half? then IdLost else Inserted(firstId);
    }

    /** CREATE TABLE IF NOT EXISTS for the customers table and then the four child tables. */
    method CreateSplitTables(split: nat) returns (ok: bool)
      requires Valid()
      modifies this
      ensures Valid()
      ensures customers == old(customers) || (split !in old(customers) && customers == old(customers)[split := []])
      ensures ok ==> split in customers
      ensures SameChildren(old(children), children) && Keeps(old(children), children)
      ensures ok ==> forall kind: Kind :: (kind, split) in children
      ensures (ok <==> faults == old(faults)) && faults >= old(faults)
    {
      var answer := Ask();
      if answer.Fails? {
        return false;
      }
      if split !in customers {
        CreateKeepsTables(customers, nextId, children, split);
        customers := customers[split := []];
        nextId := nextId[split := 1];
      }
      if answer.Half? {
        return false;
      }
      ok := CreateChildTables(split);
    }

    method CreateChildTables(split: nat) returns (ok: bool)
      requires Valid()
      modifies this`children, this`asked, this`faults
      ensures Valid()
      ensures SameChildren(old(children), children) && Keeps(old(children), children)
      ensures ok ==> forall kind: Kind :: (kind, split) in children
      ensures (ok <==> faults == old(faults)) && faults >= old(faults)
    {
      var kinds := [Subscriptions, BillingAccounts, SimInventory, PortHistory];
      for i := 0 to |kinds|
        invariant Valid() && faults == old(faults)
        invariant SameChildren(old(children), children) && Keeps(old(children), children)
        invariant forall j :: 0 <= j < i ==> (kinds[j], split) in children
      {
        var answer := Ask();
        if answer.Fails? {
          return false;
        }
        if (kinds[i], split) !in children {
          children := children[(kinds[i], split) := []];
        }
        if answer.Half? {
          return false;
        }
      }
      forall kind: Kind ensures (kind, split) in children {
        assert kind == kinds[0] || kind == kinds[1] || kind == kinds[2] || kind == kinds[3];
      }
      ok := true;
    }

    /** Multi-row insert into a child table, one statement per chunk. */
    method BatchInsert(kind: Kind, split: nat, rows: seq<ChildRow>, batchSize: nat)
      returns (ok: bool, ghost done: nat)
      requires Valid() && batchSize >= 1
      requires forall i :: 0 <= i < |rows| ==> Refers(customers, split, rows[i])
      modifies this`children, this`asked, this`faults
      ensures Valid() && Keeps(old(children), children)
      ensures ok <==> faults == old(faults) && ((kind, split) in old(children) || rows == [])
      ensures faults >= old(faults)
      ensures done <= |rows| && (ok ==> done == |rows|)
      ensures children == Extended(old(children), (kind, split), rows[..done])
    {
      done := 0;
      assert rows[..0] == [];
      var start := 0;
      while start < |rows|
        invariant start >= 0 && done == Min(start, |rows|) && Valid() && faults == old(faults)
        invariant start > 0 ==> (kind, split) in old(children)
        invariant children == Extended(old(children), (kind, split), rows[..done])
        decreases |rows| - start
      {
        var end := start + batchSize;
        if end > |rows| {
          end := |rows|;
        }
        var answer := Ask();
        if answer.Fails? || (kind, split) !in children {
          return false, done;
        }
        LinkedExtended(customers, children, (kind, split), rows[start..end]);
        ExtendedTwice(old(children), (kind, split), rows[..start], rows[start..end]);
        children := children[(kind, split) := children[(kind, split)] + rows[start..end]];
        assert rows[..end] == rows[..start] + rows[start..end];
        done := end;
        if answer.Half? {
          return false, done;
        }
        start := start + batchSize;
      }
      ok := true;
    }

    /** Walks the splits until a count query fails; a failure is read as a missing table.
        `unreadable` holds the existing splits whose count query fails in this run. */
    method InspectExistingSplits(unreadable: set<nat>, ghost n: nat) returns (st: ShardState)
      requires Splits(customers, n)
      ensures st == Inspected(RowCounts(customers, n), unreadable)
    {
      st := ShardState(0, 1, 0);
      var split := 1;
      ghost var counts := RowCounts(customers, n);
      while true
        invariant 1 <= split <= n + 1
        invariant split - 1 <= Readable(counts, unreadable)
        invariant st == ShardState(Total(counts[..split - 1]), if split == 1 then 1 else split - 1,
                                   if split == 1 then 0 else counts[split - 2])
        decreases n + 1 - split
      {
        if split !in customers || split in unreadable {
          ReadableStops(counts, unreadable, split - 1);
          st := st.(currentSplit := split - 1);
          if st.currentSplit < 1 {
            st := st.(currentSplit := 1, currentSplitRows := 0);
          }
          return;
        }
        var count := |customers[split]|;
        assert counts[..split][..split - 1] == counts[..split - 1];
        ReadableGrows(counts, unreadable, split - 1);
        st := ShardState(st.totalRows + count, split, count);
        split := split + 1;
      }
    }
  }

  /** Number of splits counted before the walk stops. */
  ghost function Readable(counts: seq<nat>, unreadable: set<nat>): (k: nat)
    ensures k <= |counts|
    ensures forall j :: 1 <= j <= k ==> j !in unreadable
    ensures k < |counts| ==> k + 1 in unreadable
  {
    if counts == [] then 0
    else
      var k := Readable(counts[..|counts| - 1], unreadable);
      if k < |counts| - 1 || |counts| in unreadable then k else |counts|
  }

  lemma ReadableStops(counts: seq<nat>, unreadable: set<nat>, k: nat)
    requires k <= Readable(counts, unreadable)
    requires k < |counts| ==> k + 1 in unreadable
    ensures k == Readable(counts, unreadable)
  {}

  lemma ReadableGrows(counts: seq<nat>, unreadable: set<nat>, k: nat)
    requires k <= Readable(counts, unreadable) && k < |counts| && k + 1 !in unreadable
    ensures k + 1 <= Readable(counts, unreadable)
  {}

  ghost function Inspected(counts: seq<nat>, unreadable: set<nat>): ShardState {
    var k := Readable(counts, unreadable);
    ShardState(Total(counts[..k]), Max(1, k), if k == 0 then 0 else counts[k - 1])
  }

  /** Every existing split can be counted; a single empty split need not be. */
  ghost predicate Countable(counts: seq<nat>, unreadable: set<nat>) {
    counts != [] && ((forall s :: 1 <= s <= |counts| ==> s !in unreadable) || counts == [0])
  }

  /** The walk reports the true state exactly when no count query on an existing split fails,
      the one exception being a failed count of a single empty split. */
  lemma InspectFaithfulIff(counts: Layout, unreadable: set<nat>)
    ensures Inspected(counts, unreadable) == ShardState(Total(counts), |counts|, Last(counts))
            <==> Countable(counts, unreadable)
  {
    assert counts[..|counts|] == counts;
    assert counts[..0] == [] && Total([]) == 0;
    TotalOne(counts[0]);
    hide Total;
    if |counts| == 1 {
      assert counts == [counts[0]];
    }
  }

  /** One run of the seeder on one shard, with the variables its flush closure shares. */
  class ShardRun {
    const db: Database
    const params: Params
    /** The draws for the port history: which of the new customers it gets a row for. */
    const ported: Record -> bool
    var pending: seq<RowData>
    var splitNum: nat
    var splitRowCount: nat
    var allCustomers: seq<Record>

    constructor (db: Database, params: Params, ported: Record -> bool)
      ensures this.db == db && this.params == params && this.ported == ported
      ensures pending == [] && allCustomers == []
    {
      this.db := db;
      this.params := params;
      this.ported := ported;
      pending := [];
      splitNum := 1;
      splitRowCount := 0;
      allCustomers := [];
    }

    /** Writes the buffered rows into the current split as one statement. */
    method FlushCustomers() returns (ok: bool, ghost added: seq<Customer>)
      requires db.Valid()
      modifies this`pending, this`splitRowCount, this`allCustomers, db`customers, db`nextId, db`asked, db`faults
      ensures db.Valid()
      ensures ok <==> db.faults == old(db.faults) && (old(pending) == [] || splitNum in old(db.customers))
      ensures db.faults >= old(db.faults)
      ensures added == [] ==> db.customers == old(db.customers)
      ensures added != [] ==>
                && splitNum in old(db.customers) && RowsOf(added) == old(pending)
                && db.customers == Appended(old(db.customers), splitNum, added)
                && forall i :: 0 <= i < |added| ==> added[i].tableSplit == splitNum
      ensures old(pending) == [] ==> ok && pending == []
      ensures ok ==>
                && RowsOf(added) == old(pending) && pending == []
                && splitRowCount == old(splitRowCount) + |added|
                && allCustomers == old(allCustomers) + Records(added)
    {
      hide Database.Valid;
      if |pending| == 0 {
        return true, [];
      }
      var reply;
      reply, added := db.InsertCustomers(splitNum, pending, splitNum);
      StoredRows(pending, splitNum);
      if !reply.Inserted? {
        return false, added;
      }
      assert added[..0] == [];
      for i := 0 to |pending|
        modifies this`allCustomers
        invariant allCustomers == old(allCustomers) + Records(added[..i])
      {
        var number := if pending[i].msisdn == None then "" else pending[i].msisdn.value;
        assert added[..i + 1][..i] == added[..i];
        if number != "" {
          allCustomers := allCustomers + [Record(reply.firstId + i, number, splitNum)];
        }
      }
      assert added[..|pending|] == added;
      splitRowCount := splitRowCount + |pending|;
      pending := [];
      ok := true;
    }

    /** Between two rows: i rows generated, the first w written by k operations. */
    ghost predicate Midway(run: Run, w: nat, i: nat, k: nat, n: nat)
      reads this, db
    {
      && run.params == params
      && InProgress(run, w, i, k, db.customers, n, splitNum, splitRowCount, pending, allCustomers)
    }

    /** Flushing keeps the progress of a run: either nothing happened or one more operation
        did; it succeeds only with the buffer emptied. */
    method FlushStepwise(ghost run: Run, ghost w: nat, ghost i: nat, ghost k: nat, ghost n: nat)
      returns (ok: bool, ghost k': nat)
      requires db.Valid() && Midway(run, w, i, k, n)
      requires pending != [] ==> |pending| == Min(params.batch, run.toInsert - w)
      modifies this`pending, this`splitRowCount, this`allCustomers, db`customers, db`nextId, db`asked, db`faults
      ensures db.Valid()
      ensures ok <==> db.faults == old(db.faults) && (old(pending) == [] || splitNum in old(db.customers))
      ensures db.faults >= old(db.faults)
      ensures splitNum in old(db.customers) ==> splitNum in db.customers
      ensures ok ==> Midway(run, i, i, k', n) && pending == []
      ensures Stopped(run, i, k', db.customers, n)
      ensures old(pending) == [] ==>
                && ok && k' == k && db.customers == old(db.customers)
                && splitRowCount == old(splitRowCount) && allCustomers == old(allCustomers)
    {
      hide InProgress, Stopped, Database.Valid;
      ghost var added;
      ghost var m, seen, buffer, rs := db.customers, splitRowCount, pending, allCustomers;
      ProgressStopped(run, w, i, k, m, n, splitNum, seen, buffer, rs);
      ok, added := FlushCustomers();
      k' := k;
      if added != [] {
        FlushedProgress(run, w, i, k, m, n, splitNum, seen, buffer, rs, added);
        ProgressStopped(run, i, i, k + 1, db.customers, n, splitNum, seen + |added|, [], rs + Records(added));
        k' := k + 1;
      } else {
        assert rs + [] == rs && Records([]) == [];
      }
    }

    /** Flush, then create the next split. The buffer is always empty here. */
    method OpenNextSplit(ghost run: Run, ghost w: nat, ghost i: nat, ghost k: nat, ghost n: nat)
      returns (ok: bool, ghost k': nat, ghost n': nat)
      requires db.Valid() && Midway(run, w, i, k, n) && splitRowCount >= params.cap && i < run.toInsert
      modifies this, db
      ensures db.Valid()
      ensures (ok <==> db.faults == old(db.faults)) && db.faults >= old(db.faults)
      ensures Keeps(old(db.children), db.children)
      ensures ok ==> splitNum in db.customers && (ChildTables(old(db.children), n) ==> ChildTables(db.children, n'))
      ensures pending == old(pending) == []
      ensures ok ==> Midway(run, i, i, k', n') && splitRowCount == 0
      ensures Stopped(run, i, k', db.customers, n')
      ensures SameChildren(old(db.children), db.children)
    {
      hide InProgress, Stopped, Database.Valid, SameChildren, Keeps, ChildTables;
      CurrentSplits(run, w, i, k, db.customers, n, splitNum, splitRowCount, pending, allCustomers);
      FullSplitHasNoBuffer(run, w, i, k, db.customers, n, splitNum, splitRowCount, pending, allCustomers);
      ok, k' := FlushStepwise(run, w, i, k, n);
      ghost var m, rs := db.customers, allCustomers;
      ghost var m', last := WithSplit(m, splitNum + 1), if splitNum + 1 in m then n else n + 1;
      OpenedProgress(run, i, k, m, n, splitNum, splitRowCount, rs);
      ProgressStopped(run, i, i, k, m, n, splitNum, splitRowCount, [], rs);
      ProgressStopped(run, i, i, k + 1, m', last, splitNum + 1, 0, [], rs);
      splitNum := splitNum + 1;
      splitRowCount := 0;
      ok := db.CreateSplitTables(splitNum);
      NextChildTables(old(db.children), db.children, m, n, splitNum, ok);
      n', k' := if splitNum in db.customers then last else n, if splitNum in db.customers then k + 1 else k;
    }

    /** The row loop: buffers rows, flushes full batches, opens the next split at the cap. */
    method InsertMissing(rows: seq<RowData>, toInsert: nat, ghost run: Run)
      returns (ok: bool, ghost k: nat, ghost n: nat)
      requires db.Valid() && run.rows == rows && run.toInsert == toInsert
      requires pending == [] && Midway(run, 0, 0, 0, run.splits)
      modifies this, db
      ensures db.Valid()
      ensures ok ==> db.faults == old(db.faults)
      ensures ok && ChildTables(old(db.children), run.splits) ==> ChildTables(db.children, n)
      ensures db.faults == old(db.faults) && old(splitNum in db.customers) ==> ok
      ensures db.faults >= old(db.faults)
      ensures ok ==> Midway(run, toInsert, toInsert, k, n) && pending == []
      ensures Stopped(run, toInsert, k, db.customers, n)
      ensures SameChildren(old(db.children), db.children)
    {
      hide InProgress, Stopped, Database.Valid, ChildTables;
      RunFacts(run);
      k, n := 0, run.splits;
      var i := 0;
      ghost var w := 0;
      while i < toInsert
        invariant 0 <= i <= toInsert && db.Valid()
        invariant Midway(run, w, i, k, n) && |pending| < params.batch
        invariant SameChildren(old(db.children), db.children)
        invariant db.faults == old(db.faults) && (old(splitNum in db.customers) ==> splitNum in db.customers)
        invariant ChildTables(old(db.children), run.splits) ==> ChildTables(db.children, n)
      {
        if splitRowCount >= params.cap {
          ok, k, n := OpenNextSplit(run, w, i, k, n);
          w := i;
          if !ok {
            StoppedEarlier(run, i, toInsert, k, db.customers, n);
            return false, k, n;
          }
        }
        BufferedProgress(run, w, i, k, db.customers, n, splitNum, splitRowCount, pending, allCustomers);
        pending := pending + [rows[i]];
        i := i + 1;
        if |pending| >= params.batch {
          ProgressStopped(run, w, i, k, db.customers, n, splitNum, splitRowCount, pending, allCustomers);
          ok, k := FlushStepwise(run, w, i, k, n);
          w := i;
          if !ok {
            StoppedEarlier(run, i, toInsert, k, db.customers, n);
            return false, k, n;
          }
        }
      }
      ProgressStopped(run, w, i, k, db.customers, n, splitNum, splitRowCount, pending, allCustomers);
      ok, k := FlushStepwise(run, w, i, k, n);
    }

    /** One child row per record; a port history row is written for the chosen customers only. */
    method BuildRows(kind: Kind, records: seq<Record>) returns (rows: seq<ChildRow>)
      ensures rows == RowsFor(kind, records, ported)
    {
      rows := [];
      for i := 0 to |records|
        invariant rows == RowsFor(kind, records[..i], ported)
      {
        OneRow(kind, records, i, ported);
        if kind == PortHistory && !ported(records[i]) {
          continue;
        }
        rows := rows + [ChildRow(records[i].id, records[i].msisdn, records[i].split)];
      }
      assert records[..|records|] == records;
    }

    /** Builds the rows of one child table and inserts them in chunks. */
    method SeedChild(kind: Kind, split: nat, records: seq<Record>) returns (ok: bool)
      requires db.Valid() && params.Valid()
      requires forall r :: r in ChildRows(records) ==> Refers(db.customers, split, r)
      modifies db`children, db`asked, db`faults
      ensures db.Valid() && Keeps(old(db.children), db.children)
      ensures ok ==> db.faults == old(db.faults)
      ensures db.faults == old(db.faults) && (kind, split) in old(db.children) ==> ok
      ensures db.faults >= old(db.faults)
      ensures ok ==> ChildAt(db.children, (kind, split))
                     == ChildAt(old(db.children), (kind, split)) + RowsFor(kind, records, ported)
      ensures ok ==> forall key :: key != (kind, split) ==> ChildAt(db.children, key) == ChildAt(old(db.children), key)
    {
      hide Database.Valid;
      var rows := BuildRows(kind, records);
      forall row | row in rows ensures row in ChildRows(records) {
        RowsForMember(kind, records, ported, row);
      }
      hide RowsFor, ChildRows, Refers;
      ghost var done;
      ok, done := db.BatchInsert(kind, split, rows, params.batch);
      assert rows[..|rows|] == rows;
    }

    /** The four child tables of one split, in order, stopping at the first error. */
    method SeedSplit(split: nat, records: seq<Record>) returns (ok: bool)
      requires db.Valid() && params.Valid()
      requires forall r :: r in ChildRows(records) ==> Refers(db.customers, split, r)
      modifies db`children, db`asked, db`faults
      ensures db.Valid() && Keeps(old(db.children), db.children)
      ensures ok ==> db.faults == old(db.faults)
      ensures db.faults == old(db.faults) && (forall kind: Kind :: (kind, split) in old(db.children)) ==> ok
      ensures db.faults >= old(db.faults)
      ensures ok ==> SplitSeeded(old(db.children), db.children, split, records, ported)
      ensures ok ==> forall key: (Kind, nat) :: key.1 != split ==>
                ChildAt(db.children, key) == ChildAt(old(db.children), key)
    {
      hide Database.Valid, RowsFor, Refers, ChildRows, ChildAt;
      ok := SeedChild(Subscriptions, split, records);
      if !ok { return; }
      ok := SeedChild(BillingAccounts, split, records);
      if !ok { return; }
      ok := SeedChild(SimInventory, split, records);
      if !ok { return; }
      ok := SeedChild(PortHistory, split, records);
      ghost var before, after := old(db.children), db.children;
      forall kind: Kind | ok
        ensures ChildAt(after, (kind, split)) == ChildAt(before, (kind, split)) + RowsFor(kind, records, ported)
      {
        match kind
        case Subscriptions | BillingAccounts | SimInventory | PortHistory =>
      }
    }

    method GroupBySplit() returns (bySplit: map<nat, seq<Record>>)
      ensures forall s: nat :: s in bySplit <==> Select(allCustomers, s) != []
      ensures forall s: nat :: s in bySplit ==> bySplit[s] == Select(allCustomers, s)
    {
      bySplit := map[];
      for i := 0 to |allCustomers|
        invariant forall s: nat :: s in bySplit <==> Select(allCustomers[..i], s) != []
        invariant forall s: nat :: s in bySplit ==> bySplit[s] == Select(allCustomers[..i], s)
      {
        var c := allCustomers[i];
        assert allCustomers[..i + 1][..i] == allCustomers[..i];
        bySplit := bySplit[c.split := (if c.split in bySplit then bySplit[c.split] else []) + [c]];
      }
      assert allCustomers[..|allCustomers|] == allCustomers;
    }

    /** Seeds the splits of the remembered customers, in any order. */
    method SeedChildren(ghost m0: Customers, ghost ch0: Children, ghost n: nat) returns (ok: bool)
      requires db.Valid() && params.Valid() && Remembered(m0, db.customers, allCustomers) && Splits(db.customers, n)
      requires SameChildren(ch0, db.children)
      modifies db`children, db`asked, db`faults
      ensures db.Valid()
      ensures ok ==> db.faults == old(db.faults)
      ensures db.faults == old(db.faults) && ChildTables(old(db.children), n) ==> ok
      ensures db.faults >= old(db.faults)
      ensures ok ==> forall s: nat :: SplitSeeded(ch0, db.children, s, Select(allCustomers, s), ported)
    {
      hide *;
      var bySplit := GroupBySplit();
      db.RememberedRefers(m0, allCustomers);
      var todo := bySplit.Keys;
      SameChildrenAt(ch0, db.children);
      while todo != {}
        invariant db.Valid() && todo <= bySplit.Keys && db.faults == old(db.faults)
        invariant ChildTables(old(db.children), n) ==> ChildTables(db.children, n)
        invariant forall s: nat :: s in bySplit && s !in todo ==> SplitSeeded(ch0, db.children, s, bySplit[s], ported)
        invariant forall key: (Kind, nat) :: key.1 !in bySplit || key.1 in todo ==>
                    ChildAt(db.children, key) == ChildAt(ch0, key)
        decreases todo
      {
        var split :| split in todo;
        ghost var before := db.children;
        HasTables(db.children, db.customers, n, m0, allCustomers, split);
        ok := SeedSplit(split, bySplit[split]);
        if !ok {
          return;
        }
        KeepsTables(before, db.children, n);
        SeededFresh(ch0, before, db.children, split, bySplit[split], ported);
        forall s: nat | s in bySplit && s !in todo
          ensures SplitSeeded(ch0, db.children, s, bySplit[s], ported)
        {
          SeededKept(ch0, before, db.children, split, s, bySplit[s], ported);
        }
        todo := todo - {split};
      }
      ok := true;
      NothingToSeed(ch0, db.children, allCustomers, bySplit, ported);
    }

    /** One run of the seeder on a shard with splits 1..n and the wanted number of customers.
        `unreadable` holds the existing splits whose count query fails. Whatever fails, every
        child row refers to a customer, tables are only appended to, and the tables hold the
        first w generated rows on top, laid out as after k operations of a run that starts from
        what the inspection saw. A run that succeeds has come to the end of that run and has
        seeded the children of all new customers; it leaves the layout of a run that sees all
        splits exactly when its inspection was harmless. A run all whose statements work comes
        to its end, and succeeds unless a split lacks child tables from an earlier failure; one
        with nothing to insert succeeds without any statement. */
    method SeedShard(rows: seq<RowData>, target: int, unreadable: set<nat>, ghost n: nat)
      returns (ok: bool, ghost k: nat, ghost n': nat)
      requires db.Valid() && params.Valid() && Splits(db.customers, n)
      requires |rows| >= target && pending == [] && allCustomers == []
      modifies this, db
      ensures db.Valid() && Splits(db.customers, n') && Grown(old(db.customers), db.customers)
      ensures ok ==> forall s: nat ::
                SplitSeeded(old(db.children), db.children, s,
                            Records(Gained(old(db.customers), db.customers, s)), ported)
      ensures (ok ==> db.faults == old(db.faults)) && db.faults >= old(db.faults)
      ensures db.faults == old(db.faults) && n >= 1 ==>
                var counts := RowCounts(old(db.customers), n);
                && RowCounts(db.customers, n') ==
                   Finish(params, Resume(counts, Readable(counts, unreadable), target)).counts
                && (ChildTables(old(db.children), n) ==> ok)
      ensures var counts := RowCounts(old(db.customers), n);
              Resume(counts, Readable(counts, unreadable), target).left <= 0 ==> ok && db.asked == old(db.asked)
      ensures exists w: nat :: w <= |rows| && GainedRows(old(db.customers), db.customers, n') == rows[..w]
      ensures var counts := RowCounts(old(db.customers), n);
              var start := Resume(counts, Readable(counts, unreadable), target);
              && RowCounts(db.customers, n') == After(params, start, k).counts
              && (ok ==> RowCounts(db.customers, n') == Finish(params, start).counts)
      ensures var counts := RowCounts(old(db.customers), n);
              ok && counts != [] && ClosedFull(params, counts) ==>
                (RowCounts(db.customers, n') == Complete(params, target, counts)
                 <==> Harmless(counts, Readable(counts, unreadable), target))
      ensures Countable(RowCounts(old(db.customers), n), unreadable) ==>
                && Reached(params, target, rows, old(db.customers), n, db.customers, n', k)
                && (ok ==> RowCounts(db.customers, n') == Complete(params, target, RowCounts(old(db.customers), n)))
    {
      hide Database.Valid, Iterate, Complete, AllRows, Total, SplitSeeded, Grown, Countable, After, Finish, GainedRows,
           Reached;
      var st := db.InspectExistingSplits(unreadable, n);
      ghost var m0, ch0 := db.customers, db.children;
      ghost var seen := Readable(RowCounts(m0, n), unreadable);
      ghost var start := Resume(RowCounts(m0, n), seen, target);
      FinishIff(params, RowCounts(m0, n), seen, target);
      hide ClosedFull, Harmless;
      if target - st.totalRows <= 0 {
        NothingWritten(params, target, m0, ch0, n, rows, unreadable, ported);
        return true, 0, n;
      }
      splitNum := st.currentSplit;
      splitRowCount := st.currentSplitRows;
      ghost var run: Run := RunData(params, rows, target - st.totalRows, m0, n, st.currentSplit, st.currentSplitRows);
      RunStarts(run);
      assert run.Start() == start;
      assert n >= 1 ==> splitNum in db.customers;
      hide *;
      ok, k, n' := InsertMissing(rows, target - st.totalRows, run);
      StoppedMeans(run, target - st.totalRows, k, db.customers, n');
      StoppedFaithful(run, target - st.totalRows, k, db.customers, n', unreadable, target);
      FinishCountable(params, RowCounts(m0, n), unreadable, target);
      if ok {
        RunFinished(run, k, db.customers, n', splitNum, splitRowCount, allCustomers);
        if |allCustomers| > 0 {
          ok := SeedChildren(m0, ch0, n');
        } else {
          NothingSeeded(ch0, db.children, ported);
        }
      }
    }
  }

  lemma NextChildTables(ch: Children, ch': Children, m: Customers, n: nat, split: nat, ok: bool)
    requires Splits(m, n) && 1 <= split <= n + 1 && Keeps(ch, ch')
    requires ok ==> forall kind: Kind :: (kind, split) in ch'
    ensures ok && ChildTables(ch, n) ==> ChildTables(ch', if split in m then n else n + 1)
  {}

  lemma CurrentSplits(run: Run, w: nat, i: nat, k: nat, m: Customers, n: nat, split: nat, seen: nat,
                      pending: seq<RowData>, rs: seq<Record>)
    requires InProgress(run, w, i, k, m, n, split, seen, pending, rs) && seen >= run.params.cap
    ensures Splits(m, n) && split in m && 1 <= split <= n
  {
    assert run.params.Valid();
  }

  /** A split of remembered customers exists, and so do its child tables when all splits have them. */
  lemma HasTables(ch: Children, m: Customers, n: nat, m0: Customers, rs: seq<Record>, split: nat)
    requires Splits(m, n) && Remembered(m0, m, rs) && Select(rs, split) != []
    ensures ChildTables(ch, n) ==> forall kind: Kind :: (kind, split) in ch
  {
    assert split !in m ==> Gained(m0, m, split) == [];
  }

  lemma KeepsTables(ch: Children, ch': Children, n: nat)
    requires Keeps(ch, ch')
    ensures ChildTables(ch, n) ==> ChildTables(ch', n)
  {}

  lemma SameChildrenAt(ch: Children, ch': Children)
    requires SameChildren(ch, ch')
    ensures forall key :: ChildAt(ch', key) == ChildAt(ch, key)
  {}

  lemma OneRow(kind: Kind, rs: seq<Record>, i: nat, ported: Record -> bool)
    requires i < |rs|
    ensures RowsFor(kind, rs[..i + 1], ported) ==
            RowsFor(kind, rs[..i], ported)
            + if kind == PortHistory && !ported(rs[i]) then [] else [ChildRow(rs[i].id, rs[i].msisdn, rs[i].split)]
    ensures RowsFor(kind, rs[..0], ported) == []
  {
    assert rs[..i + 1][..i] == rs[..i];
  }

  lemma SeededFresh(ch0: Children, before: Children, after: Children, s: nat, rs: seq<Record>,
                    ported: Record -> bool)
    requires SplitSeeded(before, after, s, rs, ported)
    requires forall key: (Kind, nat) :: key.1 == s ==> ChildAt(before, key) == ChildAt(ch0, key)
    ensures SplitSeeded(ch0, after, s, rs, ported)
  {
    hide ChildAt;
  }

  lemma SeededKept(ch0: Children, before: Children, after: Children, split: nat, s: nat, rs: seq<Record>,
                   ported: Record -> bool)
    requires SplitSeeded(ch0, before, s, rs, ported) && s != split
    requires forall key: (Kind, nat) :: key.1 != split ==> ChildAt(after, key) == ChildAt(before, key)
    ensures SplitSeeded(ch0, after, s, rs, ported)
  {
    hide ChildAt;
  }

  lemma NothingToSeed(ch: Children, ch': Children, rs: seq<Record>, bySplit: map<nat, seq<Record>>,
                      ported: Record -> bool)
    requires forall s: nat :: s in bySplit <==> Select(rs, s) != []
    requires forall s: nat :: s in bySplit ==>
               bySplit[s] == Select(rs, s) && SplitSeeded(ch, ch', s, bySplit[s], ported)
    requires forall key: (Kind, nat) :: key.1 !in bySplit ==> ChildAt(ch', key) == ChildAt(ch, key)
    ensures forall s: nat :: SplitSeeded(ch, ch', s, Select(rs, s), ported)
  {
    forall s: nat ensures SplitSeeded(ch, ch', s, Select(rs, s), ported) {
      if s !in bySplit {
        forall kind: Kind ensures ChildAt(ch', (kind, s)) == ChildAt(ch, (kind, s)) + RowsFor(kind, [], ported) {
          assert RowsFor(kind, [], ported) == [];
        }
      }
    }
  }

  lemma NothingSeeded(ch: Children, ch': Children, ported: Record -> bool)
    requires SameChildren(ch, ch')
    ensures forall s: nat :: SplitSeeded(ch, ch', s, Select([], s), ported)
  {
    NothingToSeed(ch, ch', [], map[], ported);
  }

  /** The tables a faithful run left: the layout after k of its operations, and a prefix of
      its rows behind those that were there. */
  ghost predicate Reached(p: Params, target: int, rows: seq<RowData>, m: Customers, n: nat, m': Customers, n': nat,
                          k: nat)
    requires p.Valid()
  {
    && n >= 1 && n' >= 1
    && RowCounts(m', n') == Iterate(p, target, RowCounts(m, n), k)
    && exists w: nat :: w <= |rows| && AllRows(m', n') == AllRows(m, n) + rows[..w]
  }

  /** A run: where it starts from and what it is asked to do. */
  datatype RunData = RunData(params: Params, rows: seq<RowData>, toInsert: nat, tables: Customers, splits: nat,
                             first: nat, seen: nat)
  {
    ghost predicate Valid() {
      && params.Valid() && Splits(tables, splits) && toInsert <= |rows|
      && first >= 1 && (first <= splits || seen == 0)
    }

    ghost function Start(): Progress {
      Progress(RowCounts(tables, splits), first, seen, toInsert)
    }

    /** The run after k operations. */
    ghost function At(k: nat): Progress
      requires Valid()
    {
      After(params, Start(), k)
    }
  }

  type Run = r: RunData | r.Valid() witness RunData(Params(1, 1), [], 0, map[1 := []], 1, 1, 0)

  /** Only splits from the first on, and none behind the current one, gained rows. */
  ghost predicate GainedWithin(m0: Customers, m: Customers, first: nat, split: nat) {
    forall s: nat :: s < first || s > split ==> Gained(m0, m, s) == []
  }

  /** After k operations the tables have the run's layout and gained a prefix of its rows. */
  ghost predicate Stopped(run: Run, i: nat, k: nat, m: Customers, n: nat)
  {
    && Splits(m, n) && Grown(run.tables, m)
    && RowCounts(m, n) == run.At(k).counts
    && (forall s: nat :: s < run.first ==> Gained(run.tables, m, s) == [])
    && exists w: nat :: w <= i && w <= |run.rows| && GainedRows(run.tables, m, n) == run.rows[..w]
  }

  /** Between two rows: i rows generated, the first w written, the others in the buffer, which
      is empty once the split is believed to have reached its cap. */
  ghost predicate InProgress(run: Run, w: nat, i: nat, k: nat, m: Customers, n: nat, split: nat, seen: nat,
                             pending: seq<RowData>, rs: seq<Record>)
  {
    && Splits(m, n) && Grown(run.tables, m)
    && run.At(k) == Progress(RowCounts(m, n), split, seen, run.toInsert - w)
    && w <= i <= run.toInsert && pending == run.rows[w..i]
    && (pending != [] ==> seen < run.params.cap)
    && GainedRows(run.tables, m, n) == run.rows[..w]
    && run.first <= split && GainedWithin(run.tables, m, run.first, split)
    && Remembered(run.tables, m, rs)
    && (split in m || seen == 0)
  }

  lemma RunFacts(run: Run)
    ensures run.params.Valid() && run.toInsert <= |run.rows|
  {}

  lemma RunStarts(run: Run)
    ensures InProgress(run, 0, 0, 0, run.tables, run.splits, run.first, run.seen, [], [])
  {
    var m := run.tables;
    forall s: nat ensures Select([], s) == Records(Gained(m, m, s)) && Gained(m, m, s) == [] {
      assert Gained(m, m, s) == [];
    }
    NothingGainedRows(m, m, run.splits);
  }

  lemma FullSplitHasNoBuffer(run: Run, w: nat, i: nat, k: nat, m: Customers, n: nat, split: nat, seen: nat,
                             pending: seq<RowData>, rs: seq<Record>)
    requires InProgress(run, w, i, k, m, n, split, seen, pending, rs) && seen >= run.params.cap
    ensures pending == [] && w == i
  {}

  lemma FlushedProgress(run: Run, w: nat, i: nat, k: nat, m: Customers, n: nat, split: nat, seen: nat,
                        pending: seq<RowData>, rs: seq<Record>, added: seq<Customer>)
    requires InProgress(run, w, i, k, m, n, split, seen, pending, rs)
    requires added != [] && RowsOf(added) == pending && split in m
    requires |added| == Min(run.params.batch, run.toInsert - w)
    requires forall j :: 0 <= j < |added| ==> added[j].tableSplit == split
    ensures InProgress(run, i, i, k + 1, Appended(m, split, added), n, split, seen + |added|, [], rs + Records(added))
  {
    hide RunData.At, After, AllRows, RowsOf, Advance, Records, RowCounts, GainedRows, GainedWithin, Gained, Splits,
         Grown, Remembered, Appended, Table;
    assert run.params.Valid();
    FlushAdvances(run.params, m, n, split, seen, run.toInsert - w, added);
    FlushRemembers(run.tables, m, n, run.first, split, added, rs);
    AfterNext(run, k);
    assert run.rows[..w] + run.rows[w..i] == run.rows[..i];
  }

  lemma AfterNext(run: Run, k: nat)
    ensures run.At(k + 1) == Advance(run.params, run.At(k))
  {}

  lemma FlushRemembers(m0: Customers, m: Customers, n: nat, first: nat, split: nat, added: seq<Customer>,
                       rs: seq<Record>)
    requires Splits(m, n) && Grown(m0, m) && Remembered(m0, m, rs) && split in m
    requires first <= split && GainedWithin(m0, m, first, split)
    requires forall i :: 0 <= i < |added| ==> added[i].tableSplit == split
    ensures var m' := Appended(m, split, added);
            && Grown(m0, m') && split in m' && GainedWithin(m0, m', first, split)
            && Remembered(m0, m', rs + Records(added))
            && GainedRows(m0, m', n) == GainedRows(m0, m, n) + RowsOf(added)
  {
    hide Remembered, GainedRows, RowsOf, Records;
    GrownTransitive(m0, m, Appended(m, split, added));
    RememberedFlush(m0, m, split, added, rs);
    hide Grown;
    GainedEach(m0, m, split, added);
    hide Gained;
    GainedRowsAppend(m0, m, n, split, added);
  }

  lemma OpenedProgress(run: Run, i: nat, k: nat, m: Customers, n: nat, split: nat, seen: nat, rs: seq<Record>)
    requires InProgress(run, i, i, k, m, n, split, seen, [], rs) && seen >= run.params.cap && i < run.toInsert
    ensures var n' := if split + 1 in m then n else n + 1;
            InProgress(run, i, i, k + 1, WithSplit(m, split + 1), n', split + 1, 0, [], rs)
  {
    hide RunData.At, After, AllRows, Advance, RowCounts, GainedRows, GainedWithin, Gained, Splits, Grown, Remembered,
         WithSplit;
    assert run.params.Valid() && split in m;
    OpenAdvances(run.params, m, n, split, seen, run.toInsert - i);
    AfterNext(run, k);
    OpenRemembers(run.tables, m, n, run.first, split, rs);
  }

  lemma OpenRemembers(m0: Customers, m: Customers, n: nat, first: nat, split: nat, rs: seq<Record>)
    requires Splits(m, n) && Grown(m0, m) && Remembered(m0, m, rs) && split in m
    requires first <= split && GainedWithin(m0, m, first, split)
    ensures var m', n' := WithSplit(m, split + 1), if split + 1 in m then n else n + 1;
            && Grown(m0, m') && split + 1 in m' && GainedWithin(m0, m', first, split + 1)
            && Remembered(m0, m', rs) && GainedRows(m0, m', n') == GainedRows(m0, m, n)
  {
    hide Remembered, GainedRows, Gained, Grown;
    if split + 1 !in m {
      assert split == n;
      OpenGains(m0, m, n);
      OpenGainedRows(m0, m, n);
      RememberedOpen(m0, m, n + 1, rs);
      var m' := m[n + 1 := []];
      forall s: nat | s < first || s > split + 1 ensures Gained(m0, m', s) == [] {
        assert Gained(m0, m, s) == [];
      }
    }
  }

  lemma OpenGainedRows(m0: Customers, m: Customers, n: nat)
    requires forall s: nat :: Gained(m0, m[n + 1 := []], s) == Gained(m0, m, s)
    requires Gained(m0, m, n + 1) == []
    ensures GainedRows(m0, m[n + 1 := []], n + 1) == GainedRows(m0, m, n)
  {
    hide *;
    GainedRowsFrame(m0, m, m[n + 1 := []], n);
    GainedRowsNext(m0, m[n + 1 := []], n + 1);
    RowsOfNone();
    assert GainedRows(m0, m, n) + [] == GainedRows(m0, m, n);
  }

  lemma RowsOfNone()
    ensures RowsOf([]) == []
  {}

  lemma OpenGains(m0: Customers, m: Customers, n: nat)
    requires Grown(m0, m) && n + 1 !in m
    ensures Grown(m0, m[n + 1 := []]) && Gained(m0, m, n + 1) == []
    ensures forall s: nat :: Gained(m0, m[n + 1 := []], s) == Gained(m0, m, s)
  {}

  lemma BufferedProgress(run: Run, w: nat, i: nat, k: nat, m: Customers, n: nat, split: nat, seen: nat,
                         pending: seq<RowData>, rs: seq<Record>)
    requires InProgress(run, w, i, k, m, n, split, seen, pending, rs) && i < run.toInsert && seen < run.params.cap
    ensures InProgress(run, w, i + 1, k, m, n, split, seen, pending + [run.rows[i]], rs)
  {
    hide After, Remembered, GainedRows, GainedWithin, Grown, Splits, RowCounts;
    assert run.rows[w..i + 1] == pending + [run.rows[i]];
  }

  /** The tables of a run in progress are those of a run stopped there. */
  lemma ProgressStopped(run: Run, w: nat, i: nat, k: nat, m: Customers, n: nat, split: nat, seen: nat,
                        pending: seq<RowData>, rs: seq<Record>)
    requires InProgress(run, w, i, k, m, n, split, seen, pending, rs)
    ensures Stopped(run, i, k, m, n) && |pending| == i - w && i <= run.toInsert
  {
    hide After, Remembered, GainedRows, Grown, Splits, RowCounts;
  }

  lemma StoppedEarlier(run: Run, i: nat, j: nat, k: nat, m: Customers, n: nat)
    requires i <= j && Stopped(run, i, k, m, n)
    ensures Stopped(run, j, k, m, n)
  {}

  lemma StoppedMeans(run: Run, i: nat, k: nat, m: Customers, n: nat)
    requires Stopped(run, i, k, m, n)
    ensures Splits(m, n) && Grown(run.tables, m) && RowCounts(m, n) == After(run.params, run.Start(), k).counts
    ensures exists w: nat :: w <= |run.rows| && GainedRows(run.tables, m, n) == run.rows[..w]
  {}

  /** A run with nothing left to insert has come to its end. */
  lemma RunFinished(run: Run, k: nat, m: Customers, n: nat, split: nat, seen: nat, rs: seq<Record>)
    requires InProgress(run, run.toInsert, run.toInsert, k, m, n, split, seen, [], rs) && run.toInsert > 0
    ensures RowCounts(m, n) == Finish(run.params, run.Start()).counts
    ensures Remembered(run.tables, m, rs)
    ensures forall s: nat :: Select(rs, s) == Records(Gained(run.tables, m, s))
  {
    if OnTable(run.Start()) {
      FinishAfter(run.params, run.Start(), k);
      NothingLeft(run.params, run.At(k), 0);
    } else {
      StaysStuck(run, k);
    }
  }

  lemma {:induction false} StaysStuck(run: Run, k: nat)
    requires !OnTable(run.Start())
    ensures run.At(k) == run.Start()
  {
    if k > 0 {
      StaysStuck(run, k - 1);
    }
  }

  // ---------- runs that see the truth ----------

  lemma CountableFaithful(counts: seq<nat>, unreadable: set<nat>, target: int)
    requires Countable(counts, unreadable)
    ensures Faithful(Resume(counts, Readable(counts, unreadable), target), target)
  {
    var k := Readable(counts, unreadable);
    assert counts[..|counts|] == counts;
    if k < |counts| {
      assert counts == [0] && k == 0;
      TotalOne(0);
      assert counts[..0] == [] && Total([]) == 0;
    }
  }

  lemma FinishCountable(p: Params, counts: seq<nat>, unreadable: set<nat>, target: int)
    requires p.Valid()
    ensures Countable(counts, unreadable) ==>
              Finish(p, Resume(counts, Readable(counts, unreadable), target)).counts == Complete(p, target, counts)
  {
    if Countable(counts, unreadable) {
      CountableFaithful(counts, unreadable, target);
      FinishFaithful(p, Resume(counts, Readable(counts, unreadable), target), target);
    }
  }

  lemma FinishIff(p: Params, counts: seq<nat>, seen: nat, target: int)
    requires p.Valid() && seen <= |counts|
    ensures counts != [] && ClosedFull(p, counts) ==>
              (Finish(p, Resume(counts, seen, target)).counts == Complete(p, target, counts)
               <==> Harmless(counts, seen, target))
  {
    if counts != [] && ClosedFull(p, counts) {
      ResumeCorrectIff(p, counts, seen, target);
    }
  }

  lemma StoppedFaithful(run: Run, i: nat, k: nat, m: Customers, n: nat, unreadable: set<nat>, target: int)
    requires Stopped(run, i, k, m, n)
    requires var counts := RowCounts(run.tables, run.splits);
             run.Start() == Resume(counts, Readable(counts, unreadable), target)
    ensures Countable(RowCounts(run.tables, run.splits), unreadable) ==>
              Reached(run.params, target, run.rows, run.tables, run.splits, m, n, k)
  {
    hide Countable, Readable, Resume, Iterate;
    var counts := RowCounts(run.tables, run.splits);
    if Countable(counts, unreadable) {
      CountableFaithful(counts, unreadable, target);
      AfterFaithful(run.params, run.Start(), target, k);
      hide After;
      SplitsGrow(run.tables, run.splits, m, n);
      AllRowsGained(run.tables, run.splits, m, n);
    }
  }

  lemma SplitsGrow(m0: Customers, n0: nat, m: Customers, n: nat)
    requires Splits(m0, n0) && Splits(m, n) && Grown(m0, m)
    ensures n0 <= n
  {
    assert n0 == 0 || n0 in m0;
  }

  lemma NothingWritten(p: Params, target: int, m: Customers, ch: Children, n: nat, rows: seq<RowData>,
                       unreadable: set<nat>, ported: Record -> bool)
    requires p.Valid() && Splits(m, n)
    requires Resume(RowCounts(m, n), Readable(RowCounts(m, n), unreadable), target).left <= 0
    ensures Grown(m, m) && (exists w: nat :: w <= |rows| && GainedRows(m, m, n) == rows[..w])
    ensures forall s: nat :: SplitSeeded(ch, ch, s, Records(Gained(m, m, s)), ported)
    ensures var start := Resume(RowCounts(m, n), Readable(RowCounts(m, n), unreadable), target);
            RowCounts(m, n) == After(p, start, 0).counts == Finish(p, start).counts
    ensures Countable(RowCounts(m, n), unreadable) ==>
              && Reached(p, target, rows, m, n, m, n, 0)
              && RowCounts(m, n) == Complete(p, target, RowCounts(m, n))
  {
    NothingGained(m, ch, n, ported);
    assert rows[..0] == [] && AllRows(m, n) + [] == AllRows(m, n);
    FinishCountable(p, RowCounts(m, n), unreadable, target);
  }

  lemma NothingGained(m: Customers, ch: Children, n: nat, ported: Record -> bool)
    ensures GainedRows(m, m, n) == []
    ensures forall s: nat :: SplitSeeded(ch, ch, s, Records(Gained(m, m, s)), ported)
  {
    forall s: nat ensures SplitSeeded(ch, ch, s, Records(Gained(m, m, s)), ported) && Gained(m, m, s) == [] {
      assert Gained(m, m, s) == [];
      forall kind: Kind ensures ChildAt(ch, (kind, s)) == ChildAt(ch, (kind, s)) + RowsFor(kind, [], ported) {
        assert RowsFor(kind, [], ported) == [];
      }
    }
    NothingGainedRows(m, m, n);
  }

  // ---------- until it succeeds ----------

  /** One attempt: its statements are those from `from` to `to`, and the child tables and
      splits it found. */
  datatype Trace = Trace(from: nat, to: nat, children: Children, splits: nat)

  ghost predicate Faultless(answers: nat -> Answer, t: Trace) {
    t.from <= t.to && forall j :: t.from <= j < t.to ==> answers(j).Works?
  }

  /** The attempts follow each other from the first statement and the first tables on. */
  ghost predicate Chained(traces: seq<Trace>, from: nat, children: Children, splits: nat, to: nat) {
    && (if traces == [] then from == to else
          traces[0].from == from && traces[0].children == children && traces[0].splits == splits
          && traces[|traces| - 1].to == to)
    && forall i :: 0 <= i < |traces| - 1 ==> traces[i].to == traces[i + 1].from
  }

  /** Why none of the attempts succeeded: in each a statement failed, or a split had lost its
      child tables; when all splits can be counted, a statement failed in all but the last. */
  ghost predicate Excused(answers: nat -> Answer, traces: seq<Trace>, countable: bool) {
    && (forall i :: 0 <= i < |traces| ==>
          !Faultless(answers, traces[i]) || !ChildTables(traces[i].children, traces[i].splits))
    && (countable ==> forall i :: 0 <= i < |traces| - 1 ==> !Faultless(answers, traces[i]))
  }

  /** Reruns the seeder with the same target until a run succeeds. `history` tells what each
      inspection counted and how far each run got, `traces` which statements it asked.

      The tables end with the layout of one uninterrupted run, from an empty first split the
      canonical one, if and only if every run kept where the runs end; runs that can count every
      split do. It gives up only if in every attempt a statement failed or a split had lost its
      child tables; when all splits can be counted, a statement failed in all attempts but the
      last, whatever child tables there were. */
  method SeedUntilDone(db: Database, params: Params, target: nat, attempts: nat, rows: nat -> seq<RowData>,
                       unreadable: nat -> set<nat>, ported: (nat, Record) -> bool, ghost n: nat)
    returns (ok: bool, ghost history: seq<Attempt>, ghost traces: seq<Trace>, ghost n': nat)
    requires db.Valid() && params.Valid() && Splits(db.customers, n) && n >= 1
    requires ClosedFull(params, RowCounts(db.customers, n)) && forall j: nat :: |rows(j)| >= target
    modifies db
    ensures db.Valid() && Splits(db.customers, n') && Grown(old(db.customers), db.customers)
    ensures RowCounts(db.customers, n') == LayoutAfter(params, target, RowCounts(old(db.customers), n), history)
    ensures ok ==>
              (RowCounts(db.customers, n') == Settled(params, target, RowCounts(old(db.customers), n))
               <==> AllKeepEnd(params, target, RowCounts(old(db.customers), n), history))
    ensures RowCounts(old(db.customers), n) == [0] ==>
              Settled(params, target, RowCounts(old(db.customers), n)) == Canonical(params, target)
    ensures (forall j: nat :: unreadable(j) == {}) ==>
              AllKeepEnd(params, target, RowCounts(old(db.customers), n), history)
    ensures |traces| <= attempts && Chained(traces, old(db.asked), old(db.children), n, db.asked)
    ensures !ok ==> |traces| == attempts && Excused(db.answers, traces, forall j: nat :: unreadable(j) == {})
  {
    ok, history, traces, n' := false, [], [], n;
    ghost var m0 := db.customers;
    ghost var start: Layout := RowCounts(m0, n);
    assert AllKeepEnd(params, target, start, []) && LayoutAfter(params, target, start, []) == start;
    hide *;
    SettledFrom(params, target, start);
    GrownSelf(m0);
    ghost var countable := forall j: nat :: unreadable(j) == {};
    NothingYet(db.answers, db.asked, db.children, n, countable);
    for j := 0 to attempts
      invariant db.Valid() && Splits(db.customers, n') && Grown(m0, db.customers)
      invariant RowCounts(db.customers, n') == LayoutAfter(params, target, start, history)
      invariant (forall j: nat :: unreadable(j) == {}) ==> AllKeepEnd(params, target, start, history)
      invariant |traces| == j && Chained(traces, old(db.asked), old(db.children), n, db.asked)
      invariant traces == [] ==> db.children == old(db.children) && n' == n
      invariant !ok && Excused(db.answers, traces, countable)
      invariant traces != [] && Faultless(db.answers, traces[|traces| - 1]) ==>
                  Total(LayoutAfter(params, target, start, history)) >= target
    {
      ghost var m, before := db.customers, traces;
      ghost var trace;
      ok, history, trace, n' :=
        SeedAgain(db, params, target, rows(j), unreadable(j), r => ported(j, r), start, history, n');
      GrownTransitive(m0, m, db.customers);
      traces := before + [trace];
      OneMore(db.answers, before, trace, old(db.asked), old(db.children), n, countable);
      if ok {
        return;
      }
    }
  }

  lemma NothingYet(answers: nat -> Answer, from: nat, children: Children, n: nat, countable: bool)
    ensures Chained([], from, children, n, from) && Excused(answers, [], countable)
  {}

  lemma OneMore(answers: nat -> Answer, traces: seq<Trace>, t: Trace, from: nat, children: Children, n: nat,
                countable: bool)
    requires Chained(traces, from, children, n, t.from)
    requires traces == [] ==> t.children == children && t.splits == n
    ensures Chained(traces + [t], from, children, n, t.to)
    ensures && Excused(answers, traces, countable)
            && (!Faultless(answers, t) || !ChildTables(t.children, t.splits))
            && (countable && traces != [] ==> !Faultless(answers, traces[|traces| - 1])) ==>
              Excused(answers, traces + [t], countable)
  {
    hide Faultless, ChildTables;
  }

  /** One more run after a history of runs. */
  method SeedAgain(db: Database, params: Params, target: nat, rows: seq<RowData>, unreadable: set<nat>,
                   ported: Record -> bool, ghost start: Layout, ghost history: seq<Attempt>, ghost n: nat)
    returns (ok: bool, ghost history': seq<Attempt>, ghost trace: Trace, ghost n': nat)
    requires db.Valid() && params.Valid() && Splits(db.customers, n) && |rows| >= target
    requires ClosedFull(params, start) && RowCounts(db.customers, n) == LayoutAfter(params, target, start, history)
    modifies db
    ensures db.Valid() && Splits(db.customers, n') && Grown(old(db.customers), db.customers)
    ensures RowCounts(db.customers, n') == LayoutAfter(params, target, start, history')
    ensures ok ==> (RowCounts(db.customers, n') == Settled(params, target, start)
                    <==> AllKeepEnd(params, target, start, history'))
    ensures unreadable == {} && AllKeepEnd(params, target, start, history) ==>
              AllKeepEnd(params, target, start, history')
    ensures trace == Trace(old(db.asked), db.asked, old(db.children), n)
    ensures Faultless(db.answers, trace) && ChildTables(old(db.children), n) ==> ok
    ensures Faultless(db.answers, trace) ==> Total(LayoutAfter(params, target, start, history')) >= target
    ensures unreadable == {} && Total(LayoutAfter(params, target, start, history)) >= target ==> ok
  {
    hide *;
    ghost var counts := LayoutAfter(params, target, start, history);
    ghost var seen := Readable(counts, unreadable);
    var run := new ShardRun(db, params, ported);
    ghost var k;
    CountFaults(db);
    ok, k, n' := run.SeedShard(rows, target, unreadable, n);
    CountFaults(db);
    history' := history + [Attempt(seen, k)];
    trace := Trace(old(db.asked), db.asked, old(db.children), n);
    SeenIsCounted(counts, seen, k);
    HistoryNext(params, target, start, history, Attempt(seen, k));
    ReadableAll(counts, unreadable);
    AllSeen(counts, target);
    if unreadable == {} {
      AllSeenKeeps(params, target, counts, LayoutAfter(params, target, start, history'));
    }
    FaultlessMeans(db.answers, trace);
    AllSplits(db.customers, n, counts);
    HistoryFull(params, target, start, history);
    FinishReaches(params, target, counts, seen);
    if ok {
      assert history'[..|history'| - 1] == history;
      SuccessInHistory(params, target, start, history', seen);
    }
  }

  lemma CountFaults(db: Database)
    requires db.Valid()
    ensures db.faults == Faults(db.answers, db.asked)
  {}

  lemma FaultlessMeans(answers: nat -> Answer, t: Trace)
    ensures Faultless(answers, t) ==> Faults(answers, t.to) == Faults(answers, t.from)
  {
    if Faultless(answers, t) {
      NoFaults(answers, t.from, t.to);
    }
  }

  lemma {:induction false} NoFaults(answers: nat -> Answer, from: nat, to: nat)
    requires from <= to && forall j :: from <= j < to ==> answers(j).Works?
    ensures Faults(answers, to) == Faults(answers, from)
  {
    if from < to {
      NoFaults(answers, from, to - 1);
    }
  }

  lemma AllSplits(m: Customers, n: nat, counts: Layout)
    requires |counts| == n
    ensures n >= 1
  {}

  lemma AllSeen(counts: Layout, target: int)
    ensures Resume(counts, |counts|, target).left == target - Total(counts)
  {
    assert counts[..|counts|] == counts;
  }

  /** A run that came to its end has the target. */
  lemma FinishReaches(p: Params, target: int, l: Layout, k: nat)
    requires p.Valid() && ClosedFull(p, l) && k <= |l|
    ensures Total(Finish(p, Resume(l, k, target)).counts) >= target
  {
    var s := Resume(l, k, target);
    PrefixTotal(l, k);
    FinishTotal(p, s);
  }

  lemma SeenIsCounted(counts: Layout, seen: nat, ops: nat)
    requires seen <= |counts|
    ensures Seen(counts, Attempt(seen, ops)) == seen
  {}

  lemma AllSeenKeeps(p: Params, target: int, counts: Layout, m: Layout)
    requires p.Valid() && |counts| <= |m|
    ensures KeepsEnd(p, target, counts, |counts|, m)
  {
    assert counts[..|counts|] == counts;
  }

  lemma GrownSelf(m: Customers)
    ensures Grown(m, m)
  {}

  lemma ReadableAll(counts: seq<nat>, unreadable: set<nat>)
    ensures unreadable == {} ==> Readable(counts, unreadable) == |counts|
  {}

  lemma SettledFrom(p: Params, target: nat, l: Layout)
    requires p.Valid()
    ensures Complete(p, target, l) == Settled(p, target, l)
    ensures l == [0] ==> Settled(p, target, l) == Canonical(p, target)
  {
    CrashResumeConfluence(p, target, [l]);
    RunClosedForm(p, target, l);
  }
}
