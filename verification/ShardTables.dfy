/** The tables of one shard: numbered customers splits and the four child tables of each. */
module ShardTables {
  import opened Wrappers
  import opened SplitLayout
  import opened SplitResume
  import opened Seqs

  /** A generated customer; `details` stands for the columns that carry random text. */
  datatype RowData = RowData(msisdn: Option<string>, details: string) {
    predicate HasNumber() {
      msisdn.Some? && msisdn.value != ""
    }
  }

  datatype Customer = Customer(id: int, row: RowData, tableSplit: nat)

  /** What a run remembers of an inserted customer that has a number. */
  datatype Record = Record(id: int, msisdn: string, split: nat)

  datatype Kind = Subscriptions | BillingAccounts | SimInventory | PortHistory

  datatype ChildRow = ChildRow(customerId: int, msisdn: string, tableSplit: nat)

  type Customers = map<nat, seq<Customer>>
  type Children = map<(Kind, nat), seq<ChildRow>>

  // ---------- contents ----------

  /** The existing splits are exactly 1..n. */
  ghost predicate Splits(m: Customers, n: nat) {
    forall s: nat :: s in m <==> 1 <= s <= n
  }

  ghost function Table(m: Customers, s: nat): seq<Customer> {
    if s in m then m[s] else []
  }

  ghost function RowCounts(m: Customers, n: nat): (counts: seq<nat>)
    ensures |counts| == n
  {
    seq(n, i requires 0 <= i < n => |Table(m, i + 1)|)
  }

  ghost function RowsOf(cs: seq<Customer>): (rows: seq<RowData>)
    ensures |rows| == |cs|
  {
    seq(|cs|, i requires 0 <= i < |cs| => cs[i].row)
  }

  ghost function Appended(m: Customers, s: nat, added: seq<Customer>): Customers {
    m[s := Table(m, s) + added]
  }

  /** The rows of splits 1..n, in order. */
  ghost function AllRows(m: Customers, n: nat): seq<RowData> {
    if n == 0 then [] else AllRows(m, n - 1) + RowsOf(Table(m, n))
  }

  /** The customers of a table that have a number, in order. */
  ghost function Records(cs: seq<Customer>): seq<Record> {
    if cs == [] then []
    else
      var c := cs[|cs| - 1];
      Records(cs[..|cs| - 1])
      + if c.row.HasNumber() then [Record(c.id, c.row.msisdn.value, c.tableSplit)] else []
  }

  /** The records of one split, in order. */
  ghost function Select(rs: seq<Record>, s: nat): seq<Record> {
    if rs == [] then []
    else
      var r := rs[|rs| - 1];
      Select(rs[..|rs| - 1], s) + if r.split == s then [r] else []
  }

  ghost function ChildRows(rs: seq<Record>): seq<ChildRow> {
    seq(|rs|, i requires 0 <= i < |rs| => ChildRow(rs[i].id, rs[i].msisdn, rs[i].split))
  }

  /** The records a draw chooses for the port history, in order. */
  function Ported(rs: seq<Record>, ported: Record -> bool): seq<Record> {
    if rs == [] then []
    else
      var r := rs[|rs| - 1];
      Ported(rs[..|rs| - 1], ported) + if ported(r) then [r] else []
  }

  /** The rows of one child table: one per record, in the port history for the chosen ones only. */
  ghost function RowsFor(kind: Kind, rs: seq<Record>, ported: Record -> bool): seq<ChildRow> {
    ChildRows(if kind == PortHistory then Ported(rs, ported) else rs)
  }

  ghost function Extended(ch: Children, key: (Kind, nat), rows: seq<ChildRow>): Children {
    if rows == [] then ch else ch[key := (if key in ch then ch[key] else []) + rows]
  }

  ghost function ChildAt(ch: Children, key: (Kind, nat)): seq<ChildRow> {
    if key in ch then ch[key] else []
  }

  /** At most some empty child tables were created. */
  ghost predicate SameChildren(ch: Children, ch': Children) {
    forall key :: ChildAt(ch', key) == ChildAt(ch, key)
  }

  /** The customers a table gained since m. */
  ghost function Gained(m: Customers, m': Customers, s: nat): seq<Customer> {
    Table(m', s)[Min(|Table(m, s)|, |Table(m', s)|)..]
  }

  /** The remembered records are those of the customers gained, split by split. */
  ghost predicate Remembered(m: Customers, m': Customers, rs: seq<Record>) {
    forall s: nat :: Select(rs, s) == Records(Gained(m, m', s))
  }

  /** Rows as stored by one multi-row insert: consecutive ids in row order. */
  function Stored(rows: seq<RowData>, firstId: int, s: nat): seq<Customer> {
    seq(|rows|, i requires 0 <= i < |rows| => Customer(firstId + i, rows[i], s))
  }

  // ---------- what the database keeps ----------

  /** Ids ascend within a table and every row names its own split. */
  ghost predicate TableValid(s: nat, cs: seq<Customer>, nextId: int) {
    && (forall i, j :: 0 <= i < j < |cs| ==> cs[i].id < cs[j].id)
    && (forall i :: 0 <= i < |cs| ==> cs[i].id < nextId && cs[i].tableSplit == s)
  }

  ghost predicate TablesValid(m: Customers, nextId: map<nat, int>) {
    && nextId.Keys == m.Keys
    && forall s :: s in m ==> TableValid(s, m[s], nextId[s])
  }

  /** A child row points at a customer of the same split with the same number. */
  ghost predicate Refers(m: Customers, s: nat, r: ChildRow) {
    && s in m && r.tableSplit == s
    && exists i :: 0 <= i < |m[s]| && m[s][i].id == r.customerId && m[s][i].row.msisdn == Some(r.msisdn)
  }

  ghost predicate Linked(m: Customers, ch: Children) {
    forall key, i :: key in ch && 0 <= i < |ch[key]| ==> Refers(m, key.1, ch[key][i])
  }

  /** Tables are only ever appended to. */
  ghost predicate Grown(m: Customers, m': Customers) {
    forall s :: s in m ==> s in m' && m[s] <= m'[s]
  }

  // ---------- lemmas ----------

  lemma {:induction false} RecordsAppend(a: seq<Customer>, b: seq<Customer>)
    ensures Records(a + b) == Records(a) + Records(b)
  {
    if b == [] {
      assert a + b == a;
    } else {
      assert (a + b)[..|a + b| - 1] == a + b[..|b| - 1];
      RecordsAppend(a, b[..|b| - 1]);
    }
  }

  lemma {:induction false} SelectAppend(a: seq<Record>, b: seq<Record>, s: nat)
    ensures Select(a + b, s) == Select(a, s) + Select(b, s)
  {
    if b == [] {
      assert a + b == a;
    } else {
      assert (a + b)[..|a + b| - 1] == a + b[..|b| - 1];
      SelectAppend(a, b[..|b| - 1], s);
    }
  }

  lemma {:induction false} SelectOwn(cs: seq<Customer>, split: nat, s: nat)
    requires forall i :: 0 <= i < |cs| ==> cs[i].tableSplit == split
    ensures Select(Records(cs), s) == if s == split then Records(cs) else []
  {
    if cs != [] {
      var front, c := cs[..|cs| - 1], cs[|cs| - 1];
      SelectOwn(front, split, s);
      if c.row.HasNumber() {
        var r := Record(c.id, c.row.msisdn.value, c.tableSplit);
        SelectAppend(Records(front), [r], s);
        assert [r][..|[r]| - 1] == [];
        assert Select([r], s) == if s == split then [r] else [];
        assert Records(cs) == Records(front) + [r];
      } else {
        assert Records(cs) == Records(front);
      }
    }
  }

  lemma {:induction false} SelectMember(rs: seq<Record>, s: nat, r: Record)
    ensures r in Select(rs, s) <==> r in rs && r.split == s
  {
    if rs != [] {
      SelectMember(rs[..|rs| - 1], s, r);
      assert rs == rs[..|rs| - 1] + [rs[|rs| - 1]];
    }
  }

  /** A customer is remembered exactly when there is a number, and it is not the empty text. */
  lemma {:induction false} RecordsIff(cs: seq<Customer>, r: Record)
    ensures r in Records(cs) <==>
            r.msisdn != "" && exists i :: 0 <= i < |cs| && cs[i].row.msisdn == Some(r.msisdn)
                                          && cs[i].id == r.id && cs[i].tableSplit == r.split
  {
    if cs != [] {
      var front := cs[..|cs| - 1];
      RecordsIff(front, r);
      assert forall i :: 0 <= i < |front| ==> front[i] == cs[i];
    }
  }

  lemma {:induction false} RecordsRefer(m: Customers, s: nat, lo: nat, hi: nat, r: Record)
    requires s in m && lo <= hi <= |m[s]|
    requires forall i :: 0 <= i < |m[s]| ==> m[s][i].tableSplit == s
    requires r in Records(m[s][lo..hi])
    ensures Refers(m, s, ChildRow(r.id, r.msisdn, r.split))
    decreases hi
  {
    var part := m[s][lo..hi];
    if part != [] {
      assert part[..|part| - 1] == m[s][lo..hi - 1];
      if r in Records(m[s][lo..hi - 1]) {
        RecordsRefer(m, s, lo, hi - 1, r);
      } else {
        assert part[|part| - 1] == m[s][hi - 1];
      }
    }
  }

  lemma {:induction false} AllRowsFrame(m: Customers, m': Customers, n: nat)
    requires forall s: nat :: 1 <= s <= n ==> Table(m, s) == Table(m', s)
    ensures AllRows(m, n) == AllRows(m', n)
  {
    if n > 0 {
      AllRowsFrame(m, m', n - 1);
    }
  }

  lemma RowsOfAppend(a: seq<Customer>, b: seq<Customer>)
    ensures RowsOf(a + b) == RowsOf(a) + RowsOf(b)
  {}

  lemma GrownTransitive(a: Customers, b: Customers, c: Customers)
    requires Grown(a, b) && Grown(b, c)
    ensures Grown(a, c)
  {
    forall s | s in a ensures s in c && a[s] <= c[s] {
      assert a[s] <= b[s] <= c[s];
    }
  }

  lemma StoredRows(rows: seq<RowData>, s: nat)
    ensures forall firstId :: RowsOf(Stored(rows, firstId, s)) == rows
    ensures forall firstId, i :: 0 <= i < |rows| ==> Stored(rows, firstId, s)[i] == Customer(firstId + i, rows[i], s)
  {
    forall firstId ensures RowsOf(Stored(rows, firstId, s)) == rows {
      assert |RowsOf(Stored(rows, firstId, s))| == |rows|;
    }
  }

  lemma InsertKeepsTables(m: Customers, nextId: map<nat, int>, ch: Children, s: nat, rows: seq<RowData>, firstId: int)
    requires TablesValid(m, nextId) && Linked(m, ch) && s in m && nextId[s] <= firstId
    ensures var m' := m[s := m[s] + Stored(rows, firstId, s)];
            TablesValid(m', nextId[s := firstId + |rows|]) && Linked(m', ch)
  {
    var m' := m[s := m[s] + Stored(rows, firstId, s)];
    assert TableValid(s, m[s] + Stored(rows, firstId, s), firstId + |rows|);
    assert Grown(m, m');
    LinkedGrown(m, m', ch);
  }

  lemma CreateKeepsTables(m: Customers, nextId: map<nat, int>, ch: Children, s: nat)
    requires TablesValid(m, nextId) && Linked(m, ch) && s !in m
    ensures TablesValid(m[s := []], nextId[s := 1]) && Linked(m[s := []], ch)
  {
    assert Grown(m, m[s := []]);
    LinkedGrown(m, m[s := []], ch);
  }

  lemma ExtendedTwice(ch: Children, key: (Kind, nat), a: seq<ChildRow>, b: seq<ChildRow>)
    ensures Extended(Extended(ch, key, a), key, b) == Extended(ch, key, a + b)
  {
    if a == [] {
      assert a + b == b;
    } else if b == [] {
      assert a + b == a;
    } else {
      var before := if key in ch then ch[key] else [];
      assert before + a + b == before + (a + b);
    }
  }

  lemma LinkedGrown(m: Customers, m': Customers, ch: Children)
    requires Linked(m, ch) && Grown(m, m')
    ensures Linked(m', ch)
  {
    forall key, i | key in ch && 0 <= i < |ch[key]|
      ensures Refers(m', key.1, ch[key][i])
    {
      assert Refers(m, key.1, ch[key][i]);
      var j :| 0 <= j < |m[key.1]| && m[key.1][j].id == ch[key][i].customerId
               && m[key.1][j].row.msisdn == Some(ch[key][i].msisdn);
      assert m'[key.1][j] == m[key.1][j];
    }
  }

  lemma LinkedExtended(m: Customers, ch: Children, key: (Kind, nat), rows: seq<ChildRow>)
    requires Linked(m, ch)
    requires forall i :: 0 <= i < |rows| ==> Refers(m, key.1, rows[i])
    ensures Linked(m, Extended(ch, key, rows))
  {
    var ch' := Extended(ch, key, rows);
    forall k, i | k in ch' && 0 <= i < |ch'[k]|
      ensures Refers(m, k.1, ch'[k][i])
    {
      if k == key && rows != [] {
        var before := if key in ch then ch[key] else [];
        assert ch'[k] == before + rows;
        if i >= |before| {
          assert ch'[k][i] == rows[i - |before|];
        }
      }
    }
  }

  /** A flush is one operation of the run, and appends its rows to those gained so far. */
  lemma FlushAdvances(p: Params, m: Customers, n: nat, split: nat, seen: nat, left: int, added: seq<Customer>)
    requires p.Valid() && Splits(m, n) && split in m && seen < p.cap && |added| == Min(p.batch, left) > 0
    ensures var m' := Appended(m, split, added);
            && Splits(m', n) && Grown(m, m')
            && Progress(RowCounts(m', n), split, seen + |added|, left - |added|)
               == Advance(p, Progress(RowCounts(m, n), split, seen, left))
  {
    var m', counts := Appended(m, split, added), RowCounts(m, n);
    assert RowCounts(m', n) == counts[split - 1 := counts[split - 1] + |added|];
  }

  /** The tables once split n' exists. */
  ghost function WithSplit(m: Customers, s: nat): Customers {
    if s in m then m else m[s := []]
  }

  /** Opening the next split, which may exist, is one operation too. */
  lemma OpenAdvances(p: Params, m: Customers, n: nat, split: nat, seen: nat, left: int)
    requires p.Valid() && Splits(m, n) && split in m && seen >= p.cap && left > 0
    ensures var m', n' := WithSplit(m, split + 1), if split + 1 in m then n else n + 1;
            && Splits(m', n') && Grown(m, m') && split + 1 in m'
            && Progress(RowCounts(m', n'), split + 1, 0, left)
               == Advance(p, Progress(RowCounts(m, n), split, seen, left))
  {
    if split + 1 !in m {
      assert RowCounts(m[n + 1 := []], n + 1) == RowCounts(m, n) + [0];
    }
  }

  // ---------- rows gained ----------

  /** The rows splits 1..n gained, in order of splits. */
  ghost function GainedRows(m0: Customers, m: Customers, n: nat): seq<RowData> {
    if n == 0 then [] else GainedRows(m0, m, n - 1) + RowsOf(Gained(m0, m, n))
  }

  lemma {:induction false} GainedRowsFrame(m0: Customers, m: Customers, m': Customers, n: nat)
    requires forall s: nat :: 1 <= s <= n ==> Gained(m0, m, s) == Gained(m0, m', s)
    ensures GainedRows(m0, m, n) == GainedRows(m0, m', n)
  {
    if n > 0 {
      GainedRowsFrame(m0, m, m', n - 1);
    }
  }

  lemma {:induction false} GainedRowsNone(m0: Customers, m: Customers, lo: nat, n: nat)
    requires lo <= n && forall s: nat :: lo < s ==> Gained(m0, m, s) == []
    ensures GainedRows(m0, m, n) == GainedRows(m0, m, lo)
  {
    if lo < n {
      GainedRowsNone(m0, m, lo, n - 1);
      assert RowsOf([]) == [];
    }
  }

  /** Rows appended to the last split that gained any come last. */
  lemma GainedRowsAppend(m0: Customers, m: Customers, n: nat, split: nat, added: seq<Customer>)
    requires Grown(m0, m) && Splits(m, n) && split in m && Grown(m0, Appended(m, split, added))
    requires forall s: nat :: s > split ==> Gained(m0, m, s) == []
    ensures GainedRows(m0, Appended(m, split, added), n) == GainedRows(m0, m, n) + RowsOf(added)
  {
    var m' := Appended(m, split, added);
    assert 1 <= split <= n;
    GainedEach(m0, m, split, added);
    hide *;
    GainedRowsNone(m0, m, split, n);
    GainedRowsNone(m0, m', split, n);
    GainedRowsLast(m0, m, m', split, added);
  }

  lemma GainedRowsLast(m0: Customers, m: Customers, m': Customers, split: nat, added: seq<Customer>)
    requires split >= 1 && Gained(m0, m', split) == Gained(m0, m, split) + added
    requires forall s: nat :: 1 <= s < split ==> Gained(m0, m, s) == Gained(m0, m', s)
    ensures GainedRows(m0, m', split) == GainedRows(m0, m, split) + RowsOf(added)
  {
    hide *;
    GainedRowsFrame(m0, m, m', split - 1);
    RowsOfAppend(Gained(m0, m, split), added);
    GainedRowsNext(m0, m, split);
    GainedRowsNext(m0, m', split);
    Associate(GainedRows(m0, m, split - 1), RowsOf(Gained(m0, m, split)), RowsOf(added));
  }

  lemma GainedRowsNext(m0: Customers, m: Customers, n: nat)
    requires n > 0
    ensures GainedRows(m0, m, n) == GainedRows(m0, m, n - 1) + RowsOf(Gained(m0, m, n))
  {}

  lemma GainedEach(m0: Customers, m: Customers, split: nat, added: seq<Customer>)
    requires Grown(m0, m) && split in m && Grown(m0, Appended(m, split, added))
    ensures Gained(m0, Appended(m, split, added), split) == Gained(m0, m, split) + added
    ensures forall s: nat :: s != split ==> Gained(m0, Appended(m, split, added), s) == Gained(m0, m, s)
  {
    GainedAppend(m0, m, split, added, split);
    forall s: nat | s != split ensures Gained(m0, Appended(m, split, added), s) == Gained(m0, m, s) {
      GainedAppend(m0, m, split, added, s);
    }
  }

  /** When only the last split of m0 and later ones gained rows, these follow all rows of m0. */
  lemma {:induction false} AllRowsGained(m0: Customers, n0: nat, m: Customers, n: nat)
    requires Splits(m0, n0) && 1 <= n0 <= n && Grown(m0, m)
    requires forall s: nat :: s < n0 ==> Gained(m0, m, s) == []
    ensures AllRows(m, n) == AllRows(m0, n0) + GainedRows(m0, m, n)
  {
    if n == n0 {
      AllRowsGainedLast(m0, n0, m);
    } else {
      AllRowsGained(m0, n0, m, n - 1);
      assert Gained(m0, m, n) == Table(m, n) by { assert n !in m0; }
      hide *;
      AllRowsGainedNext(m0, n0, m, n);
    }
  }

  lemma AllRowsGainedNext(m0: Customers, n0: nat, m: Customers, n: nat)
    requires n > 0 && Gained(m0, m, n) == Table(m, n)
    requires AllRows(m, n - 1) == AllRows(m0, n0) + GainedRows(m0, m, n - 1)
    ensures AllRows(m, n) == AllRows(m0, n0) + GainedRows(m0, m, n)
  {
    hide *;
    GainedRowsNext(m0, m, n);
    AllRowsNext(m, n);
    Associate(AllRows(m0, n0), GainedRows(m0, m, n - 1), RowsOf(Table(m, n)));
  }

  lemma AllRowsGainedLast(m0: Customers, n: nat, m: Customers)
    requires Splits(m0, n) && n >= 1 && Grown(m0, m)
    requires forall s: nat :: s < n ==> Gained(m0, m, s) == []
    ensures AllRows(m, n) == AllRows(m0, n) + GainedRows(m0, m, n)
  {
    SameBelow(m0, n, m);
    hide *;
    assert forall s: nat :: s <= n - 1 ==> Gained(m0, m, s) == [];
    AllRowsFrame(m0, m, n - 1);
    NothingGainedRows(m0, m, n - 1);
    LastGained(m0, m, n);
  }

  lemma LastGained(m0: Customers, m: Customers, n: nat)
    requires n > 0 && AllRows(m0, n - 1) == AllRows(m, n - 1) && GainedRows(m0, m, n - 1) == []
    requires Table(m, n) == Table(m0, n) + Gained(m0, m, n)
    ensures AllRows(m, n) == AllRows(m0, n) + GainedRows(m0, m, n)
  {
    hide *;
    var gained := RowsOf(Gained(m0, m, n));
    GainedRowsNext(m0, m, n);
    assert GainedRows(m0, m, n) == gained;
    AllRowsNext(m, n);
    AllRowsNext(m0, n);
    RowsOfAppend(Table(m0, n), Gained(m0, m, n));
    Associate(AllRows(m0, n - 1), RowsOf(Table(m0, n)), gained);
  }

  lemma AllRowsNext(m: Customers, n: nat)
    requires n > 0
    ensures AllRows(m, n) == AllRows(m, n - 1) + RowsOf(Table(m, n))
  {}

  lemma SameBelow(m0: Customers, n0: nat, m: Customers)
    requires Splits(m0, n0) && n0 >= 1 && Grown(m0, m)
    requires forall s: nat :: s < n0 ==> Gained(m0, m, s) == []
    ensures forall s: nat :: 1 <= s < n0 ==> Table(m, s) == Table(m0, s)
    ensures Table(m, n0) == Table(m0, n0) + Gained(m0, m, n0)
  {
    forall s: nat | 1 <= s < n0 ensures Table(m, s) == Table(m0, s) {
      assert m0[s] <= m[s] && Gained(m0, m, s) == [];
    }
    assert m0[n0] <= m[n0];
  }

  lemma {:induction false} NothingGainedRows(m0: Customers, m: Customers, n: nat)
    requires forall s: nat :: s <= n ==> Gained(m0, m, s) == []
    ensures GainedRows(m0, m, n) == []
  {
    if n > 0 {
      NothingGainedRows(m0, m, n - 1);
      assert RowsOf([]) == [];
    }
  }

  lemma RememberedFlush(m0: Customers, m: Customers, n: nat, added: seq<Customer>, rs: seq<Record>)
    requires n in m && Grown(m0, m) && Remembered(m0, m, rs)
    requires forall i :: 0 <= i < |added| ==> added[i].tableSplit == n
    requires Grown(m0, m[n := m[n] + added])
    ensures Remembered(m0, m[n := m[n] + added], rs + Records(added))
  {
    var m' := m[n := m[n] + added];
    forall s: nat ensures Select(rs + Records(added), s) == Records(Gained(m0, m', s)) {
      SelectAppend(rs, Records(added), s);
      SelectOwn(added, n, s);
      GainedAppend(m0, m, n, added, s);
      if s == n {
        RecordsAppend(Gained(m0, m, n), added);
      }
    }
  }

  lemma GainedAppend(m0: Customers, m: Customers, n: nat, added: seq<Customer>, s: nat)
    requires n in m && Grown(m0, m) && Grown(m0, m[n := m[n] + added])
    ensures Gained(m0, m[n := m[n] + added], s) == if s == n then Gained(m0, m, s) + added else Gained(m0, m, s)
  {
    if s == n && n in m0 {
      assert m0[n] <= m[n];
    }
  }

  lemma RememberedOpen(m0: Customers, m: Customers, s: nat, rs: seq<Record>)
    requires Grown(m0, m) && Remembered(m0, m, rs) && s !in m
    ensures Remembered(m0, m[s := []], rs)
  {
    assert s !in m0;
    forall t: nat ensures Select(rs, t) == Records(Gained(m0, m[s := []], t)) {
      assert Gained(m0, m[s := []], t) == Gained(m0, m, t);
    }
  }

  // ---------- child rows ----------

  lemma {:induction false} PortedIff(rs: seq<Record>, ported: Record -> bool, r: Record)
    ensures r in Ported(rs, ported) <==> r in rs && ported(r)
  {
    if rs != [] {
      PortedIff(rs[..|rs| - 1], ported, r);
      assert rs == rs[..|rs| - 1] + [rs[|rs| - 1]];
    }
  }

  /** Every row of a child table is that of one of the records. */
  lemma RowsForMember(kind: Kind, rs: seq<Record>, ported: Record -> bool, row: ChildRow)
    requires row in RowsFor(kind, rs, ported)
    ensures row in ChildRows(rs)
  {
    if kind == PortHistory {
      var chosen := Ported(rs, ported);
      var i :| 0 <= i < |chosen| && row == ChildRows(chosen)[i];
      PortedIff(rs, ported, chosen[i]);
      var j :| 0 <= j < |rs| && rs[j] == chosen[i];
      assert ChildRows(rs)[j] == row;
    }
  }

  /** Everything a run remembers can be referred to. */
  lemma RememberedRefer(m0: Customers, m: Customers, nextId: map<nat, int>, rs: seq<Record>, s: nat)
    requires Remembered(m0, m, rs) && TablesValid(m, nextId)
    ensures forall r :: r in ChildRows(Select(rs, s)) ==> Refers(m, s, r)
  {
    var all := Select(rs, s);
    forall i | 0 <= i < |all|
      ensures Refers(m, s, ChildRow(all[i].id, all[i].msisdn, all[i].split))
    {
      RecordRefers(m0, m, nextId, rs, s, all[i]);
    }
  }

  lemma RecordRefers(m0: Customers, m: Customers, nextId: map<nat, int>, rs: seq<Record>, s: nat, r: Record)
    requires Remembered(m0, m, rs) && TablesValid(m, nextId)
    requires r in Select(rs, s)
    ensures Refers(m, s, ChildRow(r.id, r.msisdn, r.split))
  {
    assert r in Records(Gained(m0, m, s));
    if s in m {
      assert TableValid(s, m[s], nextId[s]);
      var lo := Min(|Table(m0, s)|, |m[s]|);
      assert m[s][lo..|m[s]|] == Gained(m0, m, s);
      hide Select;
      hide Records;
      hide Refers;
      RecordsRefer(m, s, lo, |m[s]|, r);
    }
  }

  /** What a successful run adds to the child tables of one split whose new customers with a
      number have the given records: one row each, in the port history one for each chosen one. */
  ghost predicate SplitSeeded(ch: Children, ch': Children, s: nat, rs: seq<Record>, ported: Record -> bool) {
    forall kind: Kind :: ChildAt(ch', (kind, s)) == ChildAt(ch, (kind, s)) + RowsFor(kind, rs, ported)
  }

  /** So every customer with a number has its row in each child table, in the port history when
      chosen, and the tables gained nothing else. */
  lemma EveryCustomerSeeded(ch: Children, ch': Children, s: nat, cs: seq<Customer>, ported: Record -> bool, c: Customer,
                            kind: Kind)
    requires SplitSeeded(ch, ch', s, Records(cs), ported) && c in cs
    requires c.row.msisdn.Some? && c.row.msisdn.value != ""
    requires kind == PortHistory ==> ported(Record(c.id, c.row.msisdn.value, c.tableSplit))
    ensures (kind, s) in ch' && ChildRow(c.id, c.row.msisdn.value, c.tableSplit) in ch'[(kind, s)]
    ensures kind != PortHistory ==> |ch'[(kind, s)]| == |ChildAt(ch, (kind, s))| + |Records(cs)|
  {
    hide Records, RowsFor;
    var r := Record(c.id, c.row.msisdn.value, c.tableSplit);
    var i: nat :| i < |cs| && cs[i] == c;
    RecordsIff(cs, r);
    RowOfRecord(kind, Records(cs), ported, r);
    assert ChildAt(ch', (kind, s)) == ChildAt(ch, (kind, s)) + RowsFor(kind, Records(cs), ported);
  }

  lemma RowOfRecord(kind: Kind, rs: seq<Record>, ported: Record -> bool, r: Record)
    requires r in rs && (kind == PortHistory ==> ported(r))
    ensures ChildRow(r.id, r.msisdn, r.split) in RowsFor(kind, rs, ported)
    ensures kind != PortHistory ==> |RowsFor(kind, rs, ported)| == |rs|
  {
    PortedIff(rs, ported, r);
    hide Ported;
    var chosen := if kind == PortHistory then Ported(rs, ported) else rs;
    var i: nat :| i < |chosen| && chosen[i] == r;
    assert RowsFor(kind, rs, ported)[i] == ChildRow(r.id, r.msisdn, r.split);
  }
}
