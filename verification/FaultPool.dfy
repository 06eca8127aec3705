/** Deterministic pools with injected faults: every interval-th record is damaged, the kinds of
    damage taking turns. */
module FaultPool {

  import opened Wrappers
  import Arith
  import Strconv

  function Interval(percent: int): (k: nat)
    ensures k > 0 <==> 1 <= percent <= 100
  {
    if 0 < percent <= 100 then 100 / percent else 0
  }

  predicate FaultAt(percent: int, i: nat) {
    Interval(percent) > 0 && (i + 1) % Interval(percent) == 0
  }

  /** Position of a fault among the faults. */
  function Ordinal(percent: int, i: nat): nat {
    if Interval(percent) > 0 then Max((i + 1) / Interval(percent) - 1, 0) else 0
  }

  /** Number of faults among the first n records. */
  function Faults(percent: int, n: nat): nat {
    if n == 0 then 0 else Faults(percent, n - 1) + if FaultAt(percent, n - 1) then 1 else 0
  }

  /** Number of faults of one kind among the first n records, the kinds taking turns. */
  function FaultsOfKind(percent: int, n: nat, kinds: nat, kind: nat): nat
    requires kinds > 0
  {
    if n == 0 then 0
    else
      FaultsOfKind(percent, n - 1, kinds, kind)
      + if FaultAt(percent, n - 1) && Ordinal(percent, n - 1) % kinds == kind then 1 else 0
  }

  /** The pool: damaged where a fault falls, the k-th fault with turn k. */
  function Mixed<T>(n: nat, percent: int, clean: nat -> T, damage: (T, nat) -> T): seq<T> {
    seq(n, i requires 0 <= i < n =>
      if FaultAt(percent, i) then damage(clean(i), Ordinal(percent, i)) else clean(i))
  }

  /** The generators' loop, which counts faults as it goes instead of dividing. */
  method GenerateMixed<T>(n: nat, percent: int, clean: nat -> T, damage: (T, nat) -> T)
    returns (rows: seq<T>)
    ensures rows == Mixed(n, percent, clean, damage)
  {
    var pool := new T[n](i => clean(i));
    var interval := 0;
    if 0 < percent <= 100 {
      interval := 100 / percent;
    }
    var faultSeq := 0;
    for i := 0 to n
      invariant 0 <= faultSeq == Faults(percent, i)
      invariant forall j :: 0 <= j < i ==> pool[j] == Mixed(n, percent, clean, damage)[j]
    {
      var row := clean(i);
      if interval > 0 && (i + 1) % interval == 0 {
        OrdinalIsCount(percent, i);
        row := damage(row, faultSeq);
        faultSeq := faultSeq + 1;
      }
      pool[i] := row;
    }
    rows := pool[..];
  }

  // ---------- arithmetic ----------

  lemma QuotientStep(n: nat, k: nat)
    requires k > 0
    ensures (n + 1) / k == n / k + if (n + 1) % k == 0 then 1 else 0
  {
    Arith.DivMod(n, k);
    Arith.Distribute(k, n / k, 1);
    if n % k == k - 1 {
      Arith.DivUnique(n + 1, k, n / k + 1, 0);
    } else {
      Arith.DivUnique(n + 1, k, n / k, n % k + 1);
    }
  }

  /** The number of faults is the number of whole intervals. */
  lemma {:induction false} FaultsIsQuotient(percent: int, n: nat)
    ensures Faults(percent, n) == if Interval(percent) > 0 then n / Interval(percent) else 0
  {
    var k := Interval(percent);
    if k > 0 {
      if n == 0 {
        Arith.DivUnique(0, k, 0, 0);
      } else {
        FaultsIsQuotient(percent, n - 1);
        QuotientStep(n - 1, k);
      }
    } else if n > 0 {
      FaultsIsQuotient(percent, n - 1);
    }
  }

  lemma OrdinalIsCount(percent: int, i: nat)
    requires FaultAt(percent, i)
    ensures Ordinal(percent, i) == Faults(percent, i)
  {
    hide Interval;
    FaultsIsQuotient(percent, i);
    QuotientStep(i, Interval(percent));
    Arith.DivMod(i, Interval(percent));
    assert i / Interval(percent) >= 0;
  }

  /** No more than one interval is needed per fault, and two intervals exceed a hundred. */
  lemma IntervalBounds(percent: int)
    requires 1 <= percent <= 100
    ensures var k := Interval(percent);
            k * percent <= 100 < 2 * (k * percent) && k >= 1
    ensures Interval(percent) * percent == 100 <==> 100 % percent == 0
  {
    Arith.DivMod(100, percent);
    var k := Interval(percent);
    if k < 1 {
      assert false;
    }
    Arith.MulMonotone(percent, 1, k);
  }

  /** At least the asked share of records is damaged, rounded down, and less than twice it. */
  lemma FaultRate(percent: int, n: nat)
    requires 1 <= percent <= 100
    ensures (n * percent) / 100 <= Faults(percent, n)
    ensures n > 0 ==> 100 * Faults(percent, n) < 2 * (n * percent)
  {
    hide Interval, Faults;
    var k, f := Interval(percent), Faults(percent, n);
    IntervalBounds(percent);
    FaultsIsQuotient(percent, n);
    Arith.DivMod(n, k);
    RateLower(n, percent, k, f, (n * percent) / 100);
    RateUpper(n, percent, k, f);
  }

  lemma RateLower(n: nat, p: nat, k: nat, f: nat, q: nat)
    requires k >= 1 && p >= 1 && k * p <= 100 && n < k * f + k
    requires 100 * q <= n * p
    ensures q <= f
  {
    if q > f {
      Arith.MulMonotone(k, f + 1, q);
      Arith.Distribute(k, f, 1);
      assert n < k * q;
      Arith.MulMonotone(p, n + 1, k * q);
      Arith.Distribute(p, n, 1);
      assert n * p < (k * q) * p;
      Arith.Associate(q, k, p);
      Arith.MulMonotone(q, k * p, 100);
      assert false;
    }
  }

  lemma RateUpper(n: nat, p: nat, k: nat, f: nat)
    requires k >= 1 && p >= 1 && 100 < 2 * (k * p) && k * f <= n
    ensures n > 0 ==> 100 * f < 2 * (n * p)
  {
    if n > 0 {
      Arith.MulMonotone(p, 1, n);
      Arith.MulMonotone(n, 1, p);
      if f > 0 {
        Arith.MulMonotone(f, 101, 2 * (k * p));
        Arith.MulMonotone(p, k * f, n);
        assert f * (k * p) == (k * f) * p by { Arith.Associate(f, k, p); }
        assert f * (2 * (k * p)) == 2 * (f * (k * p)) by { Arith.Associate(f, 2, k * p); }
        assert n * p == p * n;
      }
    }
  }

  lemma ExactWhenDivides(percent: int, n: nat)
    requires 1 <= percent <= 100 && 100 % percent == 0
    ensures Faults(percent, n) == (n * percent) / 100
  {
    hide Interval, Faults;
    var k := Interval(percent);
    IntervalBounds(percent);
    FaultsIsQuotient(percent, n);
    FaultRate(percent, n);
    Arith.DivMod(n, k);
    Arith.MulMonotone(percent, k * (n / k), n);
    assert (k * (n / k)) * percent == 100 * (n / k) by { Arith.Associate(n / k, k, percent); }
  }

  /** The rate is met exactly for every pool size if and only if it divides a hundred. The
      first fault of any other rate already comes too early. */
  lemma ExactRateIff(percent: int)
    requires 1 <= percent <= 100
    ensures (forall n: nat :: Faults(percent, n) == (n * percent) / 100) <==> 100 % percent == 0
  {
    hide Interval, Faults;
    if 100 % percent == 0 {
      forall n: nat ensures Faults(percent, n) == (n * percent) / 100 {
        ExactWhenDivides(percent, n);
      }
    } else {
      var k := Interval(percent);
      IntervalBounds(percent);
      FaultsIsQuotient(percent, k);
      Arith.DivUnique(k, k, 1, 0);
      assert Faults(percent, k) == 1;
      assert k * percent < 100;
    }
  }

  /** Kinds take turns: each gets its round-robin share, so two counts differ by at most one,
      the earlier kind never behind. */
  lemma {:induction false} KindsShare(percent: int, n: nat, kinds: nat, kind: nat)
    requires kind < kinds
    ensures FaultsOfKind(percent, n, kinds, kind) == (Faults(percent, n) + kinds - 1 - kind) / kinds
  {
    hide FaultAt, Ordinal;
    if n == 0 {
      Arith.DivUnique(kinds - 1 - kind, kinds, 0, kinds - 1 - kind);
    } else {
      KindsShare(percent, n - 1, kinds, kind);
      if FaultAt(percent, n - 1) {
        OrdinalIsCount(percent, n - 1);
        ShareStep(Faults(percent, n - 1), kinds, kind);
      }
    }
  }

  lemma ShareStep(f: nat, kinds: nat, kind: nat)
    requires kind < kinds
    ensures (f + 1 + kinds - 1 - kind) / kinds
            == (f + kinds - 1 - kind) / kinds + if f % kinds == kind then 1 else 0
  {
    var q, r := f / kinds, f % kinds;
    Arith.DivMod(f, kinds);
    Arith.Distribute(kinds, q, 1);
    QuotientStep(f + kinds - 1 - kind, kinds);
    if r >= kind {
      Arith.DivUnique(f + kinds - kind, kinds, q + 1, r - kind);
    } else {
      Arith.DivUnique(f + kinds - kind, kinds, q, r + kinds - kind);
    }
  }

  lemma KindsBalanced(percent: int, n: nat, kinds: nat, a: nat, b: nat)
    requires a < b < kinds
    ensures var x, y := FaultsOfKind(percent, n, kinds, a), FaultsOfKind(percent, n, kinds, b);
            y <= x <= y + 1
  {
    hide FaultsOfKind, Faults;
    var f := Faults(percent, n);
    KindsShare(percent, n, kinds, a);
    KindsShare(percent, n, kinds, b);
    var u, v := f + kinds - 1 - a, f + kinds - 1 - b;
    Arith.DivMod(u, kinds);
    Arith.DivMod(v, kinds);
    Arith.Distribute(kinds, u / kinds, 1);
    Arith.Distribute(kinds, v / kinds, 1);
    Arith.Distribute(kinds, v / kinds, 2);
    if u / kinds < v / kinds {
      Arith.MulMonotone(kinds, u / kinds + 1, v / kinds);
      assert false;
    } else if u / kinds > v / kinds + 1 {
      Arith.MulMonotone(kinds, v / kinds + 2, u / kinds);
      assert false;
    }
  }

  // ---------- order events ----------

  const INVALID: string := "INVALID_TIMESTAMP"
  const MARKER: string := "_fault_inject"

  datatype OrderEvent = OrderEvent(id: nat, city: string, createdAt: string, payload: map<string, string>)

  function DamageEvent(e: OrderEvent, turn: nat): OrderEvent {
    match turn % 3
    case 0 => e.(city := "")
    case 1 => e.(createdAt := INVALID)
    case _ => e.(payload := e.payload[MARKER := "error"])
  }

  /** The failure path an event takes downstream. */
  function EventDefect(e: OrderEvent): Option<nat> {
    if e.city == "" then Some(0)
    else if e.createdAt == INVALID then Some(1)
    else if MARKER in e.payload then Some(2)
    else None
  }

  // ---------- stock movements ----------

  const CENTERS: seq<string> := ["FC-BLR-01", "FC-DEL-01", "FC-MUM-01", "FC-HYD-01", "FC-PNE-01", "FC-KOL-01"]
  const MOVEMENTS: seq<string> := ["PUTAWAY", "PICK", "RETURN", "DAMAGE", "ADJUSTMENT"]

  datatype Movement = Movement(id: nat, fc: string, sku: nat, kind: string, quantity: int, operator: nat)

  function CleanMovement(i: nat): Movement {
    var kind := MOVEMENTS[i % 5];
    var sign := if kind == "PICK" || kind == "DAMAGE" || (kind == "ADJUSTMENT" && i % 2 == 0) then -1 else 1;
    Movement(i + 1, CENTERS[i % 6], i % 2000 + 1, kind, (1 + i % 20) * sign, i % 50 + 1)
  }

  function DamageMovement(m: Movement, turn: nat): Movement {
    if turn % 2 == 0 then m.(fc := "") else m.(kind := "UNKNOWN")
  }

  function MovementDefect(m: Movement): Option<nat> {
    if m.fc == "" then Some(0) else if m.kind == "UNKNOWN" then Some(1) else None
  }

  // ---------- inventory snapshots ----------

  datatype Snapshot = Snapshot(fc: string, seller: nat, sku: string, onHand: int, reserved: int, date: string)

  function CleanSnapshot(date: string, i: nat): Snapshot {
    Snapshot(CENTERS[i % 6], i % 500 + 1, "SKU-" + Strconv.FormatPadded(i + 1, 8), 50 + i % 500, i % 20, date)
  }

  function DamageSnapshot(s: Snapshot, turn: nat): Snapshot {
    if turn % 2 == 0 then s.(sku := "") else s.(onHand := -1)
  }

  function SnapshotDefect(s: Snapshot): Option<nat> {
    if s.sku == "" then Some(0) else if s.onHand == -1 then Some(1) else None
  }

  // ---------- what consumers see ----------

  /** A damage function shows exactly the kind of its turn on every record that shows none. */
  ghost predicate Faithful<T(!new)>(clean: nat -> T, damage: (T, nat) -> T, defect: T -> Option<nat>, kinds: nat)
  {
    && kinds > 0
    && (forall i: nat :: defect(clean(i)) == None)
    && (forall i: nat, turn: nat :: defect(damage(clean(i), turn)) == Some(turn % kinds))
  }

  /** The mixed pool differs from the clean one exactly at multiples of the interval, and the
      k-th fault is of kind k modulo the number of kinds. */
  lemma FaultsExactlyThere<T(!new)>(n: nat, percent: int, clean: nat -> T, damage: (T, nat) -> T,
                                    defect: T -> Option<nat>, kinds: nat, i: nat)
    requires Faithful(clean, damage, defect, kinds) && i < n
    ensures var rows := Mixed(n, percent, clean, damage);
            && (rows[i] != clean(i) <==> FaultAt(percent, i))
            && defect(rows[i]) == if FaultAt(percent, i) then Some(Faults(percent, i) % kinds) else None
  {
    hide FaultAt, Ordinal, Faults;
    assert defect(clean(i)) == None;
    var turn := Ordinal(percent, i);
    assert defect(damage(clean(i), turn)) == Some(turn % kinds);
    if FaultAt(percent, i) {
      OrdinalIsCount(percent, i);
    }
  }

  /** Whatever damage leaves alone is that of the record itself, at every place of the pool. */
  lemma UndamagedParts<T(!new), P(!new)>(n: nat, percent: int, clean: nat -> T, damage: (T, nat) -> T, part: T -> P,
                                         i: nat)
    requires i < n && forall x: T, turn: nat :: part(damage(x, turn)) == part(x)
    ensures |Mixed(n, percent, clean, damage)| == n
    ensures part(Mixed(n, percent, clean, damage)[i]) == part(clean(i))
  {}

  lemma MixedAt<T>(n: nat, percent: int, clean: nat -> T, damage: (T, nat) -> T, i: nat)
    requires i < n
    ensures |Mixed(n, percent, clean, damage)| == n
    ensures Mixed(n, percent, clean, damage)[i]
            == if FaultAt(percent, i) then damage(clean(i), Faults(percent, i)) else clean(i)
  {
    hide Faults, Interval;
    if FaultAt(percent, i) {
      OrdinalIsCount(percent, i);
    }
  }

  /** Field by field: an event keeps everything but what the turn of its fault names. */
  lemma EventAt(n: nat, percent: int, events: nat -> OrderEvent, i: nat)
    requires i < n
    ensures var row, e, k := Mixed(n, percent, events, DamageEvent)[i], events(i), Faults(percent, i);
            && row.id == e.id
            && (!FaultAt(percent, i) ==> row == e)
            && (FaultAt(percent, i) ==>
                  && row.city == (if k % 3 == 0 then "" else e.city)
                  && row.createdAt == (if k % 3 == 1 then "INVALID_TIMESTAMP" else e.createdAt)
                  && (k % 3 != 2 ==> row.payload == e.payload)
                  && (k % 3 == 2 ==>
                        && row.payload.Keys == e.payload.Keys + {"_fault_inject"}
                        && row.payload["_fault_inject"] == "error"
                        && forall key :: key in e.payload && key != "_fault_inject" ==>
                             row.payload[key] == e.payload[key]))
  {
    hide Faults, FaultAt, Mixed;
    MixedAt(n, percent, events, DamageEvent, i);
  }

  lemma MovementAt(n: nat, percent: int, i: nat)
    requires i < n
    ensures var row, m, k := Mixed(n, percent, CleanMovement, DamageMovement)[i], CleanMovement(i), Faults(percent, i);
            && row.id == m.id && row.sku == m.sku && row.quantity == m.quantity && row.operator == m.operator
            && (!FaultAt(percent, i) ==> row == m)
            && (FaultAt(percent, i) ==>
                  && row.fc == (if k % 2 == 0 then "" else m.fc)
                  && row.kind == (if k % 2 == 1 then "UNKNOWN" else m.kind))
  {
    hide Faults, FaultAt, Mixed, CleanMovement;
    MixedAt(n, percent, CleanMovement, DamageMovement, i);
  }

  lemma SnapshotAt(n: nat, percent: int, date: string, i: nat)
    requires i < n
    ensures var clean := (j: nat) => CleanSnapshot(date, j);
            var row, s, k := Mixed(n, percent, clean, DamageSnapshot)[i], CleanSnapshot(date, i), Faults(percent, i);
            && row.fc == s.fc && row.seller == s.seller && row.reserved == s.reserved && row.date == s.date
            && (!FaultAt(percent, i) ==> row == s)
            && (FaultAt(percent, i) ==>
                  && row.sku == (if k % 2 == 0 then "" else s.sku)
                  && row.onHand == (if k % 2 == 1 then -1 else s.onHand))
  {
    hide Faults, FaultAt, Mixed, CleanSnapshot;
    MixedAt(n, percent, (j: nat) => CleanSnapshot(date, j), DamageSnapshot, i);
  }

  /** Clean snapshots never reserve more than there is, and no two share a stock number. */
  lemma SnapshotClean(date: string, i: nat, j: nat)
    ensures SnapshotDefect(CleanSnapshot(date, i)) == None
    ensures 0 <= CleanSnapshot(date, i).reserved < 20 < 50 <= CleanSnapshot(date, i).onHand < 550
    ensures CleanSnapshot(date, i).sku == CleanSnapshot(date, j).sku ==> i == j
    ensures CleanSnapshot(date, i).date == date && 1 <= CleanSnapshot(date, i).seller <= 500
    ensures CleanSnapshot(date, i).seller == CleanSnapshot(date, j).seller <==> i % 500 == j % 500
  {
    hide Strconv.FormatPadded, Strconv.Value;
    var a, b := CleanSnapshot(date, i).sku, CleanSnapshot(date, j).sku;
    if a == b {
      assert a[4..] == Strconv.FormatPadded(i + 1, 8) && b[4..] == Strconv.FormatPadded(j + 1, 8);
      Strconv.ValueOfPadded(i + 1, 8);
      Strconv.ValueOfPadded(j + 1, 8);
    }
  }

  /** Number of records of a pool that show a defect. */
  function Defects<T>(rows: seq<T>, defect: T -> Option<nat>, kind: nat): nat {
    if rows == [] then 0
    else
      Defects(rows[..|rows| - 1], defect, kind) + if defect(rows[|rows| - 1]) == Some(kind) then 1 else 0
  }

  /** Counting the defects of the records gives the fault arithmetic above. */
  lemma {:induction false} DefectsCounted<T(!new)>(n: nat, percent: int, clean: nat -> T, damage: (T, nat) -> T,
                                                   defect: T -> Option<nat>, kinds: nat, kind: nat)
    requires Faithful(clean, damage, defect, kinds) && kind < kinds
    ensures Defects(Mixed(n, percent, clean, damage), defect, kind) == FaultsOfKind(percent, n, kinds, kind)
  {
    if n > 0 {
      hide FaultAt, Ordinal, Faults, Faithful;
      DefectsCounted(n - 1, percent, clean, damage, defect, kinds, kind);
      var rows := Mixed(n, percent, clean, damage);
      assert rows[..n - 1] == Mixed(n - 1, percent, clean, damage);
      FaultsExactlyThere(n, percent, clean, damage, defect, kinds, n - 1);
      if FaultAt(percent, n - 1) {
        OrdinalIsCount(percent, n - 1);
      }
    }
  }

  /** All three generators are faithful, the events for any clean records: with a city, a time
      that is not the invalid one, and no fault marker. */
  lemma GeneratorsFaithful(events: nat -> OrderEvent, date: string)
    requires forall i: nat :: events(i).city != "" && events(i).createdAt != "INVALID_TIMESTAMP"
    requires forall i: nat :: "_fault_inject" !in events(i).payload
    ensures Faithful(events, DamageEvent, EventDefect, 3)
    ensures Faithful(CleanMovement, DamageMovement, MovementDefect, 2)
    ensures Faithful(i => CleanSnapshot(date, i), DamageSnapshot, SnapshotDefect, 2)
  {
    MovementsFaithful();
    SnapshotsFaithful(date);
    hide CleanMovement, CleanSnapshot;
  }

  lemma MovementsFaithful()
    ensures Faithful(CleanMovement, DamageMovement, MovementDefect, 2)
  {
    forall i: nat ensures MovementDefect(CleanMovement(i)) == None {
      MovementClean(i);
    }
    hide CleanMovement;
  }

  lemma SnapshotsFaithful(date: string)
    ensures Faithful(i => CleanSnapshot(date, i), DamageSnapshot, SnapshotDefect, 2)
  {
    forall i: nat ensures SnapshotDefect(CleanSnapshot(date, i)) == None {
      SnapshotClean(date, i, i);
    }
    hide CleanSnapshot;
  }

  /** Clean movements carry the sign of their kind, and at most 20 units. */
  lemma MovementClean(i: nat)
    ensures var m := CleanMovement(i);
            && MovementDefect(m) == None && m.id == i + 1
            && 1 <= m.sku <= 2000 && 1 <= m.operator <= 50
            && (m.kind in ["PUTAWAY", "RETURN"] ==> 1 <= m.quantity <= 20)
            && (m.kind in ["PICK", "DAMAGE"] ==> -20 <= m.quantity <= -1)
            && (m.kind == "ADJUSTMENT" ==> 1 <= (if i % 2 == 0 then -m.quantity else m.quantity) <= 20)
  {
    assert CENTERS[i % 6] != "" && MOVEMENTS[i % 5] != "UNKNOWN";
  }

  /** Each column goes round by itself: six centres, five kinds, 2000 stock numbers, 50 operators. */
  lemma MovementsCycle(i: nat, j: nat)
    ensures CleanMovement(i).fc == CleanMovement(j).fc <==> i % 6 == j % 6
    ensures CleanMovement(i).kind == CleanMovement(j).kind <==> i % 5 == j % 5
    ensures CleanMovement(i).sku == CleanMovement(j).sku <==> i % 2000 == j % 2000
    ensures CleanMovement(i).operator == CleanMovement(j).operator <==> i % 50 == j % 50
  {
    DistinctCenters(i % 6, j % 6);
    DistinctMovements(i % 5, j % 5);
  }

  lemma DistinctCenters(a: nat, b: nat)
    requires a < 6 && b < 6
    ensures CENTERS[a] == CENTERS[b] <==> a == b
  {
    assert CENTERS[0][3..] == "BLR-01";
    assert CENTERS[1][3..] == "DEL-01";
    assert CENTERS[2][3..] == "MUM-01";
    assert CENTERS[3][3..] == "HYD-01";
    assert CENTERS[4][3..] == "PNE-01";
    assert CENTERS[5][3..] == "KOL-01";
  }

  lemma DistinctMovements(a: nat, b: nat)
    requires a < 5 && b < 5
    ensures MOVEMENTS[a] == MOVEMENTS[b] <==> a == b
  {
    assert |MOVEMENTS[0]| == 7 && |MOVEMENTS[1]| == 4 && |MOVEMENTS[4]| == 10;
    assert MOVEMENTS[2][0] == 'R' && MOVEMENTS[3][0] == 'D';
  }

  lemma MovementExamples()
    ensures CleanMovement(0) == Movement(1, "FC-BLR-01", 1, "PUTAWAY", 1, 1)
    ensures CleanMovement(1) == Movement(2, "FC-DEL-01", 2, "PICK", -2, 2)
    ensures CleanMovement(2) == Movement(3, "FC-MUM-01", 3, "RETURN", 3, 3)
    ensures CleanMovement(3) == Movement(4, "FC-HYD-01", 4, "DAMAGE", -4, 4)
    ensures CleanMovement(4) == Movement(5, "FC-PNE-01", 5, "ADJUSTMENT", -5, 5)
    ensures CleanMovement(2005) == Movement(2006, "FC-DEL-01", 6, "PUTAWAY", 6, 6)
    ensures CleanMovement(5).fc == "FC-KOL-01"
  {}

  lemma SnapshotExample(date: string)
    ensures CleanSnapshot(date, 1520) == Snapshot("FC-MUM-01", 21, "SKU-00001521", 70, 0, date)
  {
    hide Strconv.FormatPadded;
    PaddedStockNumber();
  }

  lemma PaddedStockNumber()
    ensures Strconv.FormatPadded(1521, 8) == "00001521"
  {
    assert Strconv.Format(1521) == "1521" by {
      hide Strconv.Format;
      Strconv.AppendDigit(0, 1);
      Strconv.AppendDigit(1, 5);
      Strconv.AppendDigit(15, 2);
      Strconv.AppendDigit(152, 1);
    }
    hide Strconv.Format;
  }
}
