/** Movement part files: each run numbers its files after the highest number found in the
    directory and opens every one of them with truncation. */
module PartFiles {

  import opened Wrappers
  import opened Strconv
  import opened Seqs
  import Arith

  type Row = string

  datatype Node = Folder | File(rows: seq<Row>)

  type Dir = map<string, Node>

  // ---------- names ----------

  /** `%05d`, the sign counting towards the width. */
  function PrintNumber(n: int): string {
    if n < 0 then "-" + FormatPadded(-n, 4) else FormatPadded(n, 5)
  }

  function PartName(n: int): string {
    "part-" + PrintNumber(n) + ".avro"
  }

  /** The digits of a name of the form part-<digits>.avro. */
  function MatchPart(name: string): (m: Option<string>)
    ensures m.Some? ==> name == "part-" + m.value + ".avro" && AllDigits(m.value)
  {
    if |name| > 10 && name[..5] == "part-" && name[|name| - 5..] == ".avro" && Numeric(name[5..|name| - 5])
    then Some(name[5..|name| - 5])
    else None
  }

  /** The sequence number of a part name; names whose digits do not fit 64 bits have none. */
  function SeqOf(name: string): Option<int> {
    match MatchPart(name)
    case None => None
    case Some(digits) => var (n, ok) := Atoi(digits); if ok then Some(n) else None
  }

  lemma MatchOfName(digits: string)
    requires digits != "" && AllDigits(digits)
    ensures MatchPart("part-" + digits + ".avro") == Some(digits)
  {
    var name := "part-" + digits + ".avro";
    assert name[..5] == "part-";
    assert name[|name| - 5..] == ".avro";
    assert name[5..|name| - 5] == digits;
  }

  /** Exactly the names with nothing but decimal digits between prefix and suffix have a number,
      as long as it fits 64 bits. */
  lemma SeqOfIff(name: string, n: int)
    ensures SeqOf(name) == Some(n) <==>
            && 0 <= n <= MAX_INT
            && exists digits :: digits != "" && AllDigits(digits) && name == "part-" + digits + ".avro"
                                && Value(digits) == n
  {
    hide AllDigits, Value;
    if digits :| digits != "" && AllDigits(digits) && name == "part-" + digits + ".avro" && Value(digits) == n {
      MatchOfName(digits);
      DigitsParse(digits);
    }
    if MatchPart(name).Some? {
      DigitsParse(MatchPart(name).value);
    }
  }

  lemma DigitsParse(digits: string)
    requires digits != "" && AllDigits(digits)
    ensures Atoi(digits) == if Value(digits) <= MAX_INT then (Value(digits), true) else (MAX_INT, false)
  {
    hide Value;
    assert IsDigit(digits[0]);
  }

  /** Every number a run can print parses back, also beyond five digits. */
  lemma NameRoundTrip(n: nat)
    requires n <= MAX_INT
    ensures SeqOf(PartName(n)) == Some(n)
  {
    hide Atoi, Numeric, MatchPart, FormatPadded;
    AtoiOfFormat(n, 5);
    MatchOfName(FormatPadded(n, 5));
  }

  /** Names as they appear in the directory. */
  lemma NameExamples()
    ensures PartName(7) == "part-00007.avro"
    ensures PartName(123_456) == "part-123456.avro"
  {
    SixDigits();
    assert FormatPadded(7, 5) == "00007" by {
      assert Format(7) == "7";
    }
    hide FormatPadded;
  }

  lemma SixDigits()
    ensures FormatPadded(123_456, 5) == "123456"
  {
    assert Format(123_456) == "123456" by {
      hide Format;
      AppendDigit(0, 1);
      AppendDigit(1, 2);
      AppendDigit(12, 3);
      AppendDigit(123, 4);
      AppendDigit(1234, 5);
      AppendDigit(12_345, 6);
    }
    hide Format;
  }

  // ---------- the next number ----------

  ghost function Numbers(dir: Dir): set<int> {
    set name | name in dir && dir[name].File? && SeqOf(name).Some? :: SeqOf(name).value
  }

  ghost function MaxOf(s: set<int>): (m: int)
    requires s != {}
    ensures m in s
    ensures forall x :: x in s ==> x <= m
  {
    assert (forall x :: x !in s) ==> s == {};
    var x: int :| x in s;
    assert forall y :: y in s && y != x ==> y in s - {x};
    if s == {x} then x else Max(x, MaxOf(s - {x}))
  }

  /** One past the highest number present, wrapping like a 64-bit int. */
  ghost function NextSeq(dir: Dir): int {
    var s := Numbers(dir);
    if s == {} then 0
    else if MaxOf(s) == MAX_INT then -MAX_INT - 1
    else MaxOf(s) + 1
  }

  function Insert(x: int, s: seq<int>): (t: seq<int>)
    ensures multiset(t) == multiset{x} + multiset(s)
  {
    if s == [] || x <= s[0] then [x] + s else
      assert s == [s[0]] + s[1..];
      [s[0]] + Insert(x, s[1..])
  }

  function SortInts(s: seq<int>): (t: seq<int>)
    ensures multiset(t) == multiset(s)
  {
    if s == [] then [] else
      assert s == [s[0]] + s[1..];
      Insert(s[0], SortInts(s[1..]))
  }

  /** Ascending from a lower bound on. */
  predicate Ascending(s: seq<int>, low: int) {
    s != [] ==> low <= s[0] && Ascending(s[1..], s[0])
  }

  lemma {:induction false} InsertAscending(x: int, s: seq<int>, low: int)
    requires Ascending(s, low) && low <= x
    ensures Ascending(Insert(x, s), low)
  {
    if s != [] && x > s[0] {
      InsertAscending(x, s[1..], s[0]);
      assert Insert(x, s)[1..] == Insert(x, s[1..]);
    } else {
      assert Insert(x, s)[1..] == s;
    }
  }

  lemma {:induction false} SortAscending(s: seq<int>, low: int)
    requires forall x :: x in s ==> low <= x
    ensures Ascending(SortInts(s), low)
  {
    if s != [] {
      assert s[0] in s && forall x :: x in s[1..] ==> x in s;
      SortAscending(s[1..], low);
      assert forall x :: x in SortInts(s[1..]) ==> x in multiset(s[1..]);
      InsertAscending(s[0], SortInts(s[1..]), low);
    }
  }

  lemma {:induction false} LastIsMax(s: seq<int>, low: int)
    requires s != [] && Ascending(s, low)
    ensures low <= s[|s| - 1] && forall x :: x in s ==> x <= s[|s| - 1]
  {
    if |s| > 1 {
      LastIsMax(s[1..], s[0]);
      assert forall x :: x in s ==> x == s[0] || x in s[1..];
    }
  }

  lemma SortedLast(s: seq<int>)
    requires s != [] && forall x :: x in s ==> 0 <= x
    ensures |SortInts(s)| == |s| && SortInts(s)[|s| - 1] in s
    ensures forall x :: x in s ==> x <= SortInts(s)[|s| - 1]
  {
    var t := SortInts(s);
    assert |multiset(t)| == |multiset(s)|;
    SortAscending(s, 0);
    LastIsMax(t, 0);
    assert t[|s| - 1] in multiset(s);
    forall x | x in s ensures x <= t[|s| - 1] {
      assert x in multiset(s);
      assert x in t;
    }
  }

  lemma SeqOfRange(name: string)
    requires SeqOf(name).Some?
    ensures 0 <= SeqOf(name).value <= MAX_INT
  {
    var digits := MatchPart(name).value;
    assert digits != "" ==> IsDigit(digits[0]);
  }

  // ---------- one run ----------

  /** How writing one part ends: done, not opened, or stopped after some rows were stored. */
  datatype Outcome = Done | CannotOpen | Partial(stored: nat)

  datatype Run = Run(rows: seq<Row>, rowsPerPart: nat, outcome: nat -> Outcome)

  /** Writing one part: a folder of that name cannot be opened; otherwise the file is created
      or truncated, and holds what was stored of the part. */
  function WriteOne(dir: Dir, name: string, part: seq<Row>, outcome: Outcome): (Dir, bool) {
    if (name in dir && dir[name].Folder?) || outcome.CannotOpen? then (dir, false)
    else if outcome.Partial? then (dir[name := File(part[..Min(outcome.stored, |part|)])], false)
    else (dir[name := File(part)], true)
  }

  function PartAt(run: Run, start: nat): seq<Row> {
    if start >= |run.rows| then []
    else run.rows[start..Min(start + run.rowsPerPart, |run.rows|)]
  }

  /** The directory after writing the rows from part j of a run on; the run ends at the first
      part it cannot complete. */
  function WriteFrom(dir: Dir, first: int, run: Run, j: nat, start: nat): (Dir, bool)
    requires run.rowsPerPart > 0
    decreases |run.rows| - start
  {
    if start >= |run.rows| then (dir, true)
    else
      var (next, ok) := WriteOne(dir, PartName(Wrap(first + j)), PartAt(run, start), run.outcome(j));
      if ok then WriteFrom(next, first, run, j + 1, start + run.rowsPerPart) else (next, false)
  }

  function Wrap(n: int): int {
    if n > MAX_INT then n - 2 * (MAX_INT + 1) else n
  }

  /** A 64-bit int, and the same number modulo 2^64. */
  lemma WrapMeans(n: int)
    requires -MAX_INT - 1 <= n <= 3 * MAX_INT + 2
    ensures -MAX_INT - 1 <= Wrap(n) <= MAX_INT
    ensures Wrap(n) % 0x1_0000_0000_0000_0000 == n % 0x1_0000_0000_0000_0000
  {}

  ghost function AfterRun(dir: Dir, run: Run): (Dir, bool)
    requires run.rowsPerPart > 0
  {
    WriteFrom(dir, NextSeq(dir), run, 0, 0)
  }

  class Directory {
    var entries: Dir

    constructor ()
      ensures entries == map[]
    {
      entries := map[];
    }

    /** `listing` is the directory as read, in any order. */
    method NextPartSeq(listing: seq<string>) returns (n: int)
      requires forall name :: name in listing <==> name in entries
      ensures n == NextSeq(entries)
    {
      var seqs: seq<int> := [];
      for i := 0 to |listing|
        invariant forall x :: x in seqs ==> x in Numbers(entries)
        invariant forall k :: 0 <= k < i && entries[listing[k]].File? && SeqOf(listing[k]).Some? ==>
                    SeqOf(listing[k]).value in seqs
      {
        var name := listing[i];
        if entries[name].Folder? {
          continue;
        }
        var number := SeqOf(name);
        if number.None? {
          continue;
        }
        seqs := seqs + [number.value];
      }
      CollectedNumbers(entries, listing, seqs);
      if |seqs| == 0 {
        return 0;
      }
      seqs := SortInts(seqs);
      n := seqs[|seqs| - 1];
      n := if n == MAX_INT then -MAX_INT - 1 else n + 1;
    }

    method WritePart(name: string, rows: seq<Row>, outcome: Outcome) returns (ok: bool)
      modifies this
      ensures (entries, ok) == WriteOne(old(entries), name, rows, outcome)
    {
      if outcome.CannotOpen? || (name in entries && entries[name].Folder?) {
        return false;
      }
      entries := entries[name := File([])];
      for i := 0 to |rows|
        invariant entries == old(entries)[name := File(rows[..i])]
        invariant outcome.Partial? ==> i <= outcome.stored
      {
        if outcome.Partial? && i == outcome.stored {
          return false;
        }
        entries := entries[name := File(entries[name].rows + [rows[i]])];
        assert rows[..i] + [rows[i]] == rows[..i + 1];
      }
      assert rows[..|rows|] == rows;
      return !outcome.Partial?;
    }

    method Seed(listing: seq<string>, run: Run) returns (ok: bool)
      requires forall name :: name in listing <==> name in entries
      requires run.rowsPerPart > 0
      modifies this
      ensures (entries, ok) == AfterRun(old(entries), run)
    {
      hide NextSeq, PartName, Wrap;
      var next := NextPartSeq(listing);
      var partCount, start := 0, 0;
      while start < |run.rows|
        invariant 0 <= start && 0 <= partCount
        invariant WriteFrom(entries, next, run, partCount, start) == AfterRun(old(entries), run)
        decreases |run.rows| - start
      {
        var end := Min(start + run.rowsPerPart, |run.rows|);
        var written := WritePart(PartName(Wrap(next + partCount)), run.rows[start..end], run.outcome(partCount));
        if !written {
          return false;
        }
        partCount, start := partCount + 1, start + run.rowsPerPart;
      }
      return true;
    }
  }

  lemma CollectedNumbers(dir: Dir, listing: seq<string>, seqs: seq<int>)
    requires forall name :: name in listing <==> name in dir
    requires forall x :: x in seqs ==> x in Numbers(dir)
    requires forall k :: 0 <= k < |listing| && dir[listing[k]].File? && SeqOf(listing[k]).Some? ==>
               SeqOf(listing[k]).value in seqs
    ensures seqs == [] <==> Numbers(dir) == {}
    ensures seqs != [] ==>
              |SortInts(seqs)| == |seqs| && SortInts(seqs)[|seqs| - 1] == MaxOf(Numbers(dir))
  {
    hide SeqOf, SortInts;
    forall x | x in Numbers(dir) ensures x in seqs {
      var name :| name in dir && dir[name].File? && SeqOf(name) == Some(x);
      var k :| 0 <= k < |listing| && listing[k] == name;
    }
    if seqs != [] {
      assert seqs[0] in seqs;
      forall x | x in seqs ensures 0 <= x {
        NumbersRange(dir, x);
      }
      SortedLast(seqs);
    }
  }

  lemma NumbersRange(dir: Dir, x: int)
    requires x in Numbers(dir)
    ensures 0 <= x <= MAX_INT
  {
    hide SeqOf;
    var name :| name in dir && dir[name].File? && SeqOf(name) == Some(x);
    SeqOfRange(name);
  }

  // ---------- a run never overwrites ----------

  ghost predicate Above(dir: Dir, n: int) {
    forall name :: name in dir && dir[name].File? && SeqOf(name).Some? ==> SeqOf(name).value < n
  }

  lemma NextAbove(dir: Dir)
    requires 0 <= NextSeq(dir)
    ensures Above(dir, NextSeq(dir))
  {
    hide SeqOf;
    forall name | name in dir && dir[name].File? && SeqOf(name).Some?
      ensures SeqOf(name).value < NextSeq(dir)
    {
      assert SeqOf(name).value in Numbers(dir);
    }
  }

  /** The entry of a name is the same in both directories. */
  predicate SameEntry(dir: Dir, dir': Dir, name: string) {
    name in dir && name in dir' && dir'[name] == dir[name]
  }

  /** What one write stores. */
  function Stored(part: seq<Row>, outcome: Outcome): seq<seq<Row>> {
    match outcome
    case Done => [part]
    case CannotOpen => []
    case Partial(stored) => [part[..Min(stored, |part|)]]
  }

  /** What the run stores in the files it opens from part j on, the last one perhaps cut short. */
  function Opened(dir: Dir, first: int, run: Run, j: nat, start: nat): seq<seq<Row>>
    requires run.rowsPerPart > 0
    decreases |run.rows| - start
  {
    if start >= |run.rows| then []
    else
      var name, part := PartName(Wrap(first + j)), PartAt(run, start);
      var (next, ok) := WriteOne(dir, name, part, run.outcome(j));
      if name in dir && dir[name].Folder? then []
      else Stored(part, run.outcome(j)) + if ok then Opened(next, first, run, j + 1, start + run.rowsPerPart) else []
  }

  /** The name of the i-th part of a run whose first number is n. */
  function NameAt(n: int, i: nat): string {
    PartName(Wrap(n + i))
  }

  /** The directory with parts laid over it under consecutive numbers. */
  function Overlay(dir: Dir, n: int, parts: seq<seq<Row>>): Dir
    decreases parts
  {
    if parts == [] then dir else Overlay(dir[PartName(Wrap(n)) := File(parts[0])], n + 1, parts[1..])
  }

  lemma WriteOneOverlays(dir: Dir, n: int, part: seq<Row>, outcome: Outcome)
    ensures var name := PartName(Wrap(n));
            var (next, ok) := WriteOne(dir, name, part, outcome);
            if name in dir && dir[name].Folder? then next == dir && !ok
            else (ok <==> outcome.Done?) && next == Overlay(dir, n, Stored(part, outcome))
  {
    hide PartName, Wrap;
    if outcome.Partial? || outcome.Done? {
      assert Stored(part, outcome)[1..] == [];
    }
  }

  /** A run lays its opened parts over the directory and does nothing else. */
  lemma {:induction false} WriteIsOverlay(dir: Dir, first: int, run: Run, j: nat, start: nat)
    requires run.rowsPerPart > 0
    ensures WriteFrom(dir, first, run, j, start).0 == Overlay(dir, first + j, Opened(dir, first, run, j, start))
    ensures |Opened(dir, first, run, j, start)| <= Max(0, |run.rows| - start)
    decreases |run.rows| - start
  {
    hide PartName, Wrap, WriteOne, Stored, PartAt, Overlay;
    if start >= |run.rows| {
      OverlayNone(dir, first + j);
    } else {
      var name, part := PartName(Wrap(first + j)), PartAt(run, start);
      var (next, ok) := WriteOne(dir, name, part, run.outcome(j));
      WriteOneOverlays(dir, first + j, part, run.outcome(j));
      OverlayNone(dir, first + j);
      StoredOne(part, run.outcome(j));
      if ok {
        WriteIsOverlay(next, first, run, j + 1, start + run.rowsPerPart);
        OverlaySplit(dir, first + j, part, Opened(next, first, run, j + 1, start + run.rowsPerPart));
      } else if !(name in dir && dir[name].Folder?) {
        assert Stored(part, run.outcome(j)) + [] == Stored(part, run.outcome(j));
      }
    }
  }

  lemma OverlayNone(dir: Dir, n: int)
    ensures Overlay(dir, n, []) == dir
  {}

  lemma StoredOne(part: seq<Row>, outcome: Outcome)
    ensures |Stored(part, outcome)| <= 1 && (outcome.Done? ==> Stored(part, outcome) == [part])
  {}

  lemma OverlaySplit(dir: Dir, n: int, part: seq<Row>, rest: seq<seq<Row>>)
    ensures Overlay(dir, n, [part] + rest) == Overlay(Overlay(dir, n, [part]), n + 1, rest)
  {
    hide PartName, Wrap;
    assert ([part] + rest)[1..] == rest && [part][1..] == [];
    assert Overlay(dir, n, [part]) == dir[PartName(Wrap(n)) := File(part)];
  }

  /** Different 64-bit numbers print different names. */
  lemma PartNameInjective(a: int, b: int)
    requires PartName(a) == PartName(b)
    ensures a == b
  {
    var x, y := PrintNumber(a), PrintNumber(b);
    assert PartName(a)[5..|PartName(a)| - 5] == x && PartName(b)[5..|PartName(b)| - 5] == y;
    PrintInjective(a, b);
  }

  lemma PrintInjective(a: int, b: int)
    requires PrintNumber(a) == PrintNumber(b)
    ensures a == b
  {
    PrintedSign(a);
    PrintedSign(b);
    hide FormatPadded, Value;
    if a < 0 {
      ValueOfPadded(-a, 4);
      ValueOfPadded(-b, 4);
      assert PrintNumber(a)[1..] == FormatPadded(-a, 4) && PrintNumber(b)[1..] == FormatPadded(-b, 4);
    } else {
      ValueOfPadded(a, 5);
      ValueOfPadded(b, 5);
    }
  }

  lemma PrintedSign(n: int)
    ensures |PrintNumber(n)| > 0 && (PrintNumber(n)[0] == '-' <==> n < 0)
  {
    if n >= 0 {
      assert IsDigit(FormatPadded(n, 5)[0]);
    }
  }

  /** Numbers of one run do not meet again after wrapping. */
  lemma WrapInjective(n: int, i: int, j: int)
    requires -MAX_INT - 1 <= n && 0 <= i < j && n + j <= 2 * MAX_INT + 1 && j <= MAX_INT
    ensures Wrap(n + i) != Wrap(n + j)
  {}

  ghost predicate NoneOf(name: string, n: int, count: nat) {
    forall i: nat :: i < count ==> name != NameAt(n, i)
  }

  lemma NextName(n: int, i: nat)
    ensures NameAt(n + 1, i) == NameAt(n, i + 1)
  {
    assert n + 1 + i == n + (i + 1);
  }

  lemma NoneOfRest(name: string, n: int, count: nat)
    requires NoneOf(name, n, count) && count > 0
    ensures name != NameAt(n, 0) && NoneOf(name, n + 1, count - 1)
  {
    hide NameAt;
    var m := n + 1;
    forall i: nat | i < count - 1 ensures name != NameAt(m, i) {
      NextName(n, i);
    }
  }

  lemma FirstIsUnique(n: int, count: nat)
    requires -MAX_INT - 1 <= n && count <= MAX_INT && n + count <= 2 * MAX_INT + 1
    ensures count > 0 ==> NoneOf(NameAt(n, 0), n + 1, count - 1)
  {
    var m := n + 1;
    forall i: nat | i < count - 1 ensures NameAt(n, 0) != NameAt(m, i) {
      NextName(n, i);
      if NameAt(n, 0) == NameAt(n, i + 1) {
        PartNameInjective(Wrap(n + 0), Wrap(n + (i + 1)));
        WrapInjective(n, 0, i + 1);
      }
    }
  }

  lemma OverlayNext(dir: Dir, n: int, parts: seq<seq<Row>>)
    requires parts != []
    ensures Overlay(dir, n, parts) == Overlay(dir[NameAt(n, 0) := File(parts[0])], n + 1, parts[1..])
  {}

  /** Entries of other names are as they were. */
  lemma {:induction false} OverlayOther(dir: Dir, n: int, parts: seq<seq<Row>>, name: string)
    requires NoneOf(name, n, |parts|)
    ensures name in Overlay(dir, n, parts) <==> name in dir
    ensures name in dir ==> Overlay(dir, n, parts)[name] == dir[name]
    decreases parts
  {
    if parts == [] {
      OverlayNone(dir, n);
    } else {
      hide NameAt, NoneOf, Overlay;
      NoneOfRest(name, n, |parts|);
      OverlayNext(dir, n, parts);
      OverlayOther(dir[NameAt(n, 0) := File(parts[0])], n + 1, parts[1..], name);
    }
  }

  /** Each part is found under its own name. */
  lemma {:induction false} OverlayPart(dir: Dir, n: int, parts: seq<seq<Row>>, i: nat)
    requires -MAX_INT - 1 <= n && |parts| <= MAX_INT && n + |parts| <= 2 * MAX_INT + 1 && i < |parts|
    ensures NameAt(n, i) in Overlay(dir, n, parts) && Overlay(dir, n, parts)[NameAt(n, i)] == File(parts[i])
    decreases parts
  {
    hide NameAt, NoneOf, Overlay;
    var dir' := dir[NameAt(n, 0) := File(parts[0])];
    OverlayNext(dir, n, parts);
    if i == 0 {
      FirstIsUnique(n, |parts|);
      OverlayOther(dir', n + 1, parts[1..], NameAt(n, 0));
    } else {
      NextName(n, i - 1);
      OverlayPart(dir', n + 1, parts[1..], i - 1);
    }
  }

  lemma NextInRange(dir: Dir)
    ensures -MAX_INT - 1 <= NextSeq(dir) <= MAX_INT
    ensures NextSeq(dir) < 0 ==> NextSeq(dir) == -MAX_INT - 1
  {
    if Numbers(dir) != {} {
      NumbersRange(dir, MaxOf(Numbers(dir)));
    }
  }

  /** The number of the i-th part of a run that meets an existing file has wrapped. */
  lemma TakenWrapped(dir: Dir, n: int, i: nat)
    requires n == NextSeq(dir) && i <= MAX_INT
    requires NameAt(n, i) in dir && dir[NameAt(n, i)].File?
    ensures Wrap(n + i) < 0
  {
    NextInRange(dir);
    if n >= 0 && n + i <= MAX_INT {
      NextAbove(dir);
      NameRoundTrip(n + i);
    }
  }

  /** The whole effect of a run on an existing entry, whatever the directory holds: it is
      overwritten, with what the run stored of that part, if and only if it is a file and carries
      the name of a part the run opened under a number that has wrapped past 64 bits. */
  lemma OverwrittenIff(dir: Dir, run: Run, name: string)
    requires run.rowsPerPart > 0 && |run.rows| <= MAX_INT && name in dir
    ensures var n, after := NextSeq(dir), AfterRun(dir, run).0;
            var parts := Opened(dir, n, run, 0, 0);
            && (forall i: nat :: i < |parts| && name == NameAt(n, i) ==>
                  name in after && after[name] == File(parts[i]) && (dir[name].File? ==> Wrap(n + i) < 0))
            && (dir[name].File? && (forall i: nat :: i < |parts| && Wrap(n + i) < 0 ==> name != NameAt(n, i)) ==>
                  SameEntry(dir, after, name))
  {
    hide WriteFrom, SeqOf, PartName, Opened, Overlay, Wrap;
    var n := NextSeq(dir);
    var parts := Opened(dir, n, run, 0, 0);
    NextInRange(dir);
    hide NextSeq;
    WriteIsOverlay(dir, n, run, 0, 0);
    if NoneOf(name, n, |parts|) {
      OverlayOther(dir, n, parts, name);
    }
    forall i: nat | i < |parts| && name == NameAt(n, i)
      ensures name in AfterRun(dir, run).0 && AfterRun(dir, run).0[name] == File(parts[i])
    {
      OverlayPart(dir, n, parts, i);
    }
    forall i: nat | i < |parts| && name == NameAt(n, i) && dir[name].File? ensures Wrap(n + i) < 0 {
      TakenWrapped(dir, n, i);
    }
  }

  lemma {:induction false} FolderKept(dir: Dir, first: int, run: Run, j: nat, start: nat, name: string)
    requires run.rowsPerPart > 0 && name in dir && dir[name].Folder?
    ensures SameEntry(dir, WriteFrom(dir, first, run, j, start).0, name)
    decreases |run.rows| - start
  {
    if start < |run.rows| {
      hide PartName, Wrap, PartAt;
      var (next, ok) := WriteOne(dir, PartName(Wrap(first + j)), PartAt(run, start), run.outcome(j));
      assert SameEntry(dir, next, name);
      hide WriteOne;
      if ok {
        FolderKept(next, first, run, j + 1, start + run.rowsPerPart, name);
      }
    }
  }

  /** So a run leaves every existing entry as it was as long as no number it opens a part under
      has wrapped. */
  lemma NeverOverwrites(dir: Dir, run: Run, name: string)
    requires run.rowsPerPart > 0 && |run.rows| <= MAX_INT && name in dir
    requires var n := NextSeq(dir); 0 <= n && n + |Opened(dir, n, run, 0, 0)| <= MAX_INT + 1
    ensures SameEntry(dir, AfterRun(dir, run).0, name)
  {
    hide WriteFrom, PartName, Opened, NextSeq;
    if dir[name].Folder? {
      FolderKept(dir, NextSeq(dir), run, 0, 0, name);
    } else {
      OverwrittenIff(dir, run, name);
    }
  }

  /** The first name of a run exists as a file exactly when the highest number possible is
      already present and so is the name it wraps to. */
  lemma FirstNameTakenIff(dir: Dir)
    ensures var name := PartName(NextSeq(dir));
            (name in dir && dir[name].File?) <==>
            && MAX_INT in Numbers(dir)
            && PartName(-MAX_INT - 1) in dir && dir[PartName(-MAX_INT - 1)].File?
  {
    hide SeqOf, PartName;
    var n := NextSeq(dir);
    if Numbers(dir) != {} {
      NumbersRange(dir, MaxOf(Numbers(dir)));
    }
    if MAX_INT in Numbers(dir) {
      forall x | x in Numbers(dir) ensures x <= MAX_INT { NumbersRange(dir, x); }
      assert n == -MAX_INT - 1;
    } else {
      NameRoundTrip(n);
      NextAbove(dir);
    }
  }

  // ---------- an append-only log ----------

  /** The contents of the files a run opens, in order. */
  function PartsFrom(run: Run, j: nat, start: nat): seq<seq<Row>>
    requires run.rowsPerPart > 0
    decreases |run.rows| - start
  {
    if start >= |run.rows| then []
    else
      Stored(PartAt(run, start), run.outcome(j))
      + if run.outcome(j).Done? then PartsFrom(run, j + 1, start + run.rowsPerPart) else []
  }

  /** A directory whose part k holds entry k of the log, and nothing else. */
  function DirOf(log: seq<seq<Row>>): Dir {
    if log == [] then map[]
    else DirOf(log[..|log| - 1])[PartName(|log| - 1) := File(log[|log| - 1])]
  }

  ghost predicate PositiveSizes(runs: seq<Run>) {
    forall i :: 0 <= i < |runs| ==> runs[i].rowsPerPart > 0
  }

  /** The directory after a sequence of runs, complete or stopped, from an empty one. */
  ghost function After(runs: seq<Run>): Dir
    requires PositiveSizes(runs)
  {
    if runs == [] then map[] else AfterRun(After(runs[..|runs| - 1]), runs[|runs| - 1]).0
  }

  function Log(runs: seq<Run>): seq<seq<Row>>
    requires forall i :: 0 <= i < |runs| ==> runs[i].rowsPerPart > 0
  {
    if runs == [] then [] else Log(runs[..|runs| - 1]) + PartsFrom(runs[|runs| - 1], 0, 0)
  }

  function RowCount(runs: seq<Run>): nat {
    if runs == [] then 0 else RowCount(runs[..|runs| - 1]) + |runs[|runs| - 1].rows|
  }

  lemma {:induction false} DirOfNames(log: seq<seq<Row>>, name: string)
    requires |log| <= MAX_INT
    ensures name in DirOf(log) ==>
              SeqOf(name).Some? && 0 <= SeqOf(name).value < |log| && name == PartName(SeqOf(name).value)
    ensures name in DirOf(log) ==> DirOf(log)[name] == File(log[SeqOf(name).value])
  {
    if log != [] {
      hide SeqOf, PartName;
      NameRoundTrip(|log| - 1);
      DirOfNames(log[..|log| - 1], name);
    }
  }

  lemma {:induction false} DirOfHas(log: seq<seq<Row>>, k: nat)
    requires k < |log| <= MAX_INT
    ensures PartName(k) in DirOf(log)
  {
    if k < |log| - 1 {
      hide PartName;
      DirOfHas(log[..|log| - 1], k);
    }
  }

  /** The log is recovered from the directory: the numbers present are exactly 0..N-1, and
      number k holds entry k. */
  lemma DirOfExact(log: seq<seq<Row>>)
    requires |log| <= MAX_INT
    ensures forall k: nat :: k < |log| ==> PartName(k) in DirOf(log) && DirOf(log)[PartName(k)] == File(log[k])
    ensures forall x :: x in Numbers(DirOf(log)) <==> 0 <= x < |log|
    ensures NextSeq(DirOf(log)) == |log|
  {
    hide SeqOf, PartName, DirOf;
    forall k: nat | k < |log|
      ensures PartName(k) in DirOf(log) && DirOf(log)[PartName(k)] == File(log[k])
      ensures k in Numbers(DirOf(log))
    {
      DirOfHas(log, k);
      DirOfNames(log, PartName(k));
      NameRoundTrip(k);
    }
    forall x | x in Numbers(DirOf(log)) ensures 0 <= x < |log| {
      var name :| name in DirOf(log) && DirOf(log)[name].File? && SeqOf(name) == Some(x);
      DirOfNames(log, name);
    }
    if |log| > 0 {
      assert |log| - 1 in Numbers(DirOf(log));
    }
  }

  lemma DirOfSnoc(log: seq<seq<Row>>, part: seq<Row>)
    ensures DirOf(log + [part]) == DirOf(log)[PartName(|log|) := File(part)]
  {
    assert (log + [part])[..|log|] == log;
  }

  lemma {:induction false} PartsBound(run: Run, j: nat, start: nat)
    requires run.rowsPerPart > 0
    ensures |PartsFrom(run, j, start)| <= Max(0, |run.rows| - start)
    decreases |run.rows| - start
  {
    if start < |run.rows| && run.outcome(j).Done? {
      PartsBound(run, j + 1, start + run.rowsPerPart);
    }
  }

  lemma WriteOneAppends(log: seq<seq<Row>>, part: seq<Row>, outcome: Outcome)
    requires |log| <= MAX_INT
    ensures WriteOne(DirOf(log), PartName(|log|), part, outcome)
            == (DirOf(log + Stored(part, outcome)), outcome.Done?)
  {
    hide DirOf, PartName, SeqOf;
    NameRoundTrip(|log|);
    DirOfNames(log, PartName(|log|));
    if outcome.CannotOpen? {
      assert log + [] == log;
    } else {
      DirOfSnoc(log, Stored(part, outcome)[0]);
    }
  }

  lemma {:induction false} WriteAppends(log: seq<seq<Row>>, first: nat, run: Run, j: nat, start: nat)
    requires run.rowsPerPart > 0 && |log| == first + j && j <= start
    requires first + |run.rows| <= MAX_INT
    ensures WriteFrom(DirOf(log), first, run, j, start).0 == DirOf(log + PartsFrom(run, j, start))
    decreases |run.rows| - start
  {
    hide PartName, DirOf, WriteOne, PartAt, Stored;
    if start >= |run.rows| {
      assert log + [] == log;
    } else {
      var part, next := PartAt(run, start), start + run.rowsPerPart;
      var kept := Stored(part, run.outcome(j));
      WriteOneAppends(log, part, run.outcome(j));
      if run.outcome(j).Done? {
        DoneStoresAll(part);
        WriteAppends(log + kept, first, run, j + 1, next);
        Associate(log, kept, PartsFrom(run, j + 1, next));
      } else {
        Associate(log, kept, []);
      }
    }
  }

  /** From an empty directory, after any sequence of runs, complete or stopped at any part, the
      directory is exactly the concatenation of what the runs wrote, one number per part. */
  lemma {:induction false} AppendOnlyLog(runs: seq<Run>)
    requires PositiveSizes(runs) && RowCount(runs) <= MAX_INT
    ensures After(runs) == DirOf(Log(runs)) && |Log(runs)| <= RowCount(runs)
  {
    if runs != [] {
      hide WriteFrom, PartsFrom, DirOf, NextSeq;
      var front, run := runs[..|runs| - 1], runs[|runs| - 1];
      AppendOnlyLog(front);
      DirOfExact(Log(front));
      PartsBound(run, 0, 0);
      WriteAppends(Log(front), |Log(front)|, run, 0, 0);
    } else {
      assert DirOf([]) == map[];
    }
  }

  /** The rows from a position on. */
  function Tail(run: Run, start: nat): seq<Row> {
    if start >= |run.rows| then [] else run.rows[start..]
  }

  /** Every part has the full size, but for the last, which may be smaller. */
  predicate FullParts(parts: seq<seq<Row>>, size: nat) {
    parts != [] ==>
      && |parts[0]| <= size && (|parts| > 1 ==> |parts[0]| == size)
      && FullParts(parts[1..], size)
  }

  lemma {:induction false} PartSizes(run: Run, j: nat, start: nat)
    requires run.rowsPerPart > 0
    ensures FullParts(PartsFrom(run, j, start), run.rowsPerPart)
    decreases |run.rows| - start
  {
    if start < |run.rows| {
      hide PartAt, Stored, FullParts;
      var next := start + run.rowsPerPart;
      var rest := if run.outcome(j).Done? then PartsFrom(run, j + 1, next) else [];
      PartSize(run, start);
      if run.outcome(j).Done? {
        PartSizes(run, j + 1, next);
      }
      FullStored(PartAt(run, start), run.outcome(j), rest, run.rowsPerPart);
    } else {
      assert FullParts([], run.rowsPerPart);
    }
  }

  lemma PartSize(run: Run, start: nat)
    requires run.rowsPerPart > 0
    ensures |PartAt(run, start)| <= run.rowsPerPart
    ensures start + run.rowsPerPart < |run.rows| ==> |PartAt(run, start)| == run.rowsPerPart
  {}

  lemma FullStored(part: seq<Row>, outcome: Outcome, rest: seq<seq<Row>>, size: nat)
    requires |part| <= size && (rest != [] ==> |part| == size)
    requires if outcome.Done? then FullParts(rest, size) else rest == []
    ensures FullParts(Stored(part, outcome) + rest, size)
  {
    var parts := Stored(part, outcome) + rest;
    if parts != [] {
      assert parts[1..] == rest;
    }
  }

  /** A run that succeeds on the log's directory wrote exactly its rows; a stopped one wrote a
      prefix of them. */
  lemma {:induction false} PartsHoldRows(log: seq<seq<Row>>, first: nat, run: Run, j: nat, start: nat)
    requires run.rowsPerPart > 0 && |log| == first + j && j <= start
    requires first + |run.rows| <= MAX_INT
    ensures var parts := PartsFrom(run, j, start);
            && Flatten(parts) <= Tail(run, start)
            && (WriteFrom(DirOf(log), first, run, j, start).1 ==> Flatten(parts) == Tail(run, start))
    decreases |run.rows| - start
  {
    hide PartName, DirOf, WriteOne, PartAt, Tail, Stored, Flatten;
    var part, next := PartAt(run, start), start + run.rowsPerPart;
    FlattenStored(part, run.outcome(j), PartsFrom(run, j + 1, next));
    TailSplit(run, start);
    if start < |run.rows| {
      WriteOneAppends(log, part, run.outcome(j));
      if run.outcome(j).Done? {
        DoneStoresAll(part);
        PartsHoldRows(log + [part], first, run, j + 1, next);
      }
    }
  }

  lemma DoneStoresAll(part: seq<Row>)
    ensures Stored(part, Done) == [part]
  {}

  lemma TailSplit(run: Run, start: nat)
    requires run.rowsPerPart > 0
    ensures start < |run.rows| ==> Tail(run, start) == PartAt(run, start) + Tail(run, start + run.rowsPerPart)
    ensures start >= |run.rows| ==> Tail(run, start) == []
  {}

  lemma FlattenStored(part: seq<Row>, outcome: Outcome, rest: seq<seq<Row>>)
    ensures Flatten<Row>([]) == []
    ensures outcome.Done? ==> Flatten(Stored(part, outcome) + rest) == part + Flatten(rest)
    ensures !outcome.Done? ==> Flatten(Stored(part, outcome) + []) <= part
  {
    assert [part] + rest != [] && ([part] + rest)[1..] == rest;
    if outcome.Partial? {
      var stored := Stored(part, outcome);
      assert stored + [] == stored && stored[1..] == [] && Flatten(stored) == stored[0] + [];
    }
  }

  /** On the log's directory a run succeeds if and only if every part its rows need is written. */
  lemma {:induction false} RunSucceedsIff(log: seq<seq<Row>>, first: nat, run: Run, j: nat, start: nat)
    requires run.rowsPerPart > 0 && |log| == first + j && start == run.rowsPerPart * j && j <= start
    requires first + |run.rows| <= MAX_INT
    ensures WriteFrom(DirOf(log), first, run, j, start).1
            <==> forall i: nat :: i >= j && run.rowsPerPart * i < |run.rows| ==> run.outcome(i).Done?
    decreases |run.rows| - start
  {
    hide PartName, DirOf, WriteOne, Stored;
    if start >= |run.rows| {
      forall i: nat | i >= j ensures run.rowsPerPart * i >= |run.rows| {
        Arith.MulMonotone(run.rowsPerPart, j, i);
      }
    } else {
      var part, next := PartAt(run, start), start + run.rowsPerPart;
      hide PartAt;
      WriteOneAppends(log, part, run.outcome(j));
      Arith.Distribute(run.rowsPerPart, j, 1);
      if run.outcome(j).Done? {
        DoneStoresAll(part);
        RunSucceedsIff(log + [part], first, run, j + 1, next);
      }
    }
  }

  function AllRows(runs: seq<Run>): seq<Row> {
    if runs == [] then [] else AllRows(runs[..|runs| - 1]) + runs[|runs| - 1].rows
  }

  ghost predicate AllSucceed(runs: seq<Run>)
    requires PositiveSizes(runs)
  {
    runs != [] ==>
      && AfterRun(After(runs[..|runs| - 1]), runs[|runs| - 1]).1
      && AllSucceed(runs[..|runs| - 1])
  }

  /** Read in ascending number, the parts of successful runs hold every row of every run, in
      order, once. */
  lemma {:induction false} NothingLost(runs: seq<Run>)
    requires PositiveSizes(runs) && RowCount(runs) <= MAX_INT && AllSucceed(runs)
    ensures Flatten(Log(runs)) == AllRows(runs)
  {
    if runs != [] {
      hide WriteFrom, PartsFrom, DirOf, NextSeq, Flatten;
      var front, run := runs[..|runs| - 1], runs[|runs| - 1];
      NothingLost(front);
      AppendOnlyLog(front);
      DirOfExact(Log(front));
      PartsHoldRows(Log(front), |Log(front)|, run, 0, 0);
      assert Tail(run, 0) == run.rows;
      FlattenAppend(Log(front), PartsFrom(run, 0, 0));
    }
  }
}
