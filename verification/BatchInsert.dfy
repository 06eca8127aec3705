/** Multi-row parameterised inserts in chunks. A placeholder $k binds the k-th argument of its
    own statement, a question mark the next unbound one. */
module BatchInsert {

  import opened Wrappers
  import opened Seqs
  import Arith

  // ---------- statements ----------

  /** A statement with numbered placeholders, one list per row. */
  datatype Statement<V> = Statement(rows: seq<seq<nat>>, args: seq<V>)

  /** The rows a statement denotes; a placeholder without an argument denotes none. */
  function Bind<V>(rows: seq<seq<nat>>, args: seq<V>): Option<seq<seq<V>>> {
    if rows == [] then Some([])
    else
      var rest := Bind(rows[1..], args);
      if rest.None? || !Bound(rows[0], |args|) then None
      else Some([seq(|rows[0]|, c requires 0 <= c < |rows[0]| => args[rows[0][c] - 1])] + rest.value)
  }

  predicate Bound(row: seq<nat>, n: nat) {
    forall c :: 0 <= c < |row| ==> 1 <= row[c] <= n
  }

  /** What one statement denotes when every row has its own number of question marks; they must
      use up the arguments. */
  function BindMarks<V>(marks: seq<nat>, args: seq<V>): Option<seq<seq<V>>> {
    if marks == [] then if args == [] then Some([]) else None
    else if marks[0] > |args| then None
    else
      match BindMarks(marks[1..], args[marks[0]..])
      case None => None
      case Some(rest) => Some([args[..marks[0]]] + rest)
  }

  /** The reference: rows of a fixed width, read off the argument list from a position on. */
  function Chop<V>(args: seq<V>, at: nat, rows: nat, width: nat): (r: seq<seq<V>>)
    ensures |r| == rows
    decreases rows
  {
    if rows == 0 then []
    else [Window(args, at, width)] + Chop(args, at + width, rows - 1, width)
  }

  function Window<V>(args: seq<V>, at: nat, width: nat): seq<V> {
    if at + width <= |args| then args[at..at + width] else []
  }

  /** Placeholders counted on from a first number. */
  function Numbered(first: nat, rows: nat, width: nat): seq<seq<nat>>
    decreases rows
  {
    if rows == 0 then []
    else [seq(width, c requires 0 <= c < width => first + c)] + Numbered(first + width, rows - 1, width)
  }

  /** The placeholder loop: one counter over all rows of the chunk. */
  method Placeholders(rows: nat, width: nat) returns (phs: seq<seq<nat>>)
    ensures phs == Numbered(1, rows, width)
  {
    phs := [];
    var argIdx := 1;
    for r := 0 to rows
      invariant argIdx >= 1
      invariant phs + Numbered(argIdx, rows - r, width) == Numbered(1, rows, width)
    {
      var cols: seq<nat> := [];
      ghost var first := argIdx;
      for p := 0 to width
        invariant argIdx == first + p
        invariant cols == seq(p, c requires 0 <= c < p => first + c)
      {
        cols := cols + [argIdx];
        argIdx := argIdx + 1;
      }
      ghost var before := phs;
      phs := phs + [cols];
      assert before + ([cols] + Numbered(argIdx, rows - r - 1, width)) == phs + Numbered(argIdx, rows - r - 1, width);
    }
  }

  /** Numbering from 1 binds every row to its own arguments. */
  lemma {:induction false} NumberedBinds<V>(args: seq<V>, at: nat, rows: nat, width: nat)
    requires at + rows * width <= |args|
    ensures Bind(Numbered(at + 1, rows, width), args) == Some(Chop(args, at, rows, width))
    decreases rows
  {
    if rows > 0 {
      Arith.Distribute(width, rows - 1, 1);
      NumberedBinds(args, at + width, rows - 1, width);
      var head := seq(width, c requires 0 <= c < width => at + 1 + c);
      assert Numbered(at + 1, rows, width) == [head] + Numbered(at + width + 1, rows - 1, width);
      assert ([head] + Numbered(at + width + 1, rows - 1, width))[1..] == Numbered(at + width + 1, rows - 1, width);
      Arith.MulMonotone(width, 0, rows - 1);
      assert Bound(head, |args|);
      assert seq(width, c requires 0 <= c < width => args[head[c] - 1]) == Window(args, at, width);
    }
  }

  lemma {:induction false} ChopAppend<V>(args: seq<V>, at: nat, a: nat, b: nat, width: nat)
    ensures Chop(args, at, a + b, width) == Chop(args, at, a, width) + Chop(args, at + a * width, b, width)
    decreases a
  {
    if a == 0 {
      assert at + 0 * width == at;
    } else {
      Arith.Distribute(width, a - 1, 1);
      ChopAppend(args, at + width, a - 1, b, width);
      assert at + width + (a - 1) * width == at + a * width;
    }
  }

  lemma WindowSlice<V>(args: seq<V>, from: nat, to: nat, at: nat, width: nat)
    requires from + at + width <= to <= |args|
    ensures Window(args[from..to], at, width) == Window(args, from + at, width)
  {
    var a, b := args[from..to][at..at + width], args[from + at..from + at + width];
    forall k | 0 <= k < width ensures a[k] == b[k] {
      assert args[from..to][at + k] == args[from + at + k];
    }
  }

  /** A slice of the arguments denotes the same rows as its place in the whole. */
  lemma {:induction false} ChopSlice<V>(args: seq<V>, from: nat, to: nat, at: nat, rows: nat, width: nat)
    requires from + at + rows * width <= to <= |args|
    ensures Chop(args[from..to], at, rows, width) == Chop(args, from + at, rows, width)
    decreases rows
  {
    if rows > 0 {
      Arith.Distribute(width, rows - 1, 1);
      Arith.MulMonotone(width, 0, rows - 1);
      ChopSlice(args, from, to, at + width, rows - 1, width);
      WindowSlice(args, from, to, at, width);
    }
  }

  // ---------- chunked execution ----------

  /** Rows stored by the statements from row `start` on, up to and with the first that is
      answered by an error; `answers(j)` is the answer to the j-th statement. */
  function StoredRows(total: nat, size: nat, start: nat, j: nat, answers: nat -> Answer): (n: nat)
    requires size > 0 && start <= total
    ensures n <= total - start
    decreases total - start
  {
    if start >= total || answers(j).Fails? then 0
    else
      var n := Min(size, total - start);
      n + if answers(j).Half? then 0 else StoredRows(total, size, start + n, j + 1, answers)
  }

  /** Rows of the statements before the first error: those the caller knows to be stored. */
  function AnsweredRows(total: nat, size: nat, start: nat, j: nat, answers: nat -> Answer): (n: nat)
    requires size > 0 && start <= total
    ensures n <= StoredRows(total, size, start, j, answers)
    decreases total - start
  {
    if start >= total || !answers(j).Works? then 0
    else
      var n := Min(size, total - start);
      n + AnsweredRows(total, size, start + n, j + 1, answers)
  }

  class Table<V(==)> {
    var rows: seq<seq<V>>

    constructor ()
      ensures rows == []
    {
      rows := [];
    }

    /** One statement: stored as a whole or not at all. */
    method Exec(stmt: Statement<V>, answer: Answer) returns (ok: bool)
      modifies this
      ensures ok <==> answer.Works? && Bind(stmt.rows, stmt.args).Some?
      ensures rows == if !answer.Fails? && Bind(stmt.rows, stmt.args).Some?
                      then old(rows) + Bind(stmt.rows, stmt.args).value else old(rows)
    {
      var bound := Bind(stmt.rows, stmt.args);
      if answer.Fails? || bound.None? {
        return false;
      }
      rows := rows + bound.value;
      return answer.Works?;
    }

    /** Stores, in order, the rows of one unchunked insert, all of them or whole chunks up to
        the first failure. Arguments beyond the last whole row are dropped. */
    method Insert(width: nat, args: seq<V>, size: nat, answers: nat -> Answer) returns (ok: bool)
      requires width > 0 && size > 0
      modifies this
      ensures var total := |args| / width;
              && rows == old(rows) + Chop(args, 0, StoredRows(total, size, 0, 0, answers), width)
              && (ok <==> AnsweredRows(total, size, 0, 0, answers) == total)
    {
      hide Bind, Numbered, Chop, StoredRows, AnsweredRows;
      var total: nat := |args| / width;
      Arith.DivMod(|args|, width);
      ghost var before := rows;
      ChopNothing(before, args, width);
      if |args| == 0 {
        Arith.DivUnique(0, width, 0, 0);
        StoredStep(0, size, 0, 0, answers);
        return true;
      }
      var start, j: nat := 0, 0;
      while start < total
        invariant 0 <= start <= total
        invariant rows == before + Chop(args, 0, start, width)
        invariant StoredRows(total, size, 0, 0, answers) == start + StoredRows(total, size, start, j, answers)
        invariant AnsweredRows(total, size, 0, 0, answers) == start + AnsweredRows(total, size, start, j, answers)
      {
        var end := Min(start + size, total);
        var phs := Placeholders(end - start, width);
        ChunkDenotes(args, width, total, start, end);
        var written := Exec(Statement(phs, args[start * width..end * width]), answers(j));
        ChopAppend(args, 0, start, end - start, width);
        Associate(before, Chop(args, 0, start, width), Chop(args, start * width, end - start, width));
        StoredStep(total, size, start, j, answers);
        if !written {
          return false;
        }
        start, j := end, j + 1;
      }
      StoredStep(total, size, start, j, answers);
      return true;
    }
  }

  lemma StoredStep(total: nat, size: nat, start: nat, j: nat, answers: nat -> Answer)
    requires size > 0 && start <= total
    ensures StoredRows(total, size, start, j, answers)
            == if start >= total || answers(j).Fails? then 0
               else
                 Min(size, total - start)
                 + if answers(j).Half? then 0
                   else StoredRows(total, size, Min(start + size, total), j + 1, answers)
    ensures AnsweredRows(total, size, start, j, answers)
            == if start >= total || !answers(j).Works? then 0
               else Min(size, total - start) + AnsweredRows(total, size, Min(start + size, total), j + 1, answers)
  {}

  lemma ChopNothing<V>(before: seq<seq<V>>, args: seq<V>, width: nat)
    ensures before + Chop(args, 0, 0, width) == before
  {}

  lemma ChunkDenotes<V>(args: seq<V>, width: nat, total: nat, start: nat, end: nat)
    requires start <= end <= total && total * width <= |args|
    ensures 0 <= start * width <= end * width <= |args|
    ensures Bind(Numbered(1, end - start, width), args[start * width..end * width])
            == Some(Chop(args, start * width, end - start, width))
  {
    hide Bind, Numbered, Chop;
    Arith.MulMonotone(width, 0, start);
    Arith.MulMonotone(width, start, end);
    Arith.MulMonotone(width, end, total);
    Arith.Distribute(width, end - start, start);
    NumberedBinds(args[start * width..end * width], 0, end - start, width);
    ChopSlice(args, start * width, end * width, 0, end - start, width);
  }

  // ---------- main results ----------

  /** One statement with every argument denotes what the chunks store when none fails. */
  lemma ChunkingPreservesMeaning<V>(args: seq<V>, width: nat, size: nat)
    requires width > 0 && size > 0
    ensures var total := |args| / width;
            Bind(Numbered(1, total, width), args)
            == Some(Chop(args, 0, StoredRows(total, size, 0, 0, _ => Works), width))
  {
    hide StoredRows, Bind, Numbered, Chop;
    var total := |args| / width;
    Arith.DivMod(|args|, width);
    NeverFails(total, size, 0, 0);
    NumberedBinds(args, 0, total, width);
  }

  lemma {:induction false} NeverFails(total: nat, size: nat, start: nat, j: nat)
    requires size > 0 && start <= total
    ensures StoredRows(total, size, start, j, _ => Works) == total - start
    decreases total - start
  {
    if start < total {
      NeverFails(total, size, start + Min(size, total - start), j + 1);
    }
  }

  /** Both counts spelled out: with the first error at statement e, or none, the caller knows of
      e whole chunks, and the tables hold them and that of statement e if it was stored. */
  lemma {:induction false} RowsToFirstError(total: nat, size: nat, start: nat, j: nat, answers: nat -> Answer, e: nat)
    requires size > 0 && j <= e && start == Min(size * j, total)
    requires (forall i :: j <= i < e ==> answers(i).Works?) && (size * e >= total || !answers(e).Works?)
    ensures AnsweredRows(total, size, start, j, answers) == Min(size * e, total) - start
    ensures StoredRows(total, size, start, j, answers)
            == Min(size * (e + if answers(e).Half? then 1 else 0), total) - start
    decreases e - j
  {
    StoredStep(total, size, start, j, answers);
    hide StoredRows, AnsweredRows;
    Arith.Distribute(size, j, 1);
    Arith.Distribute(size, e, 1);
    Arith.MulMonotone(size, j, e);
    if start < total && j < e {
      Arith.MulMonotone(size, j + 1, e);
      RowsToFirstError(total, size, Min(start + size, total), j + 1, answers, e);
    }
  }

  /** Rows of one width, laid out as arguments, are read back unchanged. */
  lemma {:induction false} FlattenChops<V>(rows: seq<seq<V>>, width: nat)
    requires forall i :: 0 <= i < |rows| ==> |rows[i]| == width
    ensures |Flatten(rows)| == |rows| * width
    ensures Chop(Flatten(rows), 0, |rows|, width) == rows
  {
    if rows != [] {
      FlattenChops(rows[1..], width);
      Arith.Distribute(width, |rows| - 1, 1);
      var rest := Flatten(rows[1..]);
      var all := rows[0] + rest;
      assert all[width..|all|] == rest && all[..width] == rows[0];
      ChopSlice(all, width, |all|, 0, |rows| - 1, width);
    }
  }

  // ---------- question marks ----------

  ghost predicate UniformMarks(marks: seq<nat>, width: nat) {
    forall i :: 0 <= i < |marks| ==> marks[i] == width
  }

  /** With the same number of question marks in every row, both forms denote the same rows. */
  lemma {:induction false} FormsAgree<V>(marks: seq<nat>, args: seq<V>, width: nat)
    requires UniformMarks(marks, width) && |args| == |marks| * width
    ensures BindMarks(marks, args) == Some(Chop(args, 0, |marks|, width))
    ensures BindMarks(marks, args) == Bind(Numbered(1, |marks|, width), args)
  {
    hide Bind, Numbered;
    NumberedBinds(args, 0, |marks|, width);
    if marks != [] {
      Arith.Distribute(width, |marks| - 1, 1);
      FormsAgree(marks[1..], args[width..], width);
      ChopSlice(args, width, |args|, 0, |marks| - 1, width);
      assert args[width..] == args[width..|args|];
    }
  }

  /** The form with question marks, told the number of arguments per row. */
  function MarksFrom<V>(marks: seq<nat>, args: seq<V>, width: nat, size: nat, start: nat, j: nat,
                        answers: nat -> Answer)
    : (seq<seq<V>>, bool)
    requires size > 0
    decreases |marks| - start
  {
    if start >= |marks| then ([], true)
    else
      var end := Min(start + size, |marks|);
      var bound := BindChunk(marks, args, width, start, end);
      if answers(j).Fails? || bound.None? then ([], false)
      else if answers(j).Half? then (bound.value, false)
      else
        var (rest, ok) := MarksFrom(marks, args, width, size, end, j + 1, answers);
        (bound.value + rest, ok)
  }

  function BindChunk<V>(marks: seq<nat>, args: seq<V>, width: nat, start: nat, end: nat): Option<seq<seq<V>>>
    requires start <= end <= |marks|
  {
    BindMarks(marks[start..end], Slice(args, start * width, end * width))
  }

  function Slice<V>(args: seq<V>, from: int, to: int): seq<V> {
    if 0 <= from <= to <= |args| then args[from..to] else []
  }

  /** Rows from row `start` on. */
  function ChopRows<V>(args: seq<V>, start: nat, rows: nat, width: nat): seq<seq<V>> {
    Chop(args, start * width, rows, width)
  }

  lemma ChopRowsAppend<V>(args: seq<V>, start: nat, a: nat, b: nat, width: nat)
    ensures ChopRows(args, start, 0, width) == []
    ensures ChopRows(args, start, a + b, width) == ChopRows(args, start, a, width) + ChopRows(args, start + a, b, width)
  {
    ChopAppend(args, start * width, a, b, width);
    Arith.Distribute(width, start, a);
  }

  lemma {:induction false} MarksRefineNumbers<V>(marks: seq<nat>, args: seq<V>, width: nat, size: nat, start: nat,
                                                 j: nat, answers: nat -> Answer)
    requires size > 0 && UniformMarks(marks, width) && |args| == |marks| * width && start <= |marks|
    ensures MarksFrom(marks, args, width, size, start, j, answers)
            == (ChopRows(args, start, StoredRows(|marks|, size, start, j, answers), width),
                AnsweredRows(|marks|, size, start, j, answers) == |marks| - start)
    decreases |marks| - start
  {
    hide BindChunk, ChopRows, UniformMarks;
    if start < |marks| {
      var end := Min(start + size, |marks|);
      ChunkOfMarks(marks, args, width, start, end);
      if answers(j).Works? {
        MarksRefineNumbers(marks, args, width, size, end, j + 1, answers);
        ChopRowsAppend(args, start, end - start, StoredRows(|marks|, size, end, j + 1, answers), width);
      }
    }
    ChopRowsAppend(args, start, 0, 0, width);
  }

  lemma ChunkOfMarks<V>(marks: seq<nat>, args: seq<V>, width: nat, start: nat, end: nat)
    requires UniformMarks(marks, width) && |args| == |marks| * width && start <= end <= |marks|
    ensures BindChunk(marks, args, width, start, end) == Some(ChopRows(args, start, end - start, width))
  {
    hide BindMarks, Chop;
    Arith.MulMonotone(width, 0, start);
    Arith.MulMonotone(width, start, end);
    Arith.MulMonotone(width, end, |marks|);
    Arith.Distribute(width, end - start, start);
    FormsAgree(marks[start..end], args[start * width..end * width], width);
    ChopSlice(args, start * width, end * width, 0, end - start, width);
  }

  /** So the form with question marks stores, whatever statement fails, exactly what the form
      with numbers stores; the width it computes is the one each row was written with. */
  lemma BothInsertsAgree<V>(marks: seq<nat>, args: seq<V>, width: nat, size: nat, answers: nat -> Answer)
    requires width > 0 && size > 0 && marks != [] && UniformMarks(marks, width) && |args| == |marks| * width
    ensures |args| / |marks| == width && |args| / width == |marks|
    ensures MarksFrom(marks, args, |args| / |marks|, size, 0, 0, answers)
            == (Chop(args, 0, StoredRows(|marks|, size, 0, 0, answers), width),
                AnsweredRows(|marks|, size, 0, 0, answers) == |marks|)
  {
    hide MarksFrom, Chop, StoredRows, AnsweredRows;
    Arith.DivUnique(|args|, |marks|, width, 0);
    Arith.DivUnique(|args|, width, |marks|, 0);
    MarksRefineNumbers(marks, args, width, size, 0, 0, answers);
  }
}
