/**
 Loading the stored table and backfilling the tracked window: the file is
 read as a frame indexed by its first column, a missing or empty file
 starts an empty frame, and every window day that is not yet a column is
 added with 0 in every row.
 */
module TableStore {
  import opened Optional
  import opened Sequences
  import opened TrafficTable

  /** What `pd.read_csv(path, index_col=0)` meets. */
  datatype Stored =
    | Missing              // FileNotFoundError: caught
    | EmptyFile            // pandas' EmptyDataError: caught
    | Unparsable           // any other read error: not caught, the run stops
    | Parsed(table: Table) // the frame as read, NaN where a cell was blank

  /** The days of `w`, in order, that are not among `cols`. */
  function Absent(cols: seq<DateKey>, w: seq<DateKey>): (a: seq<DateKey>)
    ensures forall d :: d in a <==> d in w && d !in cols
  {
    if |w| == 0 then [] else (if w[0] in cols then [] else [w[0]]) + Absent(cols, w[1..])
  }

  /** A day key that does not occur in `w` does not matter to `Absent`. */
  lemma {:induction false} AbsentIgnores(cols: seq<DateKey>, d: DateKey, w: seq<DateKey>)
    requires d !in w
    ensures Absent(cols + [d], w) == Absent(cols, w)
    decreases |w|
  {
    if |w| > 0 {
      AbsentIgnores(cols, d, w[1..]);
    }
  }

  /** When no day of `w` is a column yet, all of `w` is absent. */
  lemma {:induction false} AbsentAll(w: seq<DateKey>)
    ensures Absent([], w) == w
    decreases |w|
  {
    if |w| > 0 {
      AbsentAll(w[1..]);
      assert [w[0]] + w[1..] == w;
    }
  }

  /** One pass of the loop: `df[d] = 0` unless `d` is already a column. */
  function AddDate(t: Table, d: DateKey): (r: Table)
    requires WellFormed(t)
    ensures WellFormed(r) && r.rows == t.rows
    ensures r.cols == if d in t.cols then t.cols else t.cols + [d]
    ensures forall x, c :: x in t.cells && c in t.cells[x] ==>
      x in r.cells && c in r.cells[x] && r.cells[x][c] == t.cells[x][c]
    ensures forall x, c :: x in r.cells && c in r.cells[x] && c !in t.cols ==> r.cells[x][c] == Some(0)
  {
    if d in t.cols then t else AddColumn(t, d, Some(0))
  }

  /** The loop that adds every window day missing from the columns, filled with 0. */
  function AddMissingDates(t: Table, w: seq<DateKey>): (r: Table)
    requires WellFormed(t)
    ensures WellFormed(r) && r.rows == t.rows
    ensures forall c :: c in r.cols <==> c in t.cols || c in w
    ensures |t.cols| <= |r.cols| && r.cols[..|t.cols|] == t.cols
    ensures forall x, c :: x in t.cells && c in t.cells[x] ==>
      x in r.cells && c in r.cells[x] && r.cells[x][c] == t.cells[x][c]
    ensures forall x, c :: x in r.cells && c in r.cells[x] && c !in t.cols ==> r.cells[x][c] == Some(0)
    decreases |w|
  {
    if |w| == 0 then t
    else
      var u := AddDate(t, w[0]);
      var r := AddMissingDates(u, w[1..]);
      PrefixOfAppend(t.cols, w[0]);
      PrefixTrans(t.cols, u.cols, r.cols);
      assert forall c :: c in w <==> c == w[0] || c in w[1..];
      assert forall x, c :: x in r.cells && c in r.cells[x] && c !in t.cols ==> r.cells[x][c] == Some(0) by {
        forall x, c | x in r.cells && c in r.cells[x] && c !in t.cols
          ensures r.cells[x][c] == Some(0)
        {
          if c in u.cols {
            assert x in u.cells && c in u.cells[x] && u.cells[x][c] == Some(0);
          }
        }
      }
      r
  }

  /** The tail of a sequence without repeats has none, and lacks the head. */
  lemma DistinctTail(w: seq<DateKey>)
    requires Distinct(w) && |w| > 0
    ensures Distinct(w[1..]) && w[0] !in w[1..]
  {
    var rest := w[1..];
    forall i, j | 0 <= i < j < |rest|
      ensures rest[i] != rest[j]
    {
      assert rest[i] == w[i + 1] && rest[j] == w[j + 1];
    }
    forall j | 0 <= j < |rest|
      ensures rest[j] != w[0]
    {
      assert rest[j] == w[j + 1];
    }
  }

  /** One step of the loop on the column labels alone. */
  lemma AbsentStep(cols: seq<DateKey>, w: seq<DateKey>)
    requires Distinct(w) && |w| > 0
    ensures var next := if w[0] in cols then cols else cols + [w[0]];
      next + Absent(next, w[1..]) == cols + Absent(cols, w)
  {
    DistinctTail(w);
    if w[0] !in cols {
      AbsentIgnores(cols, w[0], w[1..]);
      assert cols + [w[0]] + Absent(cols, w[1..]) == cols + ([w[0]] + Absent(cols, w[1..]));
    }
  }

  /** For a window without repeated days, the new columns are exactly the
      window's absent days, in window order, after the existing columns. */
  lemma {:induction false} AddMissingDatesOrder(t: Table, w: seq<DateKey>)
    requires WellFormed(t) && Distinct(w)
    ensures AddMissingDates(t, w).cols == t.cols + Absent(t.cols, w)
    decreases |w|
  {
    if |w| > 0 {
      var u := AddDate(t, w[0]);
      DistinctTail(w);
      AddMissingDatesOrder(u, w[1..]);
      AbsentStep(t.cols, w);
    }
  }

  /** `__get_local_data__`: the stored frame, or an empty one when the file is
      missing or empty, with the window's days added as 0-filled columns.
      `None` when reading fails in any other way. */
  function Load(stored: Stored, w: seq<DateKey>): (r: Option<Table>)
    requires stored.Parsed? ==> WellFormed(stored.table)
    ensures r.None? <==> stored.Unparsable?
    ensures r.Some? ==> WellFormed(r.value) && forall d :: d in w ==> d in r.value.cols
    ensures r.Some? && !stored.Parsed? ==>
      r.value.rows == [] && (forall c :: c in r.value.cols <==> c in w) && (Distinct(w) ==> r.value.cols == w)
    ensures stored.Parsed? ==> var t, u := stored.table, r.value;
      && u.rows == t.rows
      && |t.cols| <= |u.cols| && u.cols[..|t.cols|] == t.cols
      && (forall c :: c in u.cols <==> c in t.cols || c in w)
      && (forall x, c :: x in t.cells && c in t.cells[x] ==> x in u.cells && c in u.cells[x] && u.cells[x][c] == t.cells[x][c])
      && (forall x, c :: x in u.cells && c in u.cells[x] && c !in t.cols ==> u.cells[x][c] == Some(0))
  {
    match stored
    case Unparsable => None
    case Parsed(t) => Some(AddMissingDates(t, w))
    case _ =>
      var r := AddMissingDates(Empty, w);
      assert Distinct(w) ==> r.cols == w by {
        if Distinct(w) {
          AddMissingDatesOrder(Empty, w);
          AbsentAll(w);
        }
      }
      Some(r)
  }
}
