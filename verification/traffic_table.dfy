/** A value that may be absent. */
module Optional {

  datatype Option<+T> = None | Some(value: T) {

    /** The value, or `default` when absent. */
    function GetOr(default: T): T {
      match this
      case Some(v) => v
      case None => default
    }
  }
}

/**
 The repository-by-day table of clone counts that the data handler keeps as a
 pandas DataFrame: row labels are repository names, column labels are day
 keys, and a cell is either an integer count or NaN.
 */
module TrafficTable {
  import opened Optional
  import opened Sequences

  type RepoName = string
  type DateKey = string

  /** One cell of the table; `None` stands for pandas' NaN. */
  type Cell = Option<int>

  type Row = map<DateKey, Cell>

  /** Columns and rows in frame order; `cells` holds every row's cells by column label. */
  datatype Table = Table(cols: seq<DateKey>, rows: seq<RepoName>, cells: map<RepoName, Row>)

  /** Labels are unique, and every row has exactly one cell per column. */
  ghost predicate WellFormed(t: Table) {
    && Distinct(t.cols)
    && Distinct(t.rows)
    && (forall x :: x in t.cells <==> x in t.rows)
    && (forall x, c :: x in t.cells ==> (c in t.cells[x] <==> c in t.cols))
  }

  /** The frame `pd.DataFrame()`: no columns, no rows. */
  const Empty := Table([], [], map[])

  /** `df[d] = fill` for a label `d` that is not yet a column. */
  function AddColumn(t: Table, d: DateKey, fill: Cell): (r: Table)
    requires WellFormed(t) && d !in t.cols
    ensures WellFormed(r)
    ensures r.cols == t.cols + [d] && r.rows == t.rows
    ensures forall x :: x in r.cells ==> d in r.cells[x] && r.cells[x][d] == fill
    ensures forall x, c :: x in t.cells && c in t.cells[x] ==>
      x in r.cells && c in r.cells[x] && r.cells[x][c] == t.cells[x][c]
  {
    Table(t.cols + [d], t.rows, map x | x in t.cells :: t.cells[x][d := fill])
  }

  /** A row holding 0 in each of the given columns. */
  function ZeroRow(cols: seq<DateKey>): (row: Row)
    ensures forall c :: c in row <==> c in cols
    ensures forall c :: c in row ==> row[c] == Some(0)
  {
    map c | c in cols :: Some(0)
  }

  /** `df.loc[n] = 0` for a label `n` that is not yet a row: appended, 0 in every column. */
  function InsertZeroRow(t: Table, n: RepoName): (r: Table)
    requires WellFormed(t) && n !in t.rows
    ensures WellFormed(r)
    ensures r.cols == t.cols && r.rows == t.rows + [n]
    ensures forall c :: c in t.cols ==> r.cells[n][c] == Some(0)
    ensures forall x :: x in t.cells ==> r.cells[x] == t.cells[x]
  {
    Table(t.cols, t.rows + [n], t.cells[n := ZeroRow(t.cols)])
  }

  /** `df.at[n, d] = v` on an existing row. A label `d` that is not yet a column
      enlarges the frame: the new column is NaN in every other row. */
  function SetCell(t: Table, n: RepoName, d: DateKey, v: int): (r: Table)
    requires WellFormed(t) && n in t.rows
    ensures WellFormed(r) && r.rows == t.rows
    ensures r.cols == if d in t.cols then t.cols else t.cols + [d]
    ensures forall x, c :: x in r.cells && c in r.cells[x] ==>
      r.cells[x][c] == (if x == n && c == d then Some(v) else if c in t.cols then t.cells[x][c] else None)
  {
    var u := if d in t.cols then t else AddColumn(t, d, None);
    Table(u.cols, u.rows, u.cells[n := u.cells[n][d := Some(v)]])
  }

  /** Two well-formed tables with the same labels and the same cells are the same table. */
  lemma SameTable(a: Table, b: Table)
    requires WellFormed(a) && WellFormed(b) && a.cols == b.cols && a.rows == b.rows
    requires forall x, c :: x in a.cells && c in a.cells[x] ==> x in b.cells && c in b.cells[x] && b.cells[x][c] == a.cells[x][c]
    ensures a == b
  {
    forall x | x in a.cells
      ensures x in b.cells && b.cells[x] == a.cells[x]
    {
      assert x in b.cells;
      forall c
        ensures c in b.cells[x] <==> c in a.cells[x]
      {
        assert c in b.cells[x] <==> c in b.cols;
        assert c in a.cells[x] <==> c in a.cols;
      }
      assert b.cells[x].Keys == a.cells[x].Keys;
    }
    forall x
      ensures x in b.cells <==> x in a.cells
    {
      assert x in b.cells <==> x in b.rows;
    }
    assert b.cells.Keys == a.cells.Keys;
  }

  // ------------------------------------------------------------ normalisation

  predicate InInt16(v: int) {
    -32768 <= v <= 32767
  }

  /** numpy's `astype(np.int16)` of an integer: the value taken modulo 2^16 into the signed range. */
  function Wrap16(v: int): (r: int)
    ensures InInt16(r)
    ensures (v - r) % 65536 == 0
    ensures InInt16(v) ==> r == v
  {
    (v + 32768) % 65536 - 32768
  }

  /** `fillna(0).astype(np.int16)` of one cell. */
  function Norm(c: Cell): Cell {
    Some(Wrap16(c.GetOr(0)))
  }

  /** Casting a cast cell again changes nothing. */
  lemma NormTwice(c: Cell)
    ensures Norm(Norm(c)) == Norm(c)
  {
  }

  /** Every cell holds a concrete 16-bit integer. */
  predicate Normalized(t: Table) {
    forall x, c :: x in t.cells && c in t.cells[x] ==> t.cells[x][c].Some? && InInt16(t.cells[x][c].value)
  }

  /** `df.fillna(0).astype(np.int16)`: same labels, every cell filled and wrapped. */
  function Normalize(t: Table): (r: Table)
    requires WellFormed(t)
    ensures WellFormed(r) && Normalized(r)
    ensures r.cols == t.cols && r.rows == t.rows
    ensures forall x, c :: x in t.cells && c in t.cells[x] ==>
      x in r.cells && c in r.cells[x] && r.cells[x][c] == Norm(t.cells[x][c])
  {
    Table(t.cols, t.rows, map x | x in t.cells :: map c | c in t.cells[x] :: Norm(t.cells[x][c]))
  }

  /** A normalised table is its own normalisation. */
  lemma NormalizeFixesNormalized(t: Table)
    requires WellFormed(t) && Normalized(t)
    ensures Normalize(t) == t
  {
    var r := Normalize(t);
    forall x | x in t.cells
      ensures r.cells[x] == t.cells[x]
    {
      assert r.cells[x].Keys == t.cells[x].Keys;
    }
    assert r.cells == t.cells;
  }

  /** Normalising twice is normalising once. */
  lemma NormalizeIdempotent(t: Table)
    requires WellFormed(t)
    ensures Normalize(Normalize(t)) == Normalize(t)
  {
    NormalizeFixesNormalized(Normalize(t));
  }
}
