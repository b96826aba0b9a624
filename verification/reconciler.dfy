/**
 One pass of the repository loop: what the handler does with a single
 repository's traffic response. Private repositories, responses without a
 "clones" list and failed requests leave the table as it was; otherwise the
 repository's row is added if new, its reported window days are overwritten
 with the reported counts, and the whole table is normalised to int16.
 */
module Reconciler {
  import opened Optional
  import opened Sequences
  import opened TrafficTable

  /** One entry of the "clones" list: a timestamp text and a count. */
  datatype Record = Record(timestamp: string, count: int)

  /** What asking for a repository's daily clone traffic gives. */
  datatype Fetch =
    | Private                       // `repo.private`: never asked
    | Failed                        // the request or reading its payload raised
    | NoData                        // the payload has no "clones" entry
    | Data(records: seq<Record>)    // the "clones" list, possibly empty

  datatype Repo = Repo(name: RepoName, fetch: Fetch)

  /** The day key of a timestamp: its first ten characters. */
  function DayOf(timestamp: string): (d: DateKey)
    ensures |d| == if |timestamp| < 10 then |timestamp| else 10
    ensures d == timestamp[..|d|]
  {
    if |timestamp| <= 10 then timestamp else timestamp[..10]
  }

  /** The days the records report, as a set. */
  function ReportedDays(records: seq<Record>): set<DateKey> {
    set i | 0 <= i < |records| :: DayOf(records[i].timestamp)
  }

  /** The dict comprehension of counts by day: a day reported twice keeps its last count. */
  function CountMap(records: seq<Record>): (m: map<DateKey, int>)
    ensures m.Keys == ReportedDays(records)
    decreases |records|
  {
    if |records| == 0 then map[]
    else
      var init := records[..|records| - 1];
      var last := records[|records| - 1];
      assert ReportedDays(records) == ReportedDays(init) + {DayOf(last.timestamp)} by {
        assert forall i :: 0 <= i < |init| ==> init[i] == records[i];
      }
      CountMap(init)[DayOf(last.timestamp) := last.count]
  }

  /** The count stored for a day is that of the last record reporting it. */
  lemma {:induction false} CountMapLast(records: seq<Record>, i: nat)
    requires i < |records|
    requires forall j :: i < j < |records| ==> DayOf(records[j].timestamp) != DayOf(records[i].timestamp)
    ensures CountMap(records)[DayOf(records[i].timestamp)] == records[i].count
    decreases |records|
  {
    var init := records[..|records| - 1];
    if i < |records| - 1 {
      assert init[i] == records[i];
      forall j | i < j < |init|
        ensures DayOf(init[j].timestamp) != DayOf(init[i].timestamp)
      {
        assert init[j] == records[j];
      }
      CountMapLast(init, i);
    }
  }

  /** Day `c` is one of the window's days that the response reports. */
  predicate Reported(counts: map<DateKey, int>, w: seq<DateKey>, c: DateKey) {
    c in w && c in counts
  }

  /** One pass of the loop over the window: `df.at[n, d] = counts[d]` when `d` is reported. */
  function Put(t: Table, n: RepoName, counts: map<DateKey, int>, d: DateKey): (r: Table)
    requires WellFormed(t) && n in t.rows
    ensures WellFormed(r) && r.rows == t.rows
    ensures r.cols == if d in counts && d !in t.cols then t.cols + [d] else t.cols
    ensures forall x, c :: x in r.cells && c in r.cells[x] ==>
      r.cells[x][c] == if x == n && c == d && d in counts then Some(counts[d])
                       else if c in t.cols then t.cells[x][c] else None
  {
    if d in counts then SetCell(t, n, d, counts[d]) else t
  }

  /** The loop over the window: `df.at[n, d] = counts[d]` for each reported day `d`. */
  function Overwrite(t: Table, n: RepoName, counts: map<DateKey, int>, w: seq<DateKey>): (r: Table)
    requires WellFormed(t) && n in t.rows
    ensures WellFormed(r) && r.rows == t.rows
    ensures |t.cols| <= |r.cols| && r.cols[..|t.cols|] == t.cols
    ensures forall c :: c in r.cols <==> c in t.cols || Reported(counts, w, c)
    decreases |w|
  {
    if |w| == 0 then t
    else
      var u := Put(t, n, counts, w[0]);
      var r := Overwrite(u, n, counts, w[1..]);
      PrefixOfAppend(t.cols, w[0]);
      PrefixTrans(t.cols, u.cols, r.cols);
      assert forall c :: c in w <==> c == w[0] || c in w[1..];
      r
  }

  /** When every reported day is already a column, the loop adds none. */
  lemma {:induction false} OverwriteKeepsColumns(t: Table, n: RepoName, counts: map<DateKey, int>, w: seq<DateKey>)
    requires WellFormed(t) && n in t.rows
    requires forall d :: Reported(counts, w, d) ==> d in t.cols
    ensures Overwrite(t, n, counts, w).cols == t.cols
    decreases |w|
  {
    if |w| > 0 {
      var u := Put(t, n, counts, w[0]);
      assert u.cols == t.cols;
      assert forall d :: Reported(counts, w[1..], d) ==> Reported(counts, w, d);
      OverwriteKeepsColumns(u, n, counts, w[1..]);
    }
  }

  /** After the loop, a reported day of row `n` holds its count; every other
      cell is as before, or NaN in a column the loop added. */
  lemma {:induction false} OverwriteCell(t: Table, n: RepoName, counts: map<DateKey, int>, w: seq<DateKey>,
                                         x: RepoName, c: DateKey)
    requires WellFormed(t) && n in t.rows && x in t.rows && c in Overwrite(t, n, counts, w).cols
    ensures x in Overwrite(t, n, counts, w).cells && c in Overwrite(t, n, counts, w).cells[x]
    ensures Overwrite(t, n, counts, w).cells[x][c] ==
      if x == n && Reported(counts, w, c) then Some(counts[c])
      else if c in t.cols then t.cells[x][c] else None
    decreases |w|
  {
    if |w| > 0 {
      var u := Put(t, n, counts, w[0]);
      OverwriteCell(u, n, counts, w[1..], x, c);
      assert c in w <==> c == w[0] || c in w[1..];
    }
  }

  /** The row exists, or the frame has a column so that `df.loc[n] = 0` can
      add it: on a frame without columns that assignment raises, and the
      handler's `except` swallows it. */
  predicate Admits(t: Table, n: RepoName) {
    n in t.rows || |t.cols| > 0
  }

  /** The value the merge leaves in row `x`, column `c`, before the int16 cast:
      the reported count, else the old cell with NaN read as 0. */
  function MergedValue(t: Table, n: RepoName, counts: map<DateKey, int>, w: seq<DateKey>,
                       x: RepoName, c: DateKey): int
  {
    if x == n && Reported(counts, w, c) then counts[c]
    else if x in t.cells && c in t.cells[x] then t.cells[x][c].GetOr(0)
    else 0
  }

  /** The row `df.loc[n] = 0` leaves for `n`: the existing one, or a new zero row. */
  function EnsureRow(t: Table, n: RepoName): (r: Table)
    requires WellFormed(t)
    ensures WellFormed(r) && n in r.rows && r.cols == t.cols
    ensures r.rows == if n in t.rows then t.rows else t.rows + [n]
    ensures forall x :: x in t.cells ==> x in r.cells && r.cells[x] == t.cells[x]
    ensures n !in t.rows ==> forall c :: c in t.cols ==> r.cells[n][c] == Some(0)
  {
    if n in t.rows then t else InsertZeroRow(t, n)
  }

  /** The body of the `try` for a repository that reported a "clones" list. */
  function Merge(t: Table, n: RepoName, records: seq<Record>, w: seq<DateKey>): (r: Table)
    requires WellFormed(t)
    ensures WellFormed(r)
    ensures !Admits(t, n) ==> r == t
    ensures Admits(t, n) ==> Normalized(r) && r.rows == if n in t.rows then t.rows else t.rows + [n]
    ensures |t.cols| <= |r.cols| && r.cols[..|t.cols|] == t.cols
    ensures forall c :: c in r.cols <==> c in t.cols || (Admits(t, n) && Reported(CountMap(records), w, c))
  {
    if !Admits(t, n) then t
    else Normalize(Overwrite(EnsureRow(t, n), n, CountMap(records), w))
  }

  /** A merge into a table that already has every window day as a column adds no column. */
  lemma MergeKeepsColumns(t: Table, n: RepoName, records: seq<Record>, w: seq<DateKey>)
    requires WellFormed(t)
    requires forall d :: d in w ==> d in t.cols
    ensures Merge(t, n, records, w).cols == t.cols
  {
    if Admits(t, n) {
      OverwriteKeepsColumns(EnsureRow(t, n), n, CountMap(records), w);
    }
  }

  /** After a merge that goes ahead, every cell holds the int16 cast of the
      reported count for a reported day of row `n`, and of the old value
      (NaN read as 0) everywhere else. */
  lemma MergeCell(t: Table, n: RepoName, records: seq<Record>, w: seq<DateKey>, x: RepoName, c: DateKey)
    requires WellFormed(t) && Admits(t, n)
    requires (x in t.rows || x == n) && (c in t.cols || Reported(CountMap(records), w, c))
    ensures x in Merge(t, n, records, w).cells && c in Merge(t, n, records, w).cells[x]
    ensures Merge(t, n, records, w).cells[x][c] == Some(Wrap16(MergedValue(t, n, CountMap(records), w, x, c)))
  {
    var u := EnsureRow(t, n);
    OverwriteCell(u, n, CountMap(records), w, x, c);
  }

  /** Every reported window day of row `n` holds its cast count after a merge that goes ahead. */
  lemma {:induction false} MergeReports(t: Table, n: RepoName, records: seq<Record>, w: seq<DateKey>)
    requires WellFormed(t)
    ensures var r, counts := Merge(t, n, records, w), CountMap(records);
      Admits(t, n) ==> forall c :: Reported(counts, w, c) ==> n in r.cells && c in r.cells[n] && r.cells[n][c] == Some(Wrap16(counts[c]))
  {
    var r, counts := Merge(t, n, records, w), CountMap(records);
    if Admits(t, n) {
      forall c | Reported(counts, w, c)
        ensures n in r.cells && c in r.cells[n] && r.cells[n][c] == Some(Wrap16(counts[c]))
      {
        MergeCell(t, n, records, w, n, c);
      }
    }
  }

  /** One existing cell that the response does not report for its row, after a merge. */
  lemma MergeOtherCell(t: Table, n: RepoName, records: seq<Record>, w: seq<DateKey>, x: RepoName, c: DateKey)
    requires WellFormed(t) && Admits(t, n) && x in t.cells && c in t.cells[x]
    ensures var r := Merge(t, n, records, w);
      !(x == n && Reported(CountMap(records), w, c)) ==>
        x in r.cells && c in r.cells[x] && r.cells[x][c] == Norm(t.cells[x][c])
  {
    if !(x == n && Reported(CountMap(records), w, c)) {
      MergeFrame(t, n, records, w, x, c);
    }
  }

  /** Every other existing cell holds its old value cast after a merge that goes ahead. */
  lemma {:induction false} MergeOthers(t: Table, n: RepoName, records: seq<Record>, w: seq<DateKey>)
    requires WellFormed(t)
    ensures var r, counts := Merge(t, n, records, w), CountMap(records);
      Admits(t, n) ==> forall x, c {:trigger t.cells[x][c]} :: x in t.cells && c in t.cells[x] && !(x == n && Reported(counts, w, c)) ==>
        x in r.cells && c in r.cells[x] && r.cells[x][c] == Norm(t.cells[x][c])
  {
    if Admits(t, n) {
      forall x, c {:trigger t.cells[x][c]} | x in t.cells && c in t.cells[x]
        ensures !(x == n && Reported(CountMap(records), w, c)) ==>
          x in Merge(t, n, records, w).cells && c in Merge(t, n, records, w).cells[x]
          && Merge(t, n, records, w).cells[x][c] == Norm(t.cells[x][c])
      {
        MergeOtherCell(t, n, records, w, x, c);
      }
    }
  }

  /** The handling of one repository in the loop. A private repository, a
      response without a "clones" list, a failed request, and a new repository
      the table cannot take leave the table as it was. Otherwise the reported
      window days of the repository's row hold the cast counts and every
      other existing cell holds its old value cast. */
  function Apply(t: Table, repo: Repo, w: seq<DateKey>): (r: Table)
    requires WellFormed(t)
    ensures WellFormed(r)
    ensures !(repo.fetch.Data? && Admits(t, repo.name)) ==> r == t
    ensures repo.fetch.Data? && Admits(t, repo.name) ==>
      var n, counts := repo.name, CountMap(repo.fetch.records);
      && Normalized(r)
      && (forall c :: Reported(counts, w, c) ==>
            n in r.cells && c in r.cells[n] && r.cells[n][c] == Some(Wrap16(counts[c])))
      && (forall x, c {:trigger t.cells[x][c]} :: x in t.cells && c in t.cells[x] && !(x == n && Reported(counts, w, c)) ==>
            x in r.cells && c in r.cells[x] && r.cells[x][c] == Norm(t.cells[x][c]))
  {
    match repo.fetch
    case Data(records) =>
      MergeReports(t, repo.name, records, w);
      MergeOthers(t, repo.name, records, w);
      Merge(t, repo.name, records, w)
    case _ => t
  }

  /** Only the reported window days of row `n` take new values: every other
      existing cell keeps its value, up to the int16 cast, and keeps it exactly
      when the table was already normalised. */
  lemma MergeFrame(t: Table, n: RepoName, records: seq<Record>, w: seq<DateKey>, x: RepoName, c: DateKey)
    requires WellFormed(t) && Admits(t, n)
    requires x in t.rows && c in t.cols && !(x == n && Reported(CountMap(records), w, c))
    ensures var r := Merge(t, n, records, w);
      && x in r.cells && c in r.cells[x] && r.cells[x][c] == Norm(t.cells[x][c])
      && (Normalized(t) ==> r.cells[x][c] == t.cells[x][c])
  {
    MergeCell(t, n, records, w, x, c);
  }

  /** A normalised table whose row `n` already holds the cast counts of every
      reported day is left as it is by the merge. */
  lemma MergeFixpoint(r: Table, n: RepoName, records: seq<Record>, w: seq<DateKey>)
    requires WellFormed(r) && Normalized(r) && n in r.rows
    requires forall c :: Reported(CountMap(records), w, c) ==>
      c in r.cols && r.cells[n][c] == Some(Wrap16(CountMap(records)[c]))
    ensures Merge(r, n, records, w) == r
  {
    var m := Merge(r, n, records, w);
    assert EnsureRow(r, n) == r;
    OverwriteKeepsColumns(r, n, CountMap(records), w);
    assert m.rows == r.rows && m.cols == r.cols;
    MergeReports(r, n, records, w);
    MergeOthers(r, n, records, w);
    forall x, c {:trigger r.cells[x][c]} | x in r.cells && c in r.cells[x]
      ensures x in m.cells && c in m.cells[x] && m.cells[x][c] == r.cells[x][c]
    {
      assert Norm(r.cells[x][c]) == r.cells[x][c];
    }
    SameTable(r, m);
  }

  /** Merging the same response a second time changes nothing. */
  lemma MergeIdempotent(t: Table, n: RepoName, records: seq<Record>, w: seq<DateKey>)
    requires WellFormed(t)
    ensures Merge(Merge(t, n, records, w), n, records, w) == Merge(t, n, records, w)
  {
    if Admits(t, n) {
      var r1 := Merge(t, n, records, w);
      var counts := CountMap(records);
      assert n in r1.rows;
      forall c | Reported(counts, w, c)
        ensures c in r1.cols && r1.cells[n][c] == Some(Wrap16(counts[c]))
      {
        assert c in r1.cols;
        MergeCell(t, n, records, w, n, c);
        assert MergedValue(t, n, counts, w, n, c) == counts[c];
      }
      MergeFixpoint(r1, n, records, w);
    }
  }

  /** Handling the same repository twice in a row is handling it once. */
  lemma ApplyIdempotent(t: Table, repo: Repo, w: seq<DateKey>)
    requires WellFormed(t)
    ensures Apply(Apply(t, repo, w), repo, w) == Apply(t, repo, w)
  {
    if repo.fetch.Data? {
      MergeIdempotent(t, repo.name, repo.fetch.records, w);
    }
  }

  /** The rows and columns after one repository: a repository that reports a
      "clones" list is appended when it is new and the table admits it. */
  lemma ApplyLabels(t: Table, repo: Repo, w: seq<DateKey>)
    requires WellFormed(t)
    ensures var r := Apply(t, repo, w);
      && r.rows == (if repo.fetch.Data? && Admits(t, repo.name) && repo.name !in t.rows then t.rows + [repo.name] else t.rows)
      && |t.cols| <= |r.cols|
  {
  }

  /** One repository leaves a cell it does not report for its row as it was, or cast. */
  lemma ApplyFrame(t: Table, repo: Repo, w: seq<DateKey>, x: RepoName, c: DateKey)
    requires WellFormed(t) && x in t.rows && c in t.cols
    requires repo.fetch.Data? && repo.name == x ==> !Reported(CountMap(repo.fetch.records), w, c)
    ensures var r := Apply(t, repo, w);
      && x in r.rows && c in r.cols && x in r.cells && c in r.cells[x]
      && (r.cells[x][c] == t.cells[x][c] || r.cells[x][c] == Norm(t.cells[x][c]))
  {
    if repo.fetch.Data? && Admits(t, repo.name) {
      MergeFrame(t, repo.name, repo.fetch.records, w, x, c);
    }
  }

  /** A repository that reports day `c` leaves the cast count in its cell, once
      the table has a column. */
  lemma ApplyReport(t: Table, repo: Repo, w: seq<DateKey>, c: DateKey)
    requires WellFormed(t) && |t.cols| > 0 && repo.fetch.Data?
    requires Reported(CountMap(repo.fetch.records), w, c)
    ensures var r := Apply(t, repo, w);
      && repo.name in r.rows && c in r.cols && repo.name in r.cells && c in r.cells[repo.name]
      && r.cells[repo.name][c] == Some(Wrap16(CountMap(repo.fetch.records)[c]))
  {
    MergeCell(t, repo.name, repo.fetch.records, w, repo.name, c);
  }

  /** A repository merged as a new row holds the cast count in each reported
      day and 0 in every other column. */
  lemma MergeNewRow(t: Table, n: RepoName, records: seq<Record>, w: seq<DateKey>, c: DateKey)
    requires WellFormed(t) && |t.cols| > 0 && n !in t.rows && c in t.cols
    ensures var r, counts := Merge(t, n, records, w), CountMap(records);
      && n in r.cells && c in r.cells[n]
      && r.cells[n][c] == Some(if Reported(counts, w, c) then Wrap16(counts[c]) else 0)
  {
    MergeCell(t, n, records, w, n, c);
  }
}
