/**
 A whole run of `save_data`: load the stored table for today's window, hand
 every repository the account lists to the reconciler in order, and save
 the result, unless the shutdown flag is seen first or loading raises.
 */
module HandleData {
  import opened Optional
  import opened Sequences
  import opened TrafficTable
  import opened DateWindow
  import opened TableStore
  import opened Reconciler

  /** The repository loop of `__get_data__`, without the shutdown check. */
  function Reconcile(t: Table, repos: seq<Repo>, w: seq<DateKey>): (r: Table)
    requires WellFormed(t)
    ensures WellFormed(r)
    ensures |t.rows| <= |r.rows| && r.rows[..|t.rows|] == t.rows
    ensures |t.cols| <= |r.cols| && r.cols[..|t.cols|] == t.cols
    decreases |repos|
  {
    if |repos| == 0 then t
    else
      var u := Apply(t, repos[0], w);
      var r := Reconcile(u, repos[1..], w);
      ApplyLabels(t, repos[0], w);
      PrefixTrans(t.rows, u.rows, r.rows);
      PrefixTrans(t.cols, u.cols, r.cols);
      r
  }

  /** Running the loop over two lists one after the other is running it over both. */
  lemma {:induction false} ReconcileConcat(t: Table, xs: seq<Repo>, ys: seq<Repo>, w: seq<DateKey>)
    requires WellFormed(t)
    ensures Reconcile(t, xs + ys, w) == Reconcile(Reconcile(t, xs, w), ys, w)
    decreases |xs|
  {
    if |xs| == 0 {
      assert xs + ys == ys;
    } else {
      assert (xs + ys)[0] == xs[0] && (xs + ys)[1..] == xs[1..] + ys;
      ReconcileConcat(Apply(t, xs[0], w), xs[1..], ys, w);
    }
  }

  /** A private, data-less or failed repository is skipped and the loop goes on
      as if it were not listed. */
  lemma ReconcileSkip(t: Table, xs: seq<Repo>, skipped: Repo, ys: seq<Repo>, w: seq<DateKey>)
    requires WellFormed(t) && !skipped.fetch.Data?
    ensures Reconcile(t, xs + [skipped] + ys, w) == Reconcile(t, xs + ys, w)
  {
    ReconcileConcat(t, xs + [skipped], ys, w);
    ReconcileConcat(t, xs, [skipped], w);
    ReconcileConcat(t, xs, ys, w);
    assert Reconcile(Reconcile(t, xs, w), [skipped], w) == Reconcile(t, xs, w);
  }

  /** A run in which no repository reports a "clones" list leaves the loaded
      table exactly as it was, NaN cells included. */
  lemma {:induction false} ReconcileNoData(t: Table, repos: seq<Repo>, w: seq<DateKey>)
    requires WellFormed(t)
    requires forall i :: 0 <= i < |repos| ==> !repos[i].fetch.Data?
    ensures Reconcile(t, repos, w) == t
    decreases |repos|
  {
    if |repos| > 0 {
      ReconcileNoData(t, repos[1..], w);
    }
  }

  /** When every window day is already a column, no repository adds one: the
      columns after loading are the columns after every merge. */
  lemma {:induction false} ReconcileKeepsColumns(t: Table, repos: seq<Repo>, w: seq<DateKey>)
    requires WellFormed(t)
    requires forall d :: d in w ==> d in t.cols
    ensures Reconcile(t, repos, w).cols == t.cols
    decreases |repos|
  {
    if |repos| > 0 {
      if repos[0].fetch.Data? {
        MergeKeepsColumns(t, repos[0].name, repos[0].fetch.records, w);
      }
      ReconcileKeepsColumns(Apply(t, repos[0], w), repos[1..], w);
    }
  }

  /** The row labels a run appends, in order: each repository that reports a
      "clones" list and is not yet a row, at its first report. */
  function Appended(rows: seq<RepoName>, repos: seq<Repo>): (a: seq<RepoName>)
    ensures forall x :: x in a ==> x !in rows
    ensures forall i :: 0 <= i < |repos| && repos[i].fetch.Data? ==> repos[i].name in rows || repos[i].name in a
    decreases |repos|
  {
    if |repos| == 0 then []
    else
      var x := repos[0];
      var rest := repos[1..];
      assert forall i :: 1 <= i < |repos| ==> repos[i] == rest[i - 1];
      if x.fetch.Data? && x.name !in rows then [x.name] + Appended(rows + [x.name], rest)
      else Appended(rows, rest)
  }

  /** Once the table has a column, the rows after the loop are the rows before
      it followed by the newly seen repositories, each once, in listing order. */
  lemma {:induction false} ReconcileRows(t: Table, repos: seq<Repo>, w: seq<DateKey>)
    requires WellFormed(t) && |t.cols| > 0
    ensures Reconcile(t, repos, w).rows == t.rows + Appended(t.rows, repos)
    decreases |repos|
  {
    if |repos| > 0 {
      var x, rest := repos[0], repos[1..];
      var u := Apply(t, x, w);
      assert Reconcile(t, repos, w) == Reconcile(u, rest, w);
      ApplyLabels(t, x, w);
      ReconcileRows(u, rest, w);
      if x.fetch.Data? && x.name !in t.rows {
        assert Appended(t.rows, repos) == [x.name] + Appended(u.rows, rest);
        ConcatAssoc(t.rows, [x.name], Appended(u.rows, rest));
      } else {
        assert Appended(t.rows, repos) == Appended(u.rows, rest);
      }
    }
  }

  /** Without any column no repository can be inserted, so the rows stay as loaded. */
  lemma {:induction false} ReconcileRowsWithoutColumns(t: Table, repos: seq<Repo>, w: seq<DateKey>)
    requires WellFormed(t) && t.cols == [] && w == []
    ensures Reconcile(t, repos, w).rows == t.rows
    decreases |repos|
  {
    if |repos| > 0 {
      var u := Apply(t, repos[0], w);
      if repos[0].fetch.Data? && Admits(t, repos[0].name) {
        assert forall c :: c !in u.cols;
      }
      assert u.cols == [] && u.rows == t.rows;
      ReconcileRowsWithoutColumns(u, repos[1..], w);
    }
  }

  /** A table stays normalised, and becomes normalised at the first repository
      that reports a "clones" list once there is a column to write into. */
  lemma {:induction false} ReconcileNormalized(t: Table, repos: seq<Repo>, w: seq<DateKey>)
    requires WellFormed(t)
    requires Normalized(t) || (|t.cols| > 0 && exists i :: 0 <= i < |repos| && repos[i].fetch.Data?)
    ensures Normalized(Reconcile(t, repos, w))
    decreases |repos|
  {
    if |repos| > 0 {
      var u := Apply(t, repos[0], w);
      if !Normalized(t) && !repos[0].fetch.Data? {
        var i :| 0 <= i < |repos| && repos[i].fetch.Data?;
        assert repos[1..][i - 1] == repos[i];
      }
      ReconcileNormalized(u, repos[1..], w);
    }
  }

  /** No response in `repos` for repository `x` reports window day `c`. */
  predicate Untouched(repos: seq<Repo>, w: seq<DateKey>, x: RepoName, c: DateKey) {
    forall i :: 0 <= i < |repos| && repos[i].fetch.Data? && repos[i].name == x ==>
      !Reported(CountMap(repos[i].fetch.records), w, c)
  }

  /** What holds of every response from position `k` on holds of the suffix from `k`. */
  lemma UntouchedSuffix(repos: seq<Repo>, w: seq<DateKey>, x: RepoName, c: DateKey, k: nat)
    requires k <= |repos|
    requires forall i :: k <= i < |repos| && repos[i].fetch.Data? && repos[i].name == x ==>
      !Reported(CountMap(repos[i].fetch.records), w, c)
    ensures Untouched(repos[k..], w, x, c)
  {
    var rest := repos[k..];
    forall i | 0 <= i < |rest| && rest[i].fetch.Data? && rest[i].name == x
      ensures !Reported(CountMap(rest[i].fetch.records), w, c)
    {
      assert rest[i] == repos[k + i];
    }
  }

  /** A cell that no repository of the run reports for its row keeps its value,
      up to the int16 cast. */
  lemma {:induction false} ReconcileFrame(t: Table, repos: seq<Repo>, w: seq<DateKey>, x: RepoName, c: DateKey)
    requires WellFormed(t) && x in t.rows && c in t.cols && Untouched(repos, w, x, c)
    ensures var r := Reconcile(t, repos, w);
      && x in r.cells && c in r.cells[x]
      && (r.cells[x][c] == t.cells[x][c] || r.cells[x][c] == Norm(t.cells[x][c]))
      && Norm(r.cells[x][c]) == Norm(t.cells[x][c])
    decreases |repos|
  {
    if |repos| > 0 {
      var rest := repos[1..];
      var u := Apply(t, repos[0], w);
      assert Reconcile(t, repos, w) == Reconcile(u, rest, w);
      ApplyFrame(t, repos[0], w, x, c);
      UntouchedSuffix(repos, w, x, c, 1);
      ReconcileFrame(u, rest, w, x, c);
      NormTwice(t.cells[x][c]);
    }
  }

  /** The last report wins: a repository's cell for a reported window day holds
      the int16 cast of the count from its last response that reports that day. */
  lemma ReconcileLastReport(t: Table, repos: seq<Repo>, w: seq<DateKey>, i: nat, c: DateKey)
    requires WellFormed(t) && |t.cols| > 0 && i < |repos| && repos[i].fetch.Data?
    requires Reported(CountMap(repos[i].fetch.records), w, c)
    requires forall j :: i < j < |repos| && repos[j].fetch.Data? && repos[j].name == repos[i].name ==>
      !Reported(CountMap(repos[j].fetch.records), w, c)
    ensures var r, x := Reconcile(t, repos, w), repos[i].name;
      x in r.cells && c in r.cells[x] && r.cells[x][c] == Some(Wrap16(CountMap(repos[i].fetch.records)[c]))
  {
    var x := repos[i].name;
    var before := Reconcile(t, repos[..i], w);
    var after := Apply(before, repos[i], w);
    var rest := repos[i + 1..];
    ReconcileAt(t, repos, w, i);
    ApplyReport(before, repos[i], w, c);
    UntouchedSuffix(repos, w, x, c, i + 1);
    ReconcileFrame(after, rest, w, x, c);
  }

  /** The loop reaches the repository at `i` with the table the earlier ones left,
      and goes on from the table it leaves. */
  lemma ReconcileAt(t: Table, repos: seq<Repo>, w: seq<DateKey>, i: nat)
    requires WellFormed(t) && i < |repos|
    ensures Reconcile(t, repos, w) ==
      Reconcile(Apply(Reconcile(t, repos[..i], w), repos[i], w), repos[i + 1..], w)
  {
    SplitAt(repos, i);
    ReconcileConcat(t, repos[..i] + [repos[i]], repos[i + 1..], w);
    ReconcileConcat(t, repos[..i], [repos[i]], w);
    var before := Reconcile(t, repos[..i], w);
    assert Reconcile(before, [repos[i]], w) == Reconcile(Apply(before, repos[i], w), [], w);
  }

  // ------------------------------------------------------------------ the run

  /** Where the shutdown flag is first seen cleared: never, by `save_data`
      before it starts, or by the loop before the repository at `index`. */
  datatype Shutdown = Never | BeforeStart | BeforeRepo(index: nat)

  datatype Failure =
    | UnreadableInput      // reading the stored file raised an error not caught
    | DateOutOfRange       // the window's first or last day is not a pandas timestamp

  datatype Outcome =
    | Saved(table: Table)  // handed to the converter for the output file
    | Exited               // `exit(0)`: nothing is saved
    | Raised(failure: Failure)

  /** `save_data` with the clock reading `today`, the stored file, the listed
      repositories with their responses, and where shutdown is requested. */
  function SaveData(stored: Stored, today: int, period: int, repos: seq<Repo>, stop: Shutdown): (o: Outcome)
    requires stored.Parsed? ==> WellFormed(stored.table)
    ensures o.Exited? <==> (stop.BeforeStart? ||
      (stop.BeforeRepo? && stop.index < |repos| && !stored.Unparsable? && Window(today, period).Some?))
    ensures o.Raised? <==> !stop.BeforeStart? && (stored.Unparsable? || Window(today, period).None?)
    ensures o.Raised? ==> o.failure == if stored.Unparsable? then UnreadableInput else DateOutOfRange
    ensures o.Saved? ==> WellFormed(o.table) && forall d :: d in Window(today, period).value ==> d in o.table.cols
  {
    if stop.BeforeStart? then Exited
    else if stored.Unparsable? then Raised(UnreadableInput)
    else
      match Window(today, period)
      case None => Raised(DateOutOfRange)
      case Some(w) =>
        if stop.BeforeRepo? && stop.index < |repos| then Exited
        else
          var loaded := Load(stored, w).value;
          var r := Reconcile(loaded, repos, w);
          ReconcileKeepsColumns(loaded, repos, w);
          Saved(r)
  }

  /** A saved table has the columns loading gave it, keeps the loaded rows first,
      and appends the newly seen repositories once each when the window is not empty. */
  lemma SavedShape(stored: Stored, today: int, period: int, repos: seq<Repo>, stop: Shutdown)
    requires stored.Parsed? ==> WellFormed(stored.table)
    requires SaveData(stored, today, period, repos, stop).Saved?
    ensures var o, w := SaveData(stored, today, period, repos, stop), Window(today, period).value;
      var loaded := Load(stored, w).value;
      && o.table.cols == loaded.cols
      && (period >= 0 ==> o.table.rows == loaded.rows + Appended(loaded.rows, repos))
      && (period >= 0 && (exists i :: 0 <= i < |repos| && repos[i].fetch.Data?) ==> Normalized(o.table))
  {
    var w := Window(today, period).value;
    var loaded := Load(stored, w).value;
    ReconcileKeepsColumns(loaded, repos, w);
    if period >= 0 {
      assert w[0] in loaded.cols;
      ReconcileRows(loaded, repos, w);
      if exists i :: 0 <= i < |repos| && repos[i].fetch.Data? {
        ReconcileNormalized(loaded, repos, w);
      }
    }
  }

  /** Without a shutdown request and with a readable file and a valid window,
      the run saves what the loop makes of the loaded table. */
  lemma SaveDataRuns(stored: Stored, today: int, period: int, repos: seq<Repo>)
    requires stored.Parsed? ==> WellFormed(stored.table)
    requires !stored.Unparsable? && Window(today, period).Some?
    ensures var w := Window(today, period).value;
      SaveData(stored, today, period, repos, Never) == Saved(Reconcile(Load(stored, w).value, repos, w))
  {
  }

  /** A first run without a stored file and one repository: the table has that
      repository as its only row, the window as its columns, the cast reported
      count in every reported day and 0 in every other day. */
  lemma FirstRun(stored: Stored, today: int, period: int, repo: Repo)
    requires (stored.Missing? || stored.EmptyFile?) && Window(today, period).Some? && period >= 0
    requires repo.fetch.Data?
    ensures var o, w := SaveData(stored, today, period, [repo], Never), Window(today, period).value;
      var counts := CountMap(repo.fetch.records);
      && o.Saved? && o.table.rows == [repo.name] && o.table.cols == w
      && forall c :: c in w ==>
           && repo.name in o.table.cells && c in o.table.cells[repo.name]
           && o.table.cells[repo.name][c] == Some(if c in counts then Wrap16(counts[c]) else 0)
  {
    var w := Window(today, period).value;
    WindowDistinct(today, period);
    var loaded := Load(stored, w).value;
    SaveDataRuns(stored, today, period, [repo]);
    var r := Merge(loaded, repo.name, repo.fetch.records, w);
    assert Reconcile(loaded, [repo], w) == Reconcile(r, [], w);
    MergeKeepsColumns(loaded, repo.name, repo.fetch.records, w);
    assert |loaded.cols| > 0 by {
      assert w[0] in loaded.cols;
    }
    forall c | c in w
      ensures repo.name in r.cells && c in r.cells[repo.name]
      ensures r.cells[repo.name][c] == Some(if c in CountMap(repo.fetch.records) then Wrap16(CountMap(repo.fetch.records)[c]) else 0)
    {
      MergeNewRow(loaded, repo.name, repo.fetch.records, w, c);
    }
  }
}
