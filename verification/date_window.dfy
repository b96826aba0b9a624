/**
 The tracked window of days: the `%Y-%m-%d` keys of every day from
 `today - period` up to and including `today`, as `pd.date_range(start,
 end, freq="D")` lists them. The clock reading `datetime.now()` is the
 parameter `today`, a day ordinal.
 */
module DateWindow {
  import opened Optional
  import opened TextOrder
  import opened Calendar
  import opened Sequences
  import opened TrafficTable

  /** The keys of the `n` consecutive days from day `start` on. */
  function Days(start: int, n: nat): (w: seq<DateKey>)
    requires InRange(start) && (n > 0 ==> InRange(start + n - 1))
    ensures |w| == n
  {
    seq(n, i requires 0 <= i < n => Key(start + i))
  }

  /** The window for `period` days before `today`. `None` when the first or
      last day lies outside the span pandas timestamps can hold, where
      building the range raises. A negative period gives an empty range. */
  function Window(today: int, period: int): (w: Option<seq<DateKey>>)
    ensures w.Some? <==> InRange(today - period) && InRange(today)
    ensures w.Some? ==> |w.value| == if period >= 0 then period + 1 else 0
  {
    if InRange(today - period) && InRange(today) then
      Some(Days(today - period, if period >= 0 then period + 1 else 0))
    else
      None
  }

  /** Position `i` holds the key of day `start + i`. */
  lemma DaysKeys(start: int, n: nat)
    requires InRange(start) && (n > 0 ==> InRange(start + n - 1))
    ensures forall i :: 0 <= i < n ==> Days(start, n)[i] == Key(start + i)
  {
  }

  /** Consecutive days give strictly ascending keys. */
  lemma DaysAscending(start: int, n: nat)
    requires InRange(start) && (n > 0 ==> InRange(start + n - 1))
    ensures forall i, j :: 0 <= i < j < n ==> LexLess(Days(start, n)[i], Days(start, n)[j])
  {
    forall i, j | 0 <= i < j < n
      ensures LexLess(Days(start, n)[i], Days(start, n)[j])
    {
      DaysPair(start, n, i, j);
    }
  }

  /** Two positions of the run of days, in order, hold ascending keys. */
  lemma DaysPair(start: int, n: nat, i: int, j: int)
    requires InRange(start) && (n > 0 ==> InRange(start + n - 1)) && 0 <= i < j < n
    ensures LexLess(Days(start, n)[i], Days(start, n)[j])
  {
    DaysKeys(start, n);
    KeyOrder(start + i, start + j);
  }

  /** The window runs from the key of `today - period` to the key of `today`,
      one day per position with no gaps, each key sorting before all later ones. */
  lemma WindowAscending(today: int, period: int)
    requires Window(today, period).Some?
    ensures var w := Window(today, period).value;
      && (forall i :: 0 <= i < |w| ==> w[i] == Key(today - period + i))
      && (forall i, j :: 0 <= i < j < |w| ==> LexLess(w[i], w[j]))
  {
    var n := if period >= 0 then period + 1 else 0;
    DaysKeys(today - period, n);
    DaysAscending(today - period, n);
  }

  /** A non-negative period gives a window that starts at `today - period` and ends at `today`. */
  lemma WindowEnds(today: int, period: int)
    requires Window(today, period).Some? && period >= 0
    ensures Window(today, period).value[0] == Key(today - period)
    ensures Window(today, period).value[period] == Key(today)
  {
    WindowAscending(today, period);
    var w := Window(today, period).value;
    assert w[0] == Key(today - period + 0);
    assert w[period] == Key(today - period + period);
  }

  /** No day key occurs twice in the window. */
  lemma WindowDistinct(today: int, period: int)
    requires Window(today, period).Some?
    ensures Distinct(Window(today, period).value)
  {
    var w := Window(today, period).value;
    WindowAscending(today, period);
    forall i, j | 0 <= i < j < |w|
      ensures w[i] != w[j]
    {
      LexLessDistinct(w[i], w[j]);
    }
  }

  /** A key is in the window exactly when it is the key of a day in the window. */
  lemma WindowMembers(today: int, period: int, k: DateKey)
    requires Window(today, period).Some?
    ensures k in Window(today, period).value <==>
      exists n :: today - period <= n <= today && InRange(n) && k == Key(n)
  {
    var w := Window(today, period).value;
    WindowAscending(today, period);
    if k in w {
      var i :| 0 <= i < |w| && w[i] == k;
      assert InRange(today - period + i) && k == Key(today - period + i);
    }
    if exists n :: today - period <= n <= today && InRange(n) && k == Key(n) {
      var n :| today - period <= n <= today && InRange(n) && k == Key(n);
      assert w[n - (today - period)] == k;
    }
  }
}
