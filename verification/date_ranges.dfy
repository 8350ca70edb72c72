/** The anniversary windows `generate_dt_ranges` yields: the week ending on
    the reference day, then the same calendar dates one year earlier, and
    so on back to the `until` bound. */
module DateRanges {
  import opened Common
  import opened Calendar

  /** One yielded pair `(range_start, range_end)`, both ends inclusive. */
  datatype Window = Window(start: DateTime, end: DateTime)

  predicate ValidWindow(w: Window)
  {
    Valid(w.start) && Valid(w.end)
  }

  /** Days from the first window's start to the reference day. */
  const WeekDays: nat := 7

  /** Length of the first window in microseconds: eight whole days less one
      microsecond. */
  const FirstSpan := 8 * 86400 * 1000000 - 1

  /** main.py:43-47: the first window, or `None` for the OverflowError of
      subtracting seven days too close to 0001-01-01. */
  function FirstWindow(current: DateTime): (r: Option<Window>)
    requires Valid(current)
    ensures r.Some? ==> ValidWindow(r.value)
  {
    var midnight := current.(hour := 0, minute := 0, second := 0, microsecond := 0);
    match SubtractDays(midnight, WeekDays)
    case None => None
    case Some(s) => Some(Window(s, midnight.(hour := 23, minute := 59, second := 59, microsecond := 999999)))
  }

  /** The first window is the week before the reference day: the reference
      day's own time of day is dropped, the start is seven days earlier at
      midnight and the end is the reference day's last microsecond. It
      exists unless the reference day is less than eight days after
      0001-01-01, and its start lies in the previous year exactly when the
      reference day is one of 1-7 January. */
  lemma FirstWindowIsWeekBefore(current: DateTime)
    requires Valid(current)
    ensures FirstWindow(current).None? <==> Ordinal(current) <= 7
    ensures FirstWindow(current).Some? ==>
              var w := FirstWindow(current).value;
              && w.end == DateTime(current.year, current.month, current.day, 23, 59, 59, 999999)
              && w.start.hour == 0 && w.start.minute == 0 && w.start.second == 0 && w.start.microsecond == 0
              && Ordinal(w.start) == Ordinal(current) - 7
              && Micros(w.end) - Micros(w.start) == FirstSpan
              && w.start.year == if current.month == 1 && current.day <= 7 then current.year - 1 else current.year
  {
    var midnight := current.(hour := 0, minute := 0, second := 0, microsecond := 0);
    SubtractDaysIsOrdinalShift(midnight, WeekDays);
    var s := SubtractDays(midnight, WeekDays);
    if s.Some? {
      WeekEarlierYear(midnight, s.value);
    }
  }

  /** Seven days before a date in 1-7 January falls in the previous year;
      seven days before any other date falls in the same year. */
  lemma WeekEarlierYear(t: DateTime, s: DateTime)
    requires Valid(t) && Valid(s) && Ordinal(s) == Ordinal(t) - 7
    ensures s.year == if t.month == 1 && t.day <= 7 then t.year - 1 else t.year
  {
    OrdinalInYear(t);
    OrdinalPositive(s);
    if t.month == 1 && t.day <= 7 {
      DaysBeforeNextYear(t.year - 1);
      YearOfOrdinal(s, t.year - 1);
    } else {
      YearOfOrdinal(s, t.year);
    }
  }

  /** main.py:55-56: `replace(year=year-1)` on the start, then on the end;
      `None` is the ValueError either raises. */
  function ShiftBack(w: Window): (r: Option<Window>)
    requires ValidWindow(w)
    ensures r.Some? ==> ValidWindow(r.value) && r.value.end.year == w.end.year - 1
  {
    match ReplaceYear(w.start, w.start.year - 1)
    case None => None
    case Some(s) =>
      match ReplaceYear(w.end, w.end.year - 1)
      case None => None
      case Some(e) => Some(Window(s, e))
  }

  /** Moving a window back a year keeps month, day and time of day of both
      bounds and makes both strictly earlier. It fails exactly when a bound
      is in year 1 or on 29 February (a leap day's year is a leap year, so
      the year before never is). */
  lemma ShiftBackIsYearEarlier(w: Window)
    requires ValidWindow(w)
    ensures ShiftBack(w).None? <==> w.start.year == MinYear || w.end.year == MinYear
                                    || IsLeapDay(w.start) || IsLeapDay(w.end)
    ensures ShiftBack(w).Some? ==>
              var r := ShiftBack(w).value;
              && r.start == w.start.(year := w.start.year - 1)
              && r.end == w.end.(year := w.end.year - 1)
              && Before(r.start, w.start) && Before(r.end, w.end)
  {
  }

  /** `b` is `a` moved back one calendar year. */
  predicate Follows(a: Window, b: Window)
    requires ValidWindow(a)
  {
    ShiftBack(a) == Some(b)
  }

  predicate AllValid(windows: seq<Window>)
  {
    forall i | 0 <= i < |windows| :: ValidWindow(windows[i])
  }

  /** Each window is its predecessor moved back one calendar year. */
  predicate Chained(windows: seq<Window>)
    requires AllValid(windows)
  {
    forall i {:trigger Follows(windows[i - 1], windows[i])} | 0 < i < |windows| :: Follows(windows[i - 1], windows[i])
  }

  /** The loop of main.py:49-56 entered with `w` as the current window: the
      windows it yields and the exception that ends it, if any. */
  function Walk(w: Window, until: DateTime): (r: (seq<Window>, Option<Error>))
    requires ValidWindow(w) && Valid(until)
    ensures r.0 != [] <==> !Before(w.end, until)
    ensures r.0 != [] ==> r.0[0] == w
    ensures r.1.Some? ==> r.1 == Some(ValueError) && r.0 != []
    decreases w.end.year - until.year + 1
  {
    if Before(w.end, until) then ([], None)
    else match ShiftBack(w)
      case None => ([w], Some(ValueError))
      case Some(next) =>
        var rest := Walk(next, until);
        ([w] + rest.0, rest.1)
  }

  /** The whole generator: the windows it yields, in order, and the
      exception that ends it, if any. */
  function Generate(until: DateTime, current: DateTime): (r: (seq<Window>, Option<Error>))
    requires Valid(until) && Valid(current)
    ensures r.1 == Some(OverflowError) <==> FirstWindow(current).None?
    ensures r.1 == Some(OverflowError) ==> r.0 == []
    ensures r.1.Some? ==> r.1 == Some(OverflowError) || r.1 == Some(ValueError)
  {
    match FirstWindow(current)
    case None => ([], Some(OverflowError))
    case Some(w) => Walk(w, until)
  }

  /** The window the generator computes after yielding `windows`. */
  function NextWindow(windows: seq<Window>, current: DateTime): Option<Window>
    requires Valid(current) && AllValid(windows)
  {
    if windows == [] then FirstWindow(current) else ShiftBack(windows[|windows| - 1])
  }

  /** `generate_dt_ranges(until, current_dt)` run to exhaustion, as its
      caller does. */
  method GenerateRanges(until: DateTime, current: DateTime) returns (windows: seq<Window>, failure: Option<Error>)
    requires Valid(until) && Valid(current)
    ensures (windows, failure) == Generate(until, current)
  {
    var first := FirstWindow(current);
    if first.None? {
      return [], Some(OverflowError);
    }
    var w := first.value;
    ghost var yielded := Generate(until, current).0;
    ghost var ending := Generate(until, current).1;
    windows, failure := [], None;
    while !Before(w.end, until)
      invariant ValidWindow(w)
      invariant windows + Walk(w, until).0 == yielded && Walk(w, until).1 == ending
      decreases w.end.year - until.year
    {
      var next := ShiftBack(w);
      WalkStep(windows, w, until);
      if next.None? {
        windows, failure := windows + [w], Some(ValueError);
        return;
      }
      windows := windows + [w];
      w := next.value;
    }
    WalkStep(windows, w, until);
    assert windows == windows + [];
  }

  /** One turn of the loop: yielding `w` moves it from the walk still to
      come onto the windows already yielded. */
  lemma WalkStep(yielded: seq<Window>, w: Window, until: DateTime)
    requires ValidWindow(w) && Valid(until)
    ensures Before(w.end, until) ==> Walk(w, until) == ([], None)
    ensures !Before(w.end, until) && ShiftBack(w).None? ==> Walk(w, until) == ([w], Some(ValueError))
    ensures !Before(w.end, until) && ShiftBack(w).Some? ==>
      && yielded + Walk(w, until).0 == (yielded + [w]) + Walk(ShiftBack(w).value, until).0
      && Walk(w, until).1 == Walk(ShiftBack(w).value, until).1
  {
  }

  /** Walking from `w` yields a chain that starts at `w`. */
  lemma {:induction false} WalkChained(w: Window, until: DateTime)
    requires ValidWindow(w) && Valid(until)
    ensures var ws := Walk(w, until).0; AllValid(ws) && Chained(ws) && (ws != [] ==> ws[0] == w)
    decreases w.end.year - until.year + 1
  {
    if !Before(w.end, until) && ShiftBack(w).Some? {
      var next := ShiftBack(w).value;
      WalkChained(next, until);
      var rest := Walk(next, until).0;
      var ws := [w] + rest;
      forall i | 0 < i < |ws| ensures Follows(ws[i - 1], ws[i]) {
        if i > 1 {
          var k := i - 1;
          assert Follows(rest[k - 1], rest[k]);
        }
      }
    }
  }

  /** Walking from `w` yields only windows ending at or after the bound, at
      most one per year between the bound and `w`. */
  lemma {:induction false} WalkBounded(w: Window, until: DateTime)
    requires ValidWindow(w) && Valid(until)
    ensures var ws := Walk(w, until).0;
            && (forall i | 0 <= i < |ws| :: !Before(ws[i].end, until))
            && (ws != [] ==> |ws| <= w.end.year - until.year + 1)
    decreases w.end.year - until.year + 1
  {
    if !Before(w.end, until) && ShiftBack(w).Some? {
      WalkBounded(ShiftBack(w).value, until);
    }
  }

  /** Walking from `w` stops for one of two reasons: the window after the last
      one yielded (or `w` itself) ends before the bound, or moving the last
      one back a year raised ValueError. */
  lemma {:induction false} WalkTight(w: Window, until: DateTime)
    requires ValidWindow(w) && Valid(until)
    ensures var (ws, failure) := Walk(w, until);
            && AllValid(ws)
            && var next := if ws == [] then Some(w) else ShiftBack(ws[|ws| - 1]);
            && (failure.None? <==> next.Some?)
            && (failure.None? ==> Before(next.value.end, until))
            && (failure.Some? ==> ws != [] && failure == Some(ValueError))
    decreases w.end.year - until.year + 1
  {
    WalkChained(w, until);
    if !Before(w.end, until) && ShiftBack(w).Some? {
      var next := ShiftBack(w).value;
      WalkTight(next, until);
      var rest := Walk(next, until).0;
      if rest != [] {
        assert ([w] + rest)[|rest|] == rest[|rest| - 1];
      }
    }
  }

  /** What `generate_dt_ranges` yields: the first window is the week ending
      on the reference day; each later one is the previous one moved back one
      calendar year, so both bounds strictly decrease; none ends before the
      bound and there are finitely many; a normal end means the next window
      is the first to end before the bound; otherwise the exception is
      OverflowError before the first window or ValueError after a later one. */
  lemma GenerateSpec(until: DateTime, current: DateTime)
    requires Valid(until) && Valid(current)
    ensures var (windows, failure) := Generate(until, current);
      && AllValid(windows) && Chained(windows)
      && (windows != [] ==> FirstWindow(current) == Some(windows[0]))
      && (forall i | 0 <= i < |windows| ::
            windows[i].end.year == current.year - i && windows[i].start.year == windows[0].start.year - i)
      && (forall i, j | 0 <= i < j < |windows| ::
            Before(windows[j].start, windows[i].start) && Before(windows[j].end, windows[i].end))
      && (forall i | 0 <= i < |windows| :: !Before(windows[i].end, until))
      && (windows != [] ==> |windows| <= current.year - until.year + 1)
      && (failure.None? <==> NextWindow(windows, current).Some?)
      && (failure.None? ==> Before(NextWindow(windows, current).value.end, until))
      && (failure.Some? ==> failure.value == if windows == [] then OverflowError else ValueError)
  {
    FirstWindowIsWeekBefore(current);
    var first := FirstWindow(current);
    if first.Some? {
      WalkChained(first.value, until);
      WalkBounded(first.value, until);
      WalkTight(first.value, until);
      ChainedYears(Walk(first.value, until).0);
    }
  }

  /** Along a chain the years drop by one per step, so the chain is strictly
      decreasing in both bounds. */
  lemma {:induction false} ChainedYears(windows: seq<Window>)
    requires AllValid(windows) && Chained(windows)
    ensures forall i | 0 <= i < |windows| ::
              windows[i].end.year == windows[0].end.year - i && windows[i].start.year == windows[0].start.year - i
    ensures forall i, j | 0 <= i < j < |windows| ::
              Before(windows[j].start, windows[i].start) && Before(windows[j].end, windows[i].end)
  {
    if |windows| > 1 {
      var prefix := windows[..|windows| - 1];
      assert Chained(prefix) by {
        forall i | 0 < i < |prefix| ensures Follows(prefix[i - 1], prefix[i]) {
          assert Follows(windows[i - 1], windows[i]);
        }
      }
      ChainedYears(prefix);
      var k := |windows| - 1;
      assert Follows(windows[k - 1], windows[k]);
    }
  }

  /** With the bound 2024-06-15 on 2025-06-20 the job searches the week of
      13-20 June 2025, then the same dates in 2024, and stops normally. */
  lemma JuneExample()
    ensures Generate(DateTime(2024, 6, 15, 0, 0, 0, 0), DateTime(2025, 6, 20, 8, 30, 0, 0))
         == ([Window(DateTime(2025, 6, 13, 0, 0, 0, 0), DateTime(2025, 6, 20, 23, 59, 59, 999999)),
              Window(DateTime(2024, 6, 13, 0, 0, 0, 0), DateTime(2024, 6, 20, 23, 59, 59, 999999))],
             None)
  {
    var until := DateTime(2024, 6, 15, 0, 0, 0, 0);
    var first := Window(DateTime(2025, 6, 13, 0, 0, 0, 0), DateTime(2025, 6, 20, 23, 59, 59, 999999));
    var second := Window(DateTime(2024, 6, 13, 0, 0, 0, 0), DateTime(2024, 6, 20, 23, 59, 59, 999999));
    var third := Window(DateTime(2023, 6, 13, 0, 0, 0, 0), DateTime(2023, 6, 20, 23, 59, 59, 999999));
    assert FirstWindow(DateTime(2025, 6, 20, 8, 30, 0, 0)) == Some(first);
    assert ShiftBack(first) == Some(second);
    assert ShiftBack(second) == Some(third);
    WalkStep([], third, until);
    WalkStep([], second, until);
    WalkStep([], first, until);
    assert Walk(third, until) == ([], None);
    assert [second] + [] == [second];
    assert Walk(second, until) == ([second], None);
    assert Walk(first, until) == ([first] + [second], None);
    assert [first] + [second] == [first, second];
  }
}
