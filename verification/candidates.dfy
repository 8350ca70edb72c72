/** `get_candidate_images` as a whole (main.py:59-114): the anniversary
    windows, the per-year dictionary, the spaced picks, the top-up and the
    shuffle, with the exceptions in the order the source raises them. */
module Candidates {
  import opened Common
  import opened Calendar
  import opened DateRanges
  import opened Grouping
  import opened Selection

  /** The generator is consumed lazily by the grouping loop, so an exception
      from grouping (at some yielded window) comes before one the generator
      raises after its last yield. `windows` and `accepted` expose the
      yielded windows and the images the acceptance loop kept. */
  method GetCandidateImages(until: DateTime, current: DateTime, persons: seq<string>, limit: int,
                            search: Search, fuel: nat)
    returns (r: Result<seq<Asset>>, ghost windows: seq<Window>, ghost accepted: seq<Asset>)
    requires Valid(until) && Valid(current)
    ensures windows == Generate(until, current).0
    ensures Grouped(windows, persons, search).Err? ==> r == Err(Grouped(windows, persons, search).error)
    ensures Grouped(windows, persons, search).Ok? && Generate(until, current).1.Some? ==>
              r == Err(Generate(until, current).1.value)
    ensures (&& Grouped(windows, persons, search).Ok? && Generate(until, current).1.None?
             && limit > 0 && Pool(Grouped(windows, persons, search).value) == []) ==> r == Err(IndexError)
    ensures r.Ok? ==> |accepted| == Target(limit) && Spaced(accepted)
    ensures r.Ok? ==> |accepted| <= |r.value| <= |accepted| + 1 && multiset(accepted) <= multiset(r.value)
    ensures r.Ok? ==> NoDuplicates(r.value)
    ensures r.Ok? ==> forall a | a in r.value :: Returned(a, windows, persons, search)
    ensures r.Ok? ==> (|r.value| == |accepted| + 1 <==> exists id :: id in persons && !Mentioned(accepted, id))
    ensures r.Ok? && |r.value| == |accepted| + 1 ==>
              exists id :: id in persons && !Mentioned(accepted, id) && Mentioned(r.value, id)
    ensures r.Ok? && (forall id, other | id in persons && other in persons && !Mentioned(accepted, id)
                                         && !Mentioned(accepted, other) :: id == other) ==>
              forall id | id in persons :: Mentioned(r.value, id)
    ensures Grouped(windows, persons, search).Ok? && Generate(until, current).1.None? ==>
              (r == Err(KeyError) <==>
                 && |accepted| == Target(limit)
                 && (forall id | id in persons :: Mentioned(accepted, id))
                 && !NoDuplicates(persons))
    ensures Grouped(windows, persons, search).Ok? && Generate(until, current).1.None? && r.Err? ==>
              r.error == IndexError || r.error == KeyError || r.error == RetriesExhausted
    ensures Grouped(windows, persons, search).Ok? && Generate(until, current).1.None? && r == Err(RetriesExhausted) ==>
              limit > 0
    ensures Grouped(windows, persons, search).Ok? && Generate(until, current).1.None? && r == Err(IndexError) ==>
              || (limit > 0 && Pool(Grouped(windows, persons, search).value) == [])
              || (&& |accepted| == Target(limit)
                  && exists id :: id in persons && !Mentioned(accepted, id)
                                  && FilterByPersonId(Grouped(windows, persons, search).value, id) == [])
  {
    var ws, failure := GenerateRanges(until, current);
    windows, accepted := ws, [];
    var grouped := GroupByYear(ws, persons, search);
    if grouped.Err? {
      return Err(grouped.error), windows, accepted;
    }
    if failure.Some? {
      return Err(failure.value), windows, accepted;
    }
    var ix := grouped.value;
    r, accepted := PickImages(ix, limit, persons, fuel);
    PoolReturned(ws, persons, search);
  }

  /** Every asset of the dictionary the grouping loop builds was returned by a
      search. */
  lemma PoolReturned(windows: seq<Window>, persons: seq<string>, search: Search)
    requires Grouped(windows, persons, search).Ok?
    ensures forall a | a in Pool(Grouped(windows, persons, search).value) :: Returned(a, windows, persons, search)
  {
    var ix := Grouped(windows, persons, search).value;
    GroupedFromSearch(windows, persons, search);
    forall a | a in Pool(ix) ensures Returned(a, windows, persons, search) {
      PoolMembership(ix, a);
    }
  }

  /** On 1-7 January the first window starts in the previous year, so with
      any tracked person the first `extend` hits a year that is not a key:
      the run ends with KeyError whenever the first window is yielded. */
  lemma EarlyJanuaryKeyError(until: DateTime, current: DateTime, persons: seq<string>, search: Search)
    requires Valid(until) && Valid(current)
    requires current.month == 1 && current.day <= 7 && current.year > MinYear
    requires !Before(DateTime(current.year, 1, current.day, 23, 59, 59, 999999), until)
    requires persons != []
    ensures Grouped(Generate(until, current).0, persons, search) == Err(KeyError)
  {
    OrdinalInYear(current);
    DaysBeforeYearMonotone(1, current.year);
    FirstWindowIsWeekBefore(current);
    var first := FirstWindow(current).value;
    WalkStep([], first, until);
    GroupedStraddleFails(Generate(until, current).0, persons, search);
  }

  /** On any other day every window starts and ends in the same year, so the
      grouping loop succeeds: the keys are the reference year and the years
      before it, newest first, and each year holds the results of that
      year's searches in person order. */
  lemma GroupedOutsideEarlyJanuary(until: DateTime, current: DateTime, persons: seq<string>, search: Search)
    requires Valid(until) && Valid(current)
    requires !(current.month == 1 && current.day <= 7)
    ensures var windows := Generate(until, current).0;
            && Grouped(windows, persons, search).Ok?
            && Grouped(windows, persons, search).value.order == EndYears(windows)
            && (forall i | 0 <= i < |windows| ::
                  && windows[i].end.year == current.year - i
                  && Grouped(windows, persons, search).value.buckets[windows[i].end.year]
                     == SearchAll(search, windows[i], persons))
  {
    var windows := Generate(until, current).0;
    GenerateSpec(until, current);
    FirstWindowIsWeekBefore(current);
    assert NoDuplicates(EndYears(windows));
    GroupedAligned(windows, persons, search);
  }
}
