/** The per-year `assets` dictionary `get_candidate_images` fills from the
    search results (main.py:60-70), and `filter_by_person_id`
    (main.py:117-123) over it. */
module Grouping {
  import opened Common
  import opened Calendar
  import opened DateRanges

  /** A remote search: the assets the photo service returns for one window
      and one person id. */
  type Search = (Window, string) -> seq<Asset>

  /** A dictionary from years to asset lists, with Python's iteration order:
      the keys in the order they were first inserted. */
  datatype YearIndex = YearIndex(order: seq<int>, buckets: map<int, seq<Asset>>)

  predicate WellFormed(ix: YearIndex)
  {
    && NoDuplicates(ix.order)
    && (forall i | 0 <= i < |ix.order| :: ix.order[i] in ix.buckets)
    && (forall y | y in ix.buckets :: y in ix.order)
  }

  const Empty := YearIndex([], map[])

  /** `assets[y] = v`: a new key goes last in the iteration order, an
      existing key keeps its place. */
  function Put(ix: YearIndex, y: int, v: seq<Asset>): (r: YearIndex)
    requires WellFormed(ix)
    ensures WellFormed(r)
    ensures y in r.buckets && r.buckets[y] == v
    ensures forall k | k in ix.buckets && k != y :: k in r.buckets && r.buckets[k] == ix.buckets[k]
    ensures r.buckets.Keys == ix.buckets.Keys + {y}
    ensures y in ix.buckets ==> r.order == ix.order
    ensures y !in ix.buckets ==> r.order == ix.order + [y]
  {
    YearIndex(if y in ix.buckets then ix.order else ix.order + [y], ix.buckets[y := v])
  }

  /** The results of one window's searches, one per tracked person, in the
      order of the person list. */
  function SearchAll(search: Search, w: Window, persons: seq<string>): (r: seq<Asset>)
    ensures persons == [] ==> r == []
    ensures |persons| == 1 ==> r == search(w, persons[0])
  {
    if persons == [] then []
    else SearchAll(search, w, persons[..|persons| - 1]) + search(w, persons[|persons| - 1])
  }

  /** Every tracked person's results are part of the window's list, each
      asset as often as that search returned it. */
  lemma {:induction false} SearchAllIncludes(search: Search, w: Window, persons: seq<string>)
    ensures forall k | 0 <= k < |persons| :: multiset(search(w, persons[k])) <= multiset(SearchAll(search, w, persons))
  {
    if persons != [] {
      var prefix := persons[..|persons| - 1];
      SearchAllIncludes(search, w, prefix);
      assert multiset(SearchAll(search, w, persons))
             == multiset(SearchAll(search, w, prefix)) + multiset(search(w, persons[|persons| - 1]));
      forall k | 0 <= k < |persons| - 1
        ensures multiset(search(w, persons[k])) <= multiset(SearchAll(search, w, persons))
      {
        assert persons[k] == prefix[k];
      }
    }
  }

  /** One pass of the outer loop body (main.py:62-70): reset the start
      year's list, then extend the END year's list once per person, which
      is a KeyError when that year is not a key. */
  function GroupWindow(ix: YearIndex, w: Window, persons: seq<string>, search: Search): (r: Result<YearIndex>)
    requires WellFormed(ix)
    ensures r.Ok? ==> WellFormed(r.value)
  {
    var reset := Put(ix, w.start.year, []);
    if persons == [] then Ok(reset)
    else if w.end.year !in reset.buckets then Err(KeyError)
    else Ok(Put(reset, w.end.year, reset.buckets[w.end.year] + SearchAll(search, w, persons)))
  }

  /** The dictionary after the outer loop has processed `windows`, or the
      exception it raised. */
  function Grouped(windows: seq<Window>, persons: seq<string>, search: Search): (r: Result<YearIndex>)
    ensures r.Ok? ==> WellFormed(r.value)
  {
    if windows == [] then Ok(Empty)
    else match Grouped(windows[..|windows| - 1], persons, search)
      case Err(e) => Err(e)
      case Ok(ix) => GroupWindow(ix, windows[|windows| - 1], persons, search)
  }

  /** One pass of the outer loop (main.py:61-70): reset the start year's
      list, then one search and one `extend` per tracked person. */
  method AddWindow(ix: YearIndex, w: Window, persons: seq<string>, search: Search) returns (r: Result<YearIndex>)
    requires WellFormed(ix)
    ensures r == GroupWindow(ix, w, persons, search)
  {
    var reset := Put(ix, w.start.year, []);
    var order := reset.order;
    var buckets := reset.buckets;
    for k := 0 to |persons|
      invariant k > 0 ==> w.end.year in reset.buckets
      invariant buckets == if k == 0 then reset.buckets
                           else reset.buckets[w.end.year := reset.buckets[w.end.year] + SearchAll(search, w, persons[..k])]
    {
      if w.end.year !in buckets {
        return Err(KeyError);
      }
      ExtendStep(reset.buckets[w.end.year], search, w, persons, k);
      buckets := buckets[w.end.year := buckets[w.end.year] + search(w, persons[k])];
    }
    assert persons[..|persons|] == persons;
    if persons != [] {
      var y := w.end.year;
      assert Put(reset, y, reset.buckets[y] + SearchAll(search, w, persons)) == YearIndex(order, buckets);
    }
    return Ok(YearIndex(order, buckets));
  }

  /** One `extend` of the inner loop adds the next person's results to the
      list built so far. */
  lemma ExtendStep(base: seq<Asset>, search: Search, w: Window, persons: seq<string>, k: nat)
    requires k < |persons|
    ensures k == 0 ==> base + SearchAll(search, w, persons[..k]) == base
    ensures (base + SearchAll(search, w, persons[..k])) + search(w, persons[k])
            == base + SearchAll(search, w, persons[..k + 1])
  {
    assert persons[..k + 1][..k] == persons[..k];
    assert persons[..0] == [];
  }

  /** The grouping loops of main.py:60-70, over the windows the generator
      yielded. */
  method GroupByYear(windows: seq<Window>, persons: seq<string>, search: Search) returns (r: Result<YearIndex>)
    ensures r == Grouped(windows, persons, search)
  {
    var ix := Empty;
    for i := 0 to |windows|
      invariant WellFormed(ix)
      invariant Grouped(windows[..i], persons, search) == Ok(ix)
    {
      assert windows[..i + 1][..i] == windows[..i];
      r := AddWindow(ix, windows[i], persons, search);
      if r.Err? {
        GroupedStopsAtError(windows, i + 1, persons, search);
        return;
      }
      ix := r.value;
    }
    assert windows[..|windows|] == windows;
    return Ok(ix);
  }

  /** Once a prefix of the windows raises, so does the whole loop, with the
      same exception. */
  lemma {:induction false} GroupedStopsAtError(windows: seq<Window>, n: nat, persons: seq<string>, search: Search)
    requires n <= |windows| && Grouped(windows[..n], persons, search).Err?
    ensures Grouped(windows, persons, search) == Grouped(windows[..n], persons, search)
    decreases |windows| - n
  {
    if n < |windows| {
      assert windows[..n + 1][..n] == windows[..n];
      GroupedStopsAtError(windows, n + 1, persons, search);
    } else {
      assert windows[..n] == windows;
    }
  }

  /** When the first window straddles New Year (its start year is not its
      end year) and there is a tracked person, the first `extend` raises
      KeyError. */
  lemma GroupedStraddleFails(windows: seq<Window>, persons: seq<string>, search: Search)
    requires windows != [] && windows[0].start.year != windows[0].end.year && persons != []
    ensures Grouped(windows, persons, search) == Err(KeyError)
  {
    assert windows[..1][..0] == [];
    GroupedStopsAtError(windows, 1, persons, search);
  }

  /** The end years of the windows, in order. */
  function EndYears(windows: seq<Window>): (r: seq<int>)
    ensures |r| == |windows| && forall i | 0 <= i < |windows| :: r[i] == windows[i].end.year
  {
    if windows == [] then [] else EndYears(windows[..|windows| - 1]) + [windows[|windows| - 1].end.year]
  }

  /** When every window starts and ends in the same year and no year repeats,
      grouping succeeds: the keys are the windows' years in order, and each
      year holds the concatenated results of that window's searches. */
  lemma {:induction false} GroupedAligned(windows: seq<Window>, persons: seq<string>, search: Search)
    requires forall i | 0 <= i < |windows| :: windows[i].start.year == windows[i].end.year
    requires NoDuplicates(EndYears(windows))
    ensures Grouped(windows, persons, search).Ok?
    ensures Grouped(windows, persons, search).value.order == EndYears(windows)
    ensures forall i | 0 <= i < |windows| ::
              Grouped(windows, persons, search).value.buckets[windows[i].end.year] == SearchAll(search, windows[i], persons)
  {
    if windows != [] {
      var prefix := windows[..|windows| - 1];
      var w := windows[|windows| - 1];
      assert EndYears(prefix) == EndYears(windows)[..|windows| - 1];
      GroupedAligned(prefix, persons, search);
      var ix := Grouped(prefix, persons, search).value;
      assert w.end.year !in ix.buckets by {
        assert w.end.year !in EndYears(prefix);
      }
      var result := Grouped(windows, persons, search).value;
      GroupWindowAligned(ix, w, persons, search);
      forall i | 0 <= i < |windows|
        ensures result.buckets[windows[i].end.year] == SearchAll(search, windows[i], persons)
      {
        if i < |windows| - 1 {
          assert windows[i] == prefix[i];
          assert windows[i].end.year != w.end.year by {
            assert EndYears(windows)[i] != EndYears(windows)[|windows| - 1];
          }
        }
      }
    }
  }

  /** One aligned window whose year is not yet a key appends that year, with
      the window's searches as its list. */
  lemma GroupWindowAligned(ix: YearIndex, w: Window, persons: seq<string>, search: Search)
    requires WellFormed(ix) && w.start.year == w.end.year && w.end.year !in ix.buckets
    ensures GroupWindow(ix, w, persons, search)
            == Ok(YearIndex(ix.order + [w.end.year], ix.buckets[w.end.year := SearchAll(search, w, persons)]))
  {
    var y := w.end.year;
    var reset := Put(ix, y, []);
    assert reset == YearIndex(ix.order + [y], ix.buckets[y := []]);
    assert reset.buckets[y] + SearchAll(search, w, persons) == SearchAll(search, w, persons);
    assert ix.buckets[y := []][y := SearchAll(search, w, persons)] == ix.buckets[y := SearchAll(search, w, persons)];
  }

  /** A search result for some window and some tracked person. */
  predicate Returned(a: Asset, windows: seq<Window>, persons: seq<string>, search: Search)
  {
    exists i, k :: 0 <= i < |windows| && 0 <= k < |persons| && a in search(windows[i], persons[k])
  }

  lemma {:induction false} SearchAllReturned(search: Search, w: Window, persons: seq<string>, a: Asset)
    requires a in SearchAll(search, w, persons)
    ensures exists k :: 0 <= k < |persons| && a in search(w, persons[k])
  {
    var last := |persons| - 1;
    if a !in search(w, persons[last]) {
      SearchAllReturned(search, w, persons[..last], a);
      var k :| 0 <= k < last && a in search(w, persons[..last][k]);
      assert persons[..last][k] == persons[k];
    }
  }

  /** Everything the dictionary holds was returned by a search for one of
      the windows and one of the tracked people. */
  lemma {:induction false} GroupedFromSearch(windows: seq<Window>, persons: seq<string>, search: Search)
    requires Grouped(windows, persons, search).Ok?
    ensures var ix := Grouped(windows, persons, search).value;
            forall y, a | y in ix.buckets && a in ix.buckets[y] :: Returned(a, windows, persons, search)
  {
    if windows != [] {
      var prefix := windows[..|windows| - 1];
      var w := windows[|windows| - 1];
      GroupedFromSearch(prefix, persons, search);
      var before := Grouped(prefix, persons, search).value;
      var ix := Grouped(windows, persons, search).value;
      forall y, a | y in ix.buckets && a in ix.buckets[y]
        ensures Returned(a, windows, persons, search)
      {
        var reset := Put(before, w.start.year, []);
        if persons != [] && y == w.end.year && a !in reset.buckets[y] {
          SearchAllReturned(search, w, persons, a);
          var k :| 0 <= k < |persons| && a in search(w, persons[k]);
          assert a in search(windows[|windows| - 1], persons[k]);
        } else {
          assert a in reset.buckets[y];
          assert y != w.start.year;
          assert a in before.buckets[y];
          assert Returned(a, prefix, persons, search);
          var i, k :| 0 <= i < |prefix| && 0 <= k < |persons| && a in search(prefix[i], persons[k]);
          assert prefix[i] == windows[i];
        }
      }
    }
  }

  /** The dictionary's lists concatenated in iteration order. */
  function Concat(order: seq<int>, buckets: map<int, seq<Asset>>): seq<Asset>
    requires forall i | 0 <= i < |order| :: order[i] in buckets
  {
    if order == [] then [] else buckets[order[0]] + Concat(order[1..], buckets)
  }

  /** Every asset the dictionary holds, in iteration order. */
  function Pool(ix: YearIndex): seq<Asset>
    requires WellFormed(ix)
  {
    Concat(ix.order, ix.buckets)
  }

  /** An asset is in the concatenation exactly when one of the lists holds it. */
  lemma {:induction false} ConcatMembership(order: seq<int>, buckets: map<int, seq<Asset>>, a: Asset)
    requires forall i | 0 <= i < |order| :: order[i] in buckets
    ensures a in Concat(order, buckets) <==> exists i :: 0 <= i < |order| && a in buckets[order[i]]
  {
    if order != [] {
      ConcatMembership(order[1..], buckets, a);
      if a !in buckets[order[0]] && exists i :: 0 <= i < |order| && a in buckets[order[i]] {
        var i :| 0 <= i < |order| && a in buckets[order[i]];
        assert order[1..][i - 1] == order[i];
      }
    }
  }

  /** An asset is in the pool exactly when some year's list holds it. */
  lemma PoolMembership(ix: YearIndex, a: Asset)
    requires WellFormed(ix)
    ensures a in Pool(ix) <==> exists y :: y in ix.buckets && a in ix.buckets[y]
  {
    ConcatMembership(ix.order, ix.buckets, a);
    if exists y :: y in ix.buckets && a in ix.buckets[y] {
      var y :| y in ix.buckets && a in ix.buckets[y];
      var i :| 0 <= i < |ix.order| && ix.order[i] == y;
    }
  }

  /** The assets of `s` that show the person, in order. */
  function KeepWithPerson(s: seq<Asset>, personId: string): (r: seq<Asset>)
    ensures |r| <= |s|
    ensures (forall a | a in s :: HasPerson(a, personId)) ==> r == s
  {
    if s == [] then []
    else (if HasPerson(s[0], personId) then [s[0]] else []) + KeepWithPerson(s[1..], personId)
  }

  /** Each asset showing the person is kept as often as it occurs, and no
      other asset is kept. */
  lemma {:induction false} KeepWithPersonCounts(s: seq<Asset>, personId: string)
    ensures forall a :: multiset(KeepWithPerson(s, personId))[a] == if HasPerson(a, personId) then multiset(s)[a] else 0
  {
    if s != [] {
      KeepWithPersonCounts(s[1..], personId);
      assert s == [s[0]] + s[1..];
    }
  }

  /** Filtering keeps the order: the kept assets of `s + t` are those of `s`
      followed by those of `t`. */
  lemma {:induction false} KeepWithPersonAppend(s: seq<Asset>, t: seq<Asset>, personId: string)
    ensures KeepWithPerson(s + t, personId) == KeepWithPerson(s, personId) + KeepWithPerson(t, personId)
  {
    if s == [] {
      assert s + t == t;
    } else {
      var head := if HasPerson(s[0], personId) then [s[0]] else [];
      var st := s + t;
      assert st[0] == s[0] && st[1..] == s[1..] + t;
      assert KeepWithPerson(st, personId) == head + KeepWithPerson(st[1..], personId);
      KeepWithPersonAppend(s[1..], t, personId);
      assert head + (KeepWithPerson(s[1..], personId) + KeepWithPerson(t, personId))
             == (head + KeepWithPerson(s[1..], personId)) + KeepWithPerson(t, personId);
    }
  }

  /** A single asset is kept exactly when it shows the person. */
  lemma KeepWithPersonSingle(a: Asset, personId: string)
    ensures KeepWithPerson([a], personId) == if HasPerson(a, personId) then [a] else []
  {
    assert [a][1..] == [];
  }

  /** `filter_by_person_id(assets, person_id)`: every asset of every year, in
      iteration order, whose `people` include the id. */
  function FilterByPersonId(ix: YearIndex, personId: string): (r: seq<Asset>)
    requires WellFormed(ix)
    ensures forall a :: a in r <==> a in Pool(ix) && HasPerson(a, personId)
    ensures forall a :: multiset(r)[a] == if HasPerson(a, personId) then multiset(Pool(ix))[a] else 0
  {
    KeepWithPersonCounts(Pool(ix), personId);
    KeepWithPerson(Pool(ix), personId)
  }
}
