/** The picking half of `get_candidate_images` (main.py:72-114): random
    picks kept at least a minute apart, the tally of tracked people, the
    top-up image for a person nobody shows, and the final shuffle. Every
    random choice is a nondeterministic choice among the values Python's
    `random` could return. */
module Selection {
  import opened Common
  import opened Grouping

  /** The keys of `buckets`, in the order of `order`, whose lists are not
      empty. */
  function KeysWithAssets(order: seq<int>, buckets: map<int, seq<Asset>>): (r: seq<int>)
    requires forall i | 0 <= i < |order| :: order[i] in buckets
    ensures |r| <= |order|
    ensures forall y :: y in r <==> y in order && y in buckets && buckets[y] != []
  {
    if order == [] then []
    else
      assert order[0] in order;
      (if buckets[order[0]] != [] then [order[0]] else []) + KeysWithAssets(order[1..], buckets)
  }

  /** `years` (main.py:72): the years whose list holds an asset, in the
      dictionary's iteration order. */
  function NonEmptyYears(ix: YearIndex): (r: seq<int>)
    requires WellFormed(ix)
    ensures |r| <= |ix.order|
    ensures forall y :: y in r <==> y in ix.buckets && ix.buckets[y] != []
  {
    KeysWithAssets(ix.order, ix.buckets)
  }

  /** The year list is empty exactly when no year holds an asset, which is
      when `random.choice(years)` raises. */
  lemma NonEmptyYearsEmpty(ix: YearIndex)
    requires WellFormed(ix)
    ensures forall y :: y in NonEmptyYears(ix) <==> y in ix.buckets && ix.buckets[y] != []
    ensures NonEmptyYears(ix) == [] <==> Pool(ix) == []
  {
    if Pool(ix) != [] {
      PoolMembership(ix, Pool(ix)[0]);
      var y :| y in ix.buckets && Pool(ix)[0] in ix.buckets[y];
      assert y in NonEmptyYears(ix);
    }
    if NonEmptyYears(ix) != [] {
      var y := NonEmptyYears(ix)[0];
      PoolMembership(ix, ix.buckets[y][0]);
    }
  }

  /** Sixty seconds, in microseconds. */
  const MinGap := 60000000

  function Abs(x: int): nat
  {
    if x < 0 then -x else x
  }

  /** `abs((current_time - candidate_time).total_seconds()) < 60`. */
  predicate TooClose(a: Asset, b: Asset)
    ensures TooClose(a, b) <==> a.takenAt - MinGap < b.takenAt < a.takenAt + MinGap
    ensures a.takenAt == b.takenAt ==> TooClose(a, b)
  {
    Abs(a.takenAt - b.takenAt) < MinGap
  }

  /** No two images were taken within a minute of each other. */
  predicate Spaced(s: seq<Asset>)
  {
    forall i, j | 0 <= i < j < |s| :: !TooClose(s[i], s[j])
  }

  /** The number of images the acceptance loop stops at. */
  function Target(limit: int): nat
  {
    if limit > 0 then limit else 0
  }

  /** An asset is never a minute away from itself, so spaced images are
      pairwise distinct. */
  lemma SpacedNoDuplicates(s: seq<Asset>)
    requires Spaced(s)
    ensures NoDuplicates(s)
  {
    forall i, j | 0 <= i < j < |s| ensures s[i] != s[j] {
      assert !TooClose(s[i], s[j]);
    }
  }

  /** The acceptance loop (main.py:75-92): draw a year with assets, then an
      asset of that year, and keep it unless it lies within a minute of an
      image already kept. `fuel` bounds the number of draws; running out is
      `RetriesExhausted`. */
  method SelectSpaced(ix: YearIndex, limit: int, fuel: nat) returns (r: Result<seq<Asset>>)
    requires WellFormed(ix)
    ensures r.Ok? ==> |r.value| == Target(limit) && Spaced(r.value)
    ensures r.Ok? ==> forall a | a in r.value :: a in Pool(ix)
    ensures r.Err? ==> r.error == IndexError || r.error == RetriesExhausted
    ensures r == Err(IndexError) <==> limit > 0 && Pool(ix) == []
    ensures limit <= 0 ==> r == Ok([])
  {
    var years := NonEmptyYears(ix);
    NonEmptyYearsEmpty(ix);
    var accepted: seq<Asset> := [];
    var remaining := fuel;
    while |accepted| < limit
      invariant |accepted| <= Target(limit) && Spaced(accepted)
      invariant forall a | a in accepted :: a in Pool(ix)
      invariant accepted != [] ==> Pool(ix) != []
      decreases remaining
    {
      if years == [] {
        return Err(IndexError);
      }
      if remaining == 0 {
        return Err(RetriesExhausted);
      }
      remaining := remaining - 1;
      var n :| 0 <= n < |years|;
      var year := years[n];
      var bucket := ix.buckets[year];
      var m :| 0 <= m < |bucket|;
      var current := bucket[m];
      PoolMembership(ix, current);
      var tooClose := false;
      for j := 0 to |accepted|
        invariant !tooClose ==> forall i | 0 <= i < j :: !TooClose(accepted[i], current)
      {
        if TooClose(current, accepted[j]) {
          tooClose := true;
          break;
        }
      }
      if !tooClose {
        accepted := accepted + [current];
      }
    }
    return Ok(accepted);
  }

  /** How often `people` lists the id. */
  function CountIn(people: seq<Person>, personId: string): nat
  {
    if people == [] then 0
    else CountIn(people[..|people| - 1], personId) + (if people[|people| - 1].id == personId then 1 else 0)
  }

  /** How often the id is listed over all the images' `people`. */
  function Mentions(images: seq<Asset>, personId: string): nat
  {
    if images == [] then 0
    else Mentions(images[..|images| - 1], personId) + CountIn(images[|images| - 1].people, personId)
  }

  /** Whether some image shows the person. */
  predicate Mentioned(images: seq<Asset>, personId: string)
  {
    exists i :: 0 <= i < |images| && HasPerson(images[i], personId)
  }

  lemma {:induction false} CountInPositive(people: seq<Person>, personId: string)
    ensures CountIn(people, personId) > 0 <==> exists k :: 0 <= k < |people| && people[k].id == personId
  {
    if people != [] {
      var last := |people| - 1;
      CountInPositive(people[..last], personId);
      if exists k :: 0 <= k < |people| && people[k].id == personId {
        var k :| 0 <= k < |people| && people[k].id == personId;
        if k < last {
          assert people[..last][k] == people[k];
        }
      }
    }
  }

  /** The tally of an id is positive exactly when some image shows it. */
  lemma {:induction false} MentionsPositive(images: seq<Asset>, personId: string)
    ensures Mentions(images, personId) > 0 <==> Mentioned(images, personId)
  {
    if images != [] {
      var last := |images| - 1;
      MentionsPositive(images[..last], personId);
      CountInPositive(images[last].people, personId);
      if Mentioned(images, personId) {
        var i :| 0 <= i < |images| && HasPerson(images[i], personId);
        if i < last {
          assert images[..last][i] == images[i];
        }
      }
      if Mentioned(images[..last], personId) {
        var i :| 0 <= i < last && HasPerson(images[..last][i], personId);
        assert images[..last][i] == images[i];
      }
    }
  }

  /** The `Counter` of main.py:94-98: one count per listing of a tracked id
      over all images. Untracked ids and ids nobody shows have no key. */
  method TallyPeople(images: seq<Asset>, persons: seq<string>) returns (counter: map<string, nat>)
    ensures forall id :: id in counter <==> id in persons && Mentions(images, id) > 0
    ensures forall id | id in counter :: counter[id] == Mentions(images, id)
  {
    counter := map[];
    for i := 0 to |images|
      invariant forall id :: id in counter <==> id in persons && Mentions(images[..i], id) > 0
      invariant forall id | id in counter :: counter[id] == Mentions(images[..i], id)
    {
      var people := images[i].people;
      MentionsStep(images, i);
      for k := 0 to |people|
        invariant forall id :: id in counter <==> id in persons && Mentions(images[..i], id) + CountIn(people[..k], id) > 0
        invariant forall id | id in counter :: counter[id] == Mentions(images[..i], id) + CountIn(people[..k], id)
      {
        CountInStep(people, k);
        var id := people[k].id;
        if id in persons {
          counter := counter[id := (if id in counter then counter[id] else 0) + 1];
        }
      }
      assert people[..|people|] == people;
    }
    assert images[..|images|] == images;
  }

  lemma CountInStep(people: seq<Person>, k: nat)
    requires k < |people|
    ensures forall id :: CountIn(people[..k + 1], id) == CountIn(people[..k], id) + if people[k].id == id then 1 else 0
  {
    assert people[..k + 1][..k] == people[..k];
  }

  lemma MentionsStep(images: seq<Asset>, i: nat)
    requires i < |images|
    ensures forall id :: Mentions(images[..i + 1], id) == Mentions(images[..i], id) + CountIn(images[i].people, id)
  {
    assert images[..i + 1][..i] == images[..i];
  }

  /** The elements of a list, as a set. */
  function Elements<T>(s: seq<T>): set<T>
  {
    set x | x in s
  }

  /** `len(set(s)) == len(s)` exactly when no element repeats. */
  lemma {:induction false} ElementsCard<T>(s: seq<T>)
    ensures |Elements(s)| <= |s|
    ensures |Elements(s)| == |s| <==> NoDuplicates(s)
  {
    if s != [] {
      var last := |s| - 1;
      var prefix := s[..last];
      ElementsCard(prefix);
      assert Elements(s) == Elements(prefix) + {s[last]};
      if s[last] in prefix {
        assert Elements(s) == Elements(prefix);
        var i :| 0 <= i < last && prefix[i] == s[last];
      } else {
        forall i, j | 0 <= i < j < |s| && NoDuplicates(prefix) ensures s[i] != s[j] {
          if j < last {
            assert prefix[i] == s[i] && prefix[j] == s[j];
          } else {
            assert s[i] == prefix[i];
          }
        }
        if NoDuplicates(s) {
          forall i, j | 0 <= i < j < last ensures prefix[i] != prefix[j] {
            assert s[i] != s[j];
          }
        }
      }
    }
  }

  /** A proper subset has fewer elements, and misses one. */
  lemma ProperSubsetCard<T>(a: set<T>, b: set<T>)
    requires a < b
    ensures |a| < |b| && exists x :: x in b && x !in a
  {
    assert b == a + (b - a);
    var x :| x in b - a;
  }

  /** main.py:102-110. When the tally has fewer keys than `PERSON_IDS` has
      entries, one id of `set(PERSON_IDS)` without a key is popped (a
      KeyError when there is none, which happens when every person is shown
      but `PERSON_IDS` repeats an id) and a random asset showing that person
      is appended (an IndexError when the dictionary holds none). */
  method CoverMissingPerson(ix: YearIndex, accepted: seq<Asset>, persons: seq<string>) returns (r: Result<seq<Asset>>)
    requires WellFormed(ix)
    ensures r.Err? ==> r.error == KeyError || r.error == IndexError
    ensures r.Ok? ==> |accepted| <= |r.value| <= |accepted| + 1 && r.value[..|accepted|] == accepted
    ensures r.Ok? ==> forall a | a in r.value[|accepted|..] :: a in Pool(ix)
    ensures r.Ok? && NoDuplicates(accepted) ==> NoDuplicates(r.value)
    ensures r.Ok? && |r.value| > |accepted| ==>
              var extra := r.value[|accepted|];
              extra in Pool(ix) && exists id :: id in persons && !Mentioned(accepted, id) && HasPerson(extra, id)
    ensures (forall id | id in persons :: Mentioned(accepted, id)) ==>
              r == if NoDuplicates(persons) then Ok(accepted) else Err(KeyError)
    ensures (exists id :: id in persons && !Mentioned(accepted, id)) ==>
              r.Err? ==> r.error == IndexError
    ensures (exists id :: id in persons && !Mentioned(accepted, id)) ==>
              r.Ok? ==> |r.value| == |accepted| + 1
    ensures r == Err(IndexError) ==>
              exists id :: id in persons && !Mentioned(accepted, id) && FilterByPersonId(ix, id) == []
    ensures r.Ok? && (forall id, other | id in persons && other in persons && !Mentioned(accepted, id)
                                         && !Mentioned(accepted, other) :: id == other) ==>
              forall id | id in persons :: Mentioned(r.value, id)
  {
    var counter := TallyPeople(accepted, persons);
    TallyKeys(accepted, persons, counter.Keys);
    if |counter.Keys| != |persons| {
      var missing := Elements(persons) - counter.Keys;
      if missing == {} {
        return Err(KeyError);
      }
      var id :| id in missing;
      var withPerson := FilterByPersonId(ix, id);
      if withPerson == [] {
        return Err(IndexError);
      }
      var n :| 0 <= n < |withPerson|;
      var extra := withPerson[n];
      TopUpImage(ix, accepted, persons, id, extra);
      r := Ok(accepted + [extra]);
      assert r.value[..|accepted|] == accepted;
      assert r.value[|accepted|..] == [extra];
    } else {
      r := Ok(accepted);
    }
  }

  /** The tally's keys against `PERSON_IDS`: as many keys as entries exactly
      when every tracked person is shown and no id repeats, and the ids of
      `set(PERSON_IDS)` without a key are the tracked people nobody shows. */
  lemma TallyKeys(images: seq<Asset>, persons: seq<string>, keys: set<string>)
    requires forall id :: id in keys <==> id in persons && Mentions(images, id) > 0
    ensures |keys| == |persons| <==> NoDuplicates(persons) && forall id | id in persons :: Mentioned(images, id)
    ensures forall id :: id in Elements(persons) - keys <==> id in persons && !Mentioned(images, id)
  {
    forall id ensures id in keys <==> id in persons && Mentioned(images, id) {
      MentionsPositive(images, id);
    }
    var tracked := Elements(persons);
    ElementsCard(persons);
    if keys < tracked {
      ProperSubsetCard(keys, tracked);
    }
    assert keys <= tracked;
    if keys == tracked {
      assert forall id | id in persons :: Mentioned(images, id);
    } else {
      var id :| id in tracked && id !in keys;
    }
  }

  /** The appended image shows a person no kept image shows, so it is new;
      when that person was the only one missing, now every tracked person
      is shown. */
  lemma TopUpImage(ix: YearIndex, images: seq<Asset>, persons: seq<string>, id: string, extra: Asset)
    requires WellFormed(ix) && id in persons && !Mentioned(images, id) && extra in FilterByPersonId(ix, id)
    ensures extra in Pool(ix) && HasPerson(extra, id)
    ensures NoDuplicates(images) ==> NoDuplicates(images + [extra])
    ensures (forall p, other | p in persons && other in persons && !Mentioned(images, p)
                               && !Mentioned(images, other) :: p == other) ==>
              forall p | p in persons :: Mentioned(images + [extra], p)
  {
    forall p ensures Mentioned(images + [extra], p) <==> Mentioned(images, p) || HasPerson(extra, p) {
      MentionedAppend(images, extra, p);
    }
    forall i | 0 <= i < |images| ensures images[i] != extra {
      assert !HasPerson(images[i], id);
    }
  }

  /** Appending an image adds exactly the people it shows. */
  lemma MentionedAppend(images: seq<Asset>, extra: Asset, personId: string)
    ensures Mentioned(images + [extra], personId) <==> Mentioned(images, personId) || HasPerson(extra, personId)
  {
    var longer := images + [extra];
    if Mentioned(images, personId) {
      var i :| 0 <= i < |images| && HasPerson(images[i], personId);
      assert longer[i] == images[i];
    }
    if Mentioned(longer, personId) {
      var i :| 0 <= i < |longer| && HasPerson(longer[i], personId);
      if i < |images| {
        assert longer[i] == images[i];
      }
    }
    assert longer[|images|] == extra;
  }

  /** Reordering the images changes nobody's presence. */
  lemma MentionedPermutation(s: seq<Asset>, t: seq<Asset>, personId: string)
    requires multiset(s) == multiset(t)
    ensures Mentioned(s, personId) <==> Mentioned(t, personId)
  {
    if Mentioned(s, personId) {
      var i :| 0 <= i < |s| && HasPerson(s[i], personId);
      assert s[i] in multiset(t);
      var j :| 0 <= j < |t| && t[j] == s[i];
    }
    if Mentioned(t, personId) {
      var j :| 0 <= j < |t| && HasPerson(t[j], personId);
      assert t[j] in multiset(s);
      var i :| 0 <= i < |s| && s[i] == t[j];
    }
  }

  /** Reordering a list keeps it free of repeats. */
  lemma NoDuplicatesPermutation<T>(s: seq<T>, t: seq<T>)
    requires multiset(s) == multiset(t) && NoDuplicates(s)
    ensures NoDuplicates(t)
  {
    assert |s| == |multiset(s)| == |multiset(t)| == |t|;
    assert Elements(s) == Elements(t) by {
      forall x ensures x in s <==> x in t {
        assert x in s <==> x in multiset(s);
        assert x in t <==> x in multiset(t);
      }
    }
    ElementsCard(s);
    ElementsCard(t);
  }

  /** What a reordering keeps: the members, the absence of repeats and
      every person's presence. */
  lemma PermutationKeeps(s: seq<Asset>, t: seq<Asset>)
    requires multiset(s) == multiset(t)
    ensures |t| == |s| && forall a :: a in t <==> a in s
    ensures NoDuplicates(s) ==> NoDuplicates(t)
    ensures forall id :: Mentioned(t, id) <==> Mentioned(s, id)
  {
    assert |t| == |multiset(t)| == |multiset(s)| == |s|;
    forall a ensures a in t <==> a in s {
      assert a in t <==> a in multiset(t);
      assert a in s <==> a in multiset(s);
    }
    if NoDuplicates(s) {
      NoDuplicatesPermutation(s, t);
    }
    forall id ensures Mentioned(t, id) <==> Mentioned(s, id) {
      MentionedPermutation(s, t, id);
    }
  }

  /** `random.shuffle` (main.py:112): the Fisher-Yates swaps, made in place
      on an array holding the list,
      with every swap partner the generator could pick. */
  method Shuffle(s: seq<Asset>) returns (r: seq<Asset>)
    ensures multiset(r) == multiset(s)
  {
    var a := new Asset[|s|](k requires 0 <= k < |s| => s[k]);
    assert a[..] == s;
    var i := a.Length - 1;
    while i > 0
      invariant i < a.Length
      invariant multiset(a[..]) == multiset(s)
    {
      var j :| 0 <= j <= i;
      a[i], a[j] := a[j], a[i];
      i := i - 1;
    }
    r := a[..];
  }

  /** main.py:72-114 once the dictionary is built: the spaced picks, the
      top-up and the shuffle. `accepted` exposes the images the acceptance
      loop kept, before the top-up and the shuffle. */
  method PickImages(ix: YearIndex, limit: int, persons: seq<string>, fuel: nat)
    returns (r: Result<seq<Asset>>, ghost accepted: seq<Asset>)
    requires WellFormed(ix)
    ensures r.Ok? ==> |accepted| == Target(limit) && Spaced(accepted)
    ensures r.Ok? ==> |accepted| <= |r.value| <= |accepted| + 1 && multiset(accepted) <= multiset(r.value)
    ensures r.Ok? ==> NoDuplicates(r.value) && forall a | a in r.value :: a in Pool(ix)
    ensures r.Ok? ==> (|r.value| == |accepted| + 1 <==> exists id :: id in persons && !Mentioned(accepted, id))
    ensures r.Ok? && |r.value| == |accepted| + 1 ==>
              exists id :: id in persons && !Mentioned(accepted, id) && Mentioned(r.value, id)
    ensures r.Ok? && (forall id, other | id in persons && other in persons && !Mentioned(accepted, id)
                                         && !Mentioned(accepted, other) :: id == other) ==>
              forall id | id in persons :: Mentioned(r.value, id)
    ensures limit > 0 && Pool(ix) == [] ==> r == Err(IndexError)
    ensures r == Err(KeyError) <==>
              && |accepted| == Target(limit)
              && (forall id | id in persons :: Mentioned(accepted, id))
              && !NoDuplicates(persons)
    ensures r.Err? ==> r.error == IndexError || r.error == KeyError || r.error == RetriesExhausted
    ensures r == Err(RetriesExhausted) ==> limit > 0
    ensures r == Err(IndexError) ==>
              || (limit > 0 && Pool(ix) == [])
              || (&& |accepted| == Target(limit)
                  && exists id :: id in persons && !Mentioned(accepted, id) && FilterByPersonId(ix, id) == [])
  {
    accepted := [];
    var picked := SelectSpaced(ix, limit, fuel);
    if picked.Err? {
      return Err(picked.error), accepted;
    }
    accepted := picked.value;
    SpacedNoDuplicates(accepted);
    var covered := CoverMissingPerson(ix, picked.value, persons);
    if covered.Err? {
      return Err(covered.error), accepted;
    }
    var shuffled := Shuffle(covered.value);
    ShuffledTopUp(ix, accepted, covered.value, shuffled);
    r := Ok(shuffled);
    if |covered.value| > |accepted| {
      var id :| id in persons && !Mentioned(accepted, id) && HasPerson(covered.value[|accepted|], id);
      assert Mentioned(covered.value, id);
    }
  }

  /** What the shuffled list keeps from the kept images and the top-up. */
  lemma ShuffledTopUp(ix: YearIndex, accepted: seq<Asset>, images: seq<Asset>, shuffled: seq<Asset>)
    requires WellFormed(ix) && forall a | a in accepted :: a in Pool(ix)
    requires |accepted| <= |images| <= |accepted| + 1 && images[..|accepted|] == accepted
    requires forall a | a in images[|accepted|..] :: a in Pool(ix)
    requires multiset(shuffled) == multiset(images)
    ensures |accepted| <= |shuffled| <= |accepted| + 1 && multiset(accepted) <= multiset(shuffled)
    ensures forall a | a in shuffled :: a in Pool(ix)
    ensures NoDuplicates(images) ==> NoDuplicates(shuffled)
    ensures forall id :: Mentioned(shuffled, id) <==> Mentioned(images, id)
  {
    assert images == accepted + images[|accepted|..];
    assert multiset(images) == multiset(accepted) + multiset(images[|accepted|..]);
    PermutationKeeps(images, shuffled);
  }
}
