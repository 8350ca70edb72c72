# immich-memory-emails: the selection core in Dafny

This project models the part of the weekly "on this day" photo email job
that has real logic:

- **`generate_dt_ranges`** yields yearly anniversary windows. The first
  window runs from midnight seven days before the reference day to that
  day's last microsecond. Each later window is the previous one with the
  year of both bounds decremented. The generator stops before the first
  window that ends before the `until` bound.
- **`get_candidate_images`** builds a year-keyed dictionary from one remote
  search per (window, tracked person). It then draws random images until
  it has `EMAIL_IMAGE_LIMIT` of them, and it rejects any draw taken within
  60 seconds of an image already kept. Next it counts which tracked people
  the kept images show. If one is missing, it appends one random image that
  shows that person. Finally it shuffles the list.
- **`filter_by_person_id`** collects the dictionary's assets that show a
  given person.
- **The per-image metadata of `create_email_html`**: the content id
  `image_{i}_{id}`, the tracked people's first names, the date part of the
  creation timestamp and the attachment name `image_{i}.jpg`.

The model follows the Python code, including the exceptions it raises:

- `OverflowError` when the reference day is within the first week of
  0001-01-01.
- `ValueError` when a window bound on 29 February, or in year 1, is moved
  back a year.
- `KeyError` on the first `extend` whenever the reference day is 1-7
  January. The first window then starts in the previous year, so
  `assets[taken_before.year]` has no list yet.
  `Candidates.EarlyJanuaryKeyError` proves this.
- `IndexError` from `random.choice` when no year holds an asset. There is
  no dedicated "empty candidate pool" error: the exception is the one
  `random.choice` raises on an empty list.
- `KeyError` from `set.pop()` when every tracked person is shown but
  `PERSON_IDS` lists an id twice. `len(counter) != len(PERSON_IDS)` then
  holds while nobody is missing.
- `IndexError` when a missing person appears in no asset at all.

Two limits of the code, which the model keeps:

- Only one missing person is topped up, however many are unshown. The
  model proves full coverage only when at most one person is missing, and
  otherwise that the extra image shows one of the unshown people.
- Leap days are not tolerated: a window bound on 29 February makes
  `replace(year=…)` raise `ValueError` when it is moved to a common year.

Modules, one file each:

- `Common`: `Result`, the exception kinds, and the asset record.
- `Calendar`: proleptic Gregorian date-times with `timedelta` subtraction
  and `replace(year=…)`. They are proved against a day-number reference
  (`Ordinal`, `Micros`).
- `DateRanges`: the generator as a loop, proved equal to a recursive
  specification `Generate`.
- `Grouping`: the dictionary, with Python's insertion-ordered keys, the
  grouping loops and `filter_by_person_id`.
- `Selection`: the acceptance loop, the `Counter` tally, the top-up and the
  shuffle.
- `Candidates`: `get_candidate_images` end to end.
- `Metadata`: content ids, names, dates and file names.

## Model

| member | source | states |
|---|---|---|
| Calendar.Before | main.py:50 | the `<` on date-times: an earlier year is always earlier, nothing is earlier than itself, and an earlier value never has a later year |
| Calendar.BeforeIffEarlier | main.py:50 | the date-time comparison is exactly "earlier instant": `Before(a, b)` iff `Micros(a) < Micros(b)`, and equal values are equal instants |
| Calendar.PrevDay | main.py:45 | a day back gives a valid date-time with the same time of day |
| Calendar.PrevDayIsDayBefore | main.py:45 | stepping a day back fails exactly on 0001-01-01, and otherwise lowers the day number by one |
| Calendar.SubtractDays | main.py:45 | `t - timedelta(days=n)` keeps validity and time of day |
| Calendar.SubtractDaysIsOrdinalShift | main.py:45 | subtracting n days succeeds iff the day number exceeds n (OverflowError otherwise), and lowers the day number by exactly n |
| Calendar.ReplaceYear | main.py:55-56 | `replace(year=y)` succeeds iff y is in 1..9999 and the date is not 29 February moved to a common year; the result differs from the input only in the year |
| DateRanges.FirstWindow | main.py:43-47 | the first window, when it exists, has valid bounds |
| DateRanges.FirstWindowIsWeekBefore | main.py:43-47 | no first window iff the reference day is among the first seven days of year 1; otherwise the end is the reference day at 23:59:59.999999, the start is midnight seven days earlier, the span is 8 days less 1 µs, and the start's year is the previous year iff the reference day is 1-7 January |
| DateRanges.WeekEarlierYear | main.py:45 | seven days before a date falls in the previous year exactly for 1-7 January |
| DateRanges.ShiftBack | main.py:55-56 | the shifted window is valid and ends one year earlier |
| DateRanges.ShiftBackIsYearEarlier | main.py:55-56 | shifting fails iff a bound is in year 1 or on 29 February; otherwise only the years change and both bounds become strictly earlier |
| DateRanges.Walk | main.py:49-56 | the generator from a given window: it yields something iff that window does not end before the bound, the first yield is that window, and the only exception is ValueError, raised after at least one yield |
| DateRanges.Generate | main.py:38-56 | the whole generator: OverflowError, with nothing yielded, exactly when no first window exists; otherwise at most a ValueError |
| DateRanges.GenerateRanges | main.py:38-56 | the generator loop yields exactly the windows and the exception of the recursive specification `Generate` |
| DateRanges.WalkStep | main.py:49-56 | one loop turn: stop when the end is before the bound, raise when the shift fails, otherwise yield and continue from the shifted window |
| DateRanges.WalkChained | main.py:53-56 | the yielded windows are valid, start with the first window, and each is its predecessor moved back one year |
| DateRanges.WalkBounded | main.py:50-53 | no yielded window ends before the bound, and at most one is yielded per year down to the bound |
| DateRanges.WalkTight | main.py:49-56 | a normal stop means the next window ends before the bound; otherwise the stop is the ValueError of a failed shift after at least one yield |
| DateRanges.ChainedYears | main.py:55-56 | along the yielded chain the years drop by one per step, and both bounds strictly decrease |
| DateRanges.GenerateSpec | main.py:38-56 | the whole generator: it starts at the first window, each end year is the reference year minus the index, the windows strictly decrease, none ends before the bound, there are finitely many, a normal stop is tight, and OverflowError or ValueError is the only exception |
| DateRanges.JuneExample | main.py:38-56 | with bound 2024-06-15 on 2025-06-20 the windows are 13-20 June 2025 and 13-20 June 2024, and the generator ends normally |
| Grouping.Put | main.py:62 | `assets[y] = v`: the key then holds `v`, every other key keeps its list, the key set gains `y`; an existing key keeps its place in the iteration order and a new key goes last |
| Grouping.SearchAll | main.py:63-70 | one window's searches, one per tracked person: nothing with no person, exactly that person's search with one |
| Grouping.SearchAllIncludes | main.py:63-70 | every tracked person's search results are part of the window's list, each asset at least as often as that search returned it |
| Grouping.ExtendStep | main.py:70 | one `extend` appends the next person's results to the list built so far |
| Grouping.GroupWindow | main.py:61-70 | one window's pass keeps the dictionary well formed |
| Grouping.Grouped | main.py:60-70 | the dictionary after all windows is well formed |
| Grouping.AddWindow | main.py:61-70 | the reset-then-extend loop over the tracked people computes `GroupWindow`, including the KeyError of extending a missing year |
| Grouping.GroupByYear | main.py:60-70 | the nested grouping loops compute `Grouped`, stopping at the first exception |
| Grouping.GroupedStopsAtError | main.py:61-70 | once a prefix of the windows raises, the whole loop raises the same exception |
| Grouping.GroupedStraddleFails | main.py:62-70 | when the first window's start and end years differ and a person is tracked, grouping raises KeyError |
| Grouping.EndYears | main.py:70 | the end years, one per window, in order |
| Grouping.GroupWindowAligned | main.py:61-70 | a window that starts and ends in a year not yet a key appends that year, holding the window's searches |
| Grouping.GroupedAligned | main.py:60-70 | when every window starts and ends in the same year and no year repeats, grouping succeeds, the keys are the years in order, and each holds that window's searches concatenated in person order |
| Grouping.SearchAllReturned | main.py:63-70 | every asset extended for a window came from the search for one tracked person |
| Grouping.GroupedFromSearch | main.py:60-70 | every asset in the dictionary came from a search for some window and some tracked person |
| Grouping.ConcatMembership | main.py:120-121 | an asset is in the concatenated lists iff one of the listed years holds it |
| Grouping.PoolMembership | main.py:120-121 | an asset is among all the dictionary's assets iff some year's list holds it |
| Grouping.KeepWithPerson | main.py:122 | the filter never lengthens its list and keeps a list whose every asset shows the person unchanged |
| Grouping.KeepWithPersonCounts | main.py:118-123 | each asset showing the person is kept as often as it occurs, and no other asset is kept |
| Grouping.KeepWithPersonAppend | main.py:118-123 | the filter keeps iteration order: the kept assets of `s + t` are those of `s` followed by those of `t` |
| Grouping.KeepWithPersonSingle | main.py:122 | a single asset is kept exactly when one of its people has the id |
| Grouping.FilterByPersonId | main.py:117-123 | the result holds exactly the dictionary's assets that show the person, with their multiplicities, in the dictionary's iteration order (it is `KeepWithPerson` of that order, whose order `KeepWithPersonAppend` fixes) |
| Selection.KeysWithAssets | main.py:72 | a key is kept iff it is in the order and its list is non-empty |
| Selection.NonEmptyYears | main.py:72 | `years` holds exactly the keys with a non-empty list, and no more entries than the dictionary has keys |
| Selection.NonEmptyYearsEmpty | main.py:72-76 | `years` holds exactly the keys with a non-empty list, and is empty iff the dictionary holds no asset |
| Selection.TooClose | main.py:86 | two images are too close iff either was taken less than 60 s before the other; images taken at the same instant always are |
| Selection.SpacedNoDuplicates | main.py:81-92 | images kept a minute apart are pairwise distinct |
| Selection.SelectSpaced | main.py:72-92 | on success exactly max(limit, 0) images, pairwise at least 60 s apart, all from the dictionary; IndexError iff the limit is positive and the dictionary is empty |
| Selection.CountInPositive | main.py:96-98 | an id's count in a people list is positive iff the list contains the id |
| Selection.MentionsPositive | main.py:94-98 | an id's tally is positive iff some image shows that person |
| Selection.CountInStep | main.py:96-98 | counting one more entry adds one exactly for its id |
| Selection.MentionsStep | main.py:95-98 | counting one more image adds its people's counts |
| Selection.TallyPeople | main.py:94-98 | the Counter's keys are the tracked ids some image shows, and each count is how often those images list the id |
| Selection.ElementsCard | main.py:102-105 | `len(set(s)) <= len(s)`, with equality iff no element repeats |
| Selection.ProperSubsetCard | main.py:102-105 | a proper subset is smaller and misses an element |
| Selection.TallyKeys | main.py:102-105 | the tally has as many keys as `PERSON_IDS` has entries iff every tracked person is shown and no id repeats; the keyless ids are the unshown tracked people |
| Selection.TopUpImage | main.py:108-110 | the appended image comes from the dictionary, shows the missing person, repeats no kept image, and completes the coverage when that person was the only one missing |
| Selection.CoverMissingPerson | main.py:94-110 | keeps the list as a prefix and adds at most one image; with everyone shown, the list is unchanged, or KeyError if `PERSON_IDS` repeats an id; with someone missing, exactly one image showing an unshown person is appended, or IndexError when no asset shows the popped person; coverage is complete when at most one person was missing |
| Selection.MentionedAppend | main.py:108-110 | appending an image adds exactly the people it shows |
| Selection.MentionedPermutation | main.py:112 | reordering changes nobody's presence |
| Selection.NoDuplicatesPermutation | main.py:112 | reordering keeps the list free of repeats |
| Selection.PermutationKeeps | main.py:112 | a reordering keeps length, members, distinctness and presence of every person |
| Selection.Shuffle | main.py:112 | the shuffled list is a permutation of the input |
| Selection.ShuffledTopUp | main.py:102-112 | after the shuffle the kept images are still all present, at most one more image has been added, all come from the dictionary, and distinctness and presence carry over |
| Selection.PickImages | main.py:72-114 | the result has the limit's count of spaced kept images plus a top-up exactly when a tracked person was unshown; no image repeats; all come from the dictionary; coverage is complete when at most one person was unshown; an extra image shows a tracked person the kept images do not; the only exceptions are IndexError, KeyError and `RetriesExhausted` (the latter only with a positive limit); IndexError comes from an empty dictionary with a positive limit or from a missing person no asset shows; KeyError exactly when the acceptance loop finished, everyone is shown and `PERSON_IDS` repeats an id |
| Candidates.GetCandidateImages | main.py:59-114 | a grouping exception wins over the generator's, and an empty dictionary with a positive limit raises IndexError; then the same guarantees as `PickImages` (spacing, one top-up showing an unshown person, coverage, no repeats, KeyError exactly for a repeated id when everyone is shown, and after generation and grouping no exception but IndexError, KeyError or `RetriesExhausted`, with IndexError only from an empty dictionary or an unshown person no asset shows), with every returned image obtained from a search for a yielded window and a tracked person |
| Candidates.PoolReturned | main.py:60-70 | every asset in the grouped dictionary was returned by a search |
| Candidates.EarlyJanuaryKeyError | main.py:43-47 | on 1-7 January (after year 1), with a tracked person and the first window yielded, the run raises KeyError |
| Candidates.GroupedOutsideEarlyJanuary | main.py:60-70 | on any other reference day grouping succeeds: the keys are the reference year and the years before it, newest first, and each year holds its window's searches in person order |
| Metadata.NatToString | main.py:152 | `str(i)` is a non-empty string of decimal digits |
| Metadata.ParseNatToString | main.py:152 | the printed number reads back as itself |
| Metadata.NatToStringInjective | main.py:152 | distinct numbers print differently |
| Metadata.Find | main.py:155 | the index of the first occurrence of a character, or the length when absent |
| Metadata.FirstWord | main.py:155 | `name.split(" ")[0]` is a prefix of the name without a space, and the whole name when it has none |
| Metadata.SplitHeadIsLongestPrefix | main.py:155 | `s.split(c)[0]` is the longest prefix of `s` without `c`, and all of `s` when `c` is absent |
| Metadata.SplitHeadOfJoin | main.py:163 | splitting `a + c + b` on `c` gives `a` when `a` has no `c` |
| Metadata.DateTaken | main.py:163 | `fileCreatedAt.split("T")[0]` is a prefix without `T`; for an ISO-8601 timestamp `YYYY-MM-DDThh:mm:ss…` it is the ten-character date |
| Metadata.DateTakenOfTimestamp | main.py:163 | the date part of `dateTtime` is `date` |
| Metadata.PeopleTagged | main.py:154-158 | there are no more tags than people entries |
| Metadata.PeopleTaggedAppend | main.py:154-158 | tagging distributes over concatenation of people lists |
| Metadata.PeopleTaggedMembers | main.py:154-158 | every tag is the space-free first name of a tracked entry, and every tracked entry's first name is a tag |
| Metadata.Cid | main.py:152 | the content id starts with `image_`, ends with the asset id, and is longer than both together |
| Metadata.ParseCidOfCid | main.py:152 | the content id reads back into its position and asset id, even when the asset id contains `_` or digits |
| Metadata.CidInjective | main.py:151-152 | equal content ids mean equal positions and equal asset ids, so the ids of one email are unique |
| Metadata.Filename | main.py:174 | the attachment name starts with `image_` and ends with `.jpg`, with at least one digit between |
| Metadata.FilenameInjective | main.py:174 | distinct positions give distinct attachment file names |
| Metadata.ComposeImages | main.py:139-175 | one template entry and one attachment per candidate, in order, with matching content ids; content ids and file names are pairwise distinct |

## Left out

- HTTP calls to the photo service (`lib/immich.py`). A search is a function parameter from (window, person id) to a list of assets. A failed request, which would abort the run, is not modelled.
- Downloading, decoding and resizing images (PIL, HEIF). The JPEG bytes of an attachment are not modelled.
- Template rendering with Jinja, writing `email.html`, SMTP delivery (`send_immich_email`) and `urljoin` for `original_url`. `EmailImage` carries no URL.
- Environment loading and parsing of `START_DT` and `EMAIL_IMAGE_LIMIT`. The bound, the tracked ids and the limit are parameters.
- `datetime.now(timezone.utc)` is a parameter: the reference day. All date-times are in UTC.
- `datetime.fromisoformat` on `fileCreatedAt`. Each asset carries the text and the same instant as an integer count of microseconds (`takenAt`); the model does not check that they agree.
- `print` output.
- The probability distributions of `random.choice` and `random.shuffle`. Each random choice is a nondeterministic choice over the values Python could return, so the contracts hold for every outcome.
- Selection.SelectSpaced: the source's acceptance loop has no bound and can run forever, for example when every asset lies within a minute of another. The model takes a `fuel` bound on the number of draws and reports `RetriesExhausted` when it is spent, so it does not prove non-termination.
- Candidates.GetCandidateImages: the source consumes the generator lazily, while the model generates all windows first and then groups them. The generator has no side effects, so the outcome and the exception are the same; the interleaving of generator steps and searches is not modelled.
- Metadata.ComposeImages: models the metadata loop only. The download and resize calls at main.py:140-149 are not part of it.
