/** The per-image metadata `create_email_html` builds for the template and
    for the inline attachments (main.py:139-175): the content id, the first
    names of the tracked people, the date part of the creation time and the
    attachment file name. Downloading, resizing and rendering are not part
    of this model. */
module Metadata {
  import opened Common

  function DigitChar(d: nat): (c: char)
    requires d < 10
    ensures '0' <= c <= '9'
  {
    ['0', '1', '2', '3', '4', '5', '6', '7', '8', '9'][d]
  }

  function DigitValue(c: char): nat
    requires '0' <= c <= '9'
  {
    (c as int - '0' as int) as nat
  }

  /** Python's `str(i)` (inside an f-string) for a natural number. */
  function NatToString(n: nat): (r: string)
    ensures r != [] && forall k | 0 <= k < |r| :: '0' <= r[k] <= '9'
  {
    if n < 10 then [DigitChar(n)] else NatToString(n / 10) + [DigitChar(n % 10)]
  }

  /** The value of a non-empty string of decimal digits. */
  function ParseNat(s: string): Option<nat>
  {
    if s == [] then None
    else if !('0' <= s[|s| - 1] <= '9') then None
    else if |s| == 1 then Some(DigitValue(s[0]))
    else match ParseNat(s[..|s| - 1])
      case None => None
      case Some(high) => Some(high * 10 + DigitValue(s[|s| - 1]))
  }

  lemma {:induction false} ParseNatToString(n: nat)
    ensures ParseNat(NatToString(n)) == Some(n)
  {
    if n >= 10 {
      ParseNatToString(n / 10);
      var s := NatToString(n);
      assert s[..|s| - 1] == NatToString(n / 10);
    }
  }

  /** Distinct numbers print differently. */
  lemma NatToStringInjective(i: nat, j: nat)
    requires NatToString(i) == NatToString(j)
    ensures i == j
  {
    ParseNatToString(i);
    ParseNatToString(j);
  }

  /** The index of the first `c` in `s`, or `|s|` when there is none. */
  function Find(s: string, c: char): (r: nat)
    ensures r <= |s| && (forall k | 0 <= k < r :: s[k] != c) && (r < |s| ==> s[r] == c)
  {
    if s == [] then 0
    else if s[0] == c then 0
    else 1 + Find(s[1..], c)
  }

  /** `s.split(c)[0]`: the text before the first `c`, all of `s` when there
      is none. */
  function SplitHead(s: string, c: char): string
  {
    s[..Find(s, c)]
  }

  /** The head is the longest prefix of `s` without `c`. */
  lemma SplitHeadIsLongestPrefix(s: string, c: char)
    ensures var h := SplitHead(s, c);
            && h <= s && c !in h
            && (|h| < |s| ==> s[|h|] == c)
            && (c !in s ==> h == s)
  {
  }

  /** Splitting `a + [c] + b` on `c` gives `a` when `a` has no `c`. */
  lemma {:induction false} SplitHeadOfJoin(a: string, c: char, b: string)
    requires c !in a
    ensures SplitHead(a + [c] + b, c) == a
    ensures Find(a + [c] + b, c) == |a|
  {
    var s := a + [c] + b;
    if a != [] {
      assert s[0] == a[0];
      assert s[1..] == a[1..] + [c] + b;
      SplitHeadOfJoin(a[1..], c, b);
    }
  }

  /** `x["name"].split(" ")[0]`: a person's first name. */
  function FirstWord(name: string): (r: string)
    ensures r <= name && ' ' !in r
    ensures ' ' !in name ==> r == name
  {
    SplitHead(name, ' ')
  }

  /** `candidate_image["fileCreatedAt"].split("T")[0]`: the date part of an
      ISO-8601 timestamp. */
  function DateTaken(createdAt: string): (r: string)
    ensures r <= createdAt && 'T' !in r
    ensures |createdAt| > 10 && createdAt[10] == 'T' && 'T' !in createdAt[..10] ==> r == createdAt[..10]
  {
    SplitHead(createdAt, 'T')
  }

  /** An ISO-8601 timestamp whose date part has no `T` yields that date. */
  lemma DateTakenOfTimestamp(date: string, time: string)
    requires 'T' !in date
    ensures DateTaken(date + "T" + time) == date
  {
    assert date + "T" + time == date + ['T'] + time;
    SplitHeadOfJoin(date, 'T', time);
  }

  /** `people_tagged` (main.py:154-158): the first names of the entries whose
      id is tracked, in the order of `people`. */
  function PeopleTagged(people: seq<Person>, persons: seq<string>): (r: seq<string>)
    ensures |r| <= |people|
  {
    if people == [] then []
    else
      var last := people[|people| - 1];
      PeopleTagged(people[..|people| - 1], persons)
      + (if last.id in persons then [FirstWord(last.name)] else [])
  }

  /** Tagging distributes over concatenation of `people` lists: each entry
      contributes its own tag, in place. */
  lemma {:induction false} PeopleTaggedAppend(p: seq<Person>, q: seq<Person>, persons: seq<string>)
    ensures PeopleTagged(p + q, persons) == PeopleTagged(p, persons) + PeopleTagged(q, persons)
    decreases |q|
  {
    if q != [] {
      var last := |q| - 1;
      assert (p + q)[..|p + q| - 1] == p + q[..last];
      assert (p + q)[|p + q| - 1] == q[last];
      PeopleTaggedAppend(p, q[..last], persons);
      var tail := if q[last].id in persons then [FirstWord(q[last].name)] else [];
      calc {
        PeopleTagged(p + q, persons);
        PeopleTagged(p + q[..last], persons) + tail;
        (PeopleTagged(p, persons) + PeopleTagged(q[..last], persons)) + tail;
        PeopleTagged(p, persons) + (PeopleTagged(q[..last], persons) + tail);
      }
    } else {
      assert p + q == p;
    }
  }

  /** Every tag is the first name of a tracked entry, and has no space; an
      entry is tagged exactly when its id is tracked. */
  lemma {:induction false} PeopleTaggedMembers(people: seq<Person>, persons: seq<string>)
    ensures forall t | t in PeopleTagged(people, persons) ::
              ' ' !in t && exists k :: 0 <= k < |people| && people[k].id in persons && t == FirstWord(people[k].name)
    ensures forall k | 0 <= k < |people| && people[k].id in persons ::
              FirstWord(people[k].name) in PeopleTagged(people, persons)
  {
    if people != [] {
      var last := |people| - 1;
      var prefix := people[..last];
      PeopleTaggedMembers(prefix, persons);
      forall t | t in PeopleTagged(people, persons)
        ensures ' ' !in t && exists k :: 0 <= k < |people| && people[k].id in persons && t == FirstWord(people[k].name)
      {
        if t in PeopleTagged(prefix, persons) {
          var k :| 0 <= k < |prefix| && prefix[k].id in persons && t == FirstWord(prefix[k].name);
          assert people[k] == prefix[k];
        } else {
          SplitHeadIsLongestPrefix(people[last].name, ' ');
        }
      }
      forall k | 0 <= k < |people| && people[k].id in persons
        ensures FirstWord(people[k].name) in PeopleTagged(people, persons)
      {
        if k < last {
          assert people[k] == prefix[k];
        }
      }
    }
  }

  const CidPrefix := "image_"

  /** `f"image_{i}_{candidate_image['id']}"`. */
  function Cid(i: nat, assetId: string): (r: string)
    ensures |r| > |CidPrefix| + |assetId|
    ensures r[..|CidPrefix|] == CidPrefix && r[|r| - |assetId|..] == assetId
  {
    CidPrefix + NatToString(i) + "_" + assetId
  }

  /** Reads a content id back into the position and the asset id. */
  function ParseCid(cid: string): Option<(nat, string)>
  {
    if |cid| < |CidPrefix| || cid[..|CidPrefix|] != CidPrefix then None
    else
      var rest := cid[|CidPrefix|..];
      var cut := Find(rest, '_');
      if cut == |rest| then None
      else match ParseNat(rest[..cut])
        case None => None
        case Some(i) => Some((i, rest[cut + 1..]))
  }

  /** The content id determines the position and the asset id: digits never
      contain `_`, so the first `_` after the prefix ends the number even
      when the asset id itself contains `_` or digits. */
  lemma ParseCidOfCid(i: nat, assetId: string)
    ensures ParseCid(Cid(i, assetId)) == Some((i, assetId))
  {
    var digits := NatToString(i);
    var cid := Cid(i, assetId);
    assert cid == CidPrefix + (digits + ['_'] + assetId);
    assert cid[..|CidPrefix|] == CidPrefix;
    var rest := cid[|CidPrefix|..];
    assert rest == digits + ['_'] + assetId;
    assert '_' !in digits;
    SplitHeadOfJoin(digits, '_', assetId);
    assert rest[..|digits|] == digits;
    assert rest[|digits| + 1..] == assetId;
    ParseNatToString(i);
  }

  /** Two images get the same content id only when they sit at the same
      position and have the same asset id; within one email the positions
      differ, so the ids are unique. */
  lemma CidInjective(i: nat, a: string, j: nat, b: string)
    requires Cid(i, a) == Cid(j, b)
    ensures i == j && a == b
  {
    ParseCidOfCid(i, a);
    ParseCidOfCid(j, b);
  }

  /** `f"image_{i}.jpg"`. */
  function Filename(i: nat): (r: string)
    ensures |r| > 10 && r[..6] == "image_" && r[|r| - 4..] == ".jpg"
  {
    "image_" + NatToString(i) + ".jpg"
  }

  lemma FilenameInjective(i: nat, j: nat)
    requires Filename(i) == Filename(j)
    ensures i == j
  {
    var s, t := NatToString(i), NatToString(j);
    assert |s| == |t|;
    assert s == Filename(i)[6..6 + |s|];
    assert t == Filename(j)[6..6 + |t|];
    NatToStringInjective(i, j);
  }

  /** One entry of the template's `images` list; `original_url` is not part
      of this model. */
  datatype EmailImage = EmailImage(dateTaken: string, cid: string, peopleTagged: seq<string>)

  /** One inline attachment; the resized JPEG bytes are not part of this
      model. */
  datatype InlineImage = InlineImage(cid: string, filename: string)

  /** The loop of main.py:139-175 over `enumerate(candidate_images)`. */
  method ComposeImages(candidates: seq<Asset>, persons: seq<string>)
    returns (images: seq<EmailImage>, inline: seq<InlineImage>)
    ensures |images| == |inline| == |candidates|
    ensures forall i | 0 <= i < |candidates| ::
              && images[i] == EmailImage(DateTaken(candidates[i].fileCreatedAt), Cid(i, candidates[i].id),
                                         PeopleTagged(candidates[i].people, persons))
              && inline[i] == InlineImage(Cid(i, candidates[i].id), Filename(i))
    ensures forall i, j | 0 <= i < j < |inline| :: inline[i].cid != inline[j].cid && inline[i].filename != inline[j].filename
    ensures forall i | 0 <= i < |images| :: images[i].cid == inline[i].cid
  {
    images, inline := [], [];
    for i := 0 to |candidates|
      invariant |images| == |inline| == i
      invariant forall k | 0 <= k < i ::
                  && images[k] == EmailImage(DateTaken(candidates[k].fileCreatedAt), Cid(k, candidates[k].id),
                                             PeopleTagged(candidates[k].people, persons))
                  && inline[k] == InlineImage(Cid(k, candidates[k].id), Filename(k))
    {
      var candidate := candidates[i];
      var cid := Cid(i, candidate.id);
      var tagged := PeopleTagged(candidate.people, persons);
      images := images + [EmailImage(DateTaken(candidate.fileCreatedAt), cid, tagged)];
      inline := inline + [InlineImage(cid, Filename(i))];
    }
    forall i, j | 0 <= i < j < |inline| ensures inline[i].cid != inline[j].cid && inline[i].filename != inline[j].filename {
      if inline[i].cid == inline[j].cid {
        CidInjective(i, candidates[i].id, j, candidates[j].id);
      }
      if inline[i].filename == inline[j].filename {
        FilenameInjective(i, j);
      }
    }
  }
}
