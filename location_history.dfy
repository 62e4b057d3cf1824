/**
  Location histories as src/LocationHistory.py handles them: a tree object whose
  root the merge and the repairs update in place, and the two entry points that
  fetch one document per day and fold `Merge` over them.

  The download of one day (`GetDate`) is a parameter `fetch` from a day to the
  parsed document, or None when the request does not answer 200 or its body
  does not parse. Dates are day ordinals, so the day after `d` is `d + 1`.
*/
module LocationHistory {
  import opened Wrappers
  import opened ElementTree
  import opened Kml
  import opened Merging
  import Repair

  /** An `ET.ElementTree`: its root element, replaced as the operations update it. */
  class KmlTree {
    var root: Element

    constructor (root: Element)
      ensures this.root == root
    {
      this.root := root;
    }

    /**
      `Merge(self, other)`: checks both histories, then joins the names, drops
      a repeated seam Placemark and appends the other Document's Placemarks to
      this history's first Document. The other history is left as it was.
    */
    method Merge(other: KmlTree) returns (o: Outcome<Error>)
      requires other != this
      modifies this
      ensures o.Pass? <==> Merged(old(root), other.root).Success?
      ensures o.Pass? ==> root == Merged(old(root), other.root).value
      ensures o.Fail? ==> o.error == Malformed && root == old(root)
    {
      var d1 := FindFirst(root.children, DocumentTag);
      var d2 := FindFirst(other.root.children, DocumentTag);
      if d1.None? || d2.None? {
        assert !HasDocument(root) || !HasDocument(other.root);
        return Fail(Malformed);
      }
      var doc1 := root.children[d1.value];
      var doc2 := other.root.children[d2.value];
      var n1 := FindFirst(doc1.children, NameTag);
      var n2 := FindFirst(doc2.children, NameTag);
      if n1.None? || doc1.children[n1.value].text.None? || n2.None? || doc2.children[n2.value].text.None? {
        assert doc1 == Document(root) && doc2 == Document(other.root);
        assert !Mergeable(root) || !Mergeable(other.root);
        return Fail(Malformed);
      }
      var name1 := doc1.children[n1.value];
      var text := name1.text.value + "\n" + doc2.children[n2.value].text.value;
      var named := doc1.children[n1.value := name1.(text := Some(text))];
      var cs := named;
      var last1 := FindLast(cs, PlacemarkTag);
      var first2 := FindFirst(doc2.children, PlacemarkTag);
      if last1.Some? && first2.Some? {
        if ElementsAreEqual(cs[last1.value], doc2.children[first2.value]) {
          cs := RemoveAt(cs, last1.value);
        }
      }
      assert cs == DropRepeated(named, doc2.children);
      cs := AppendEach(cs, Children(doc2.children, PlacemarkTag));
      assert Mergeable(root) && Mergeable(other.root);
      root := root.(children := root.children[d1.value := doc1.(children := cs)]);
      o := Pass;
    }

    /** `for Placemark in placemarks: Document1.append(Placemark)`. */
    static method AppendEach(cs: seq<Element>, placemarks: seq<Element>) returns (r: seq<Element>)
      ensures r == cs + placemarks
    {
      r := cs;
      var i := 0;
      while i < |placemarks|
        invariant 0 <= i <= |placemarks|
        invariant r == cs + placemarks[..i]
      {
        assert placemarks[..i + 1] == placemarks[..i] + [placemarks[i]];
        r := r + [placemarks[i]];
        i := i + 1;
      }
      assert placemarks[..i] == placemarks;
    }

    /**
      The loop shared by the three repairs: every Placemark child of every
      Document child of the root is replaced by `fix` of it.
    */
    method ApplyToPlacemarks(fix: Element -> Element)
      modifies this
      ensures root == Repair.FixPlacemarks(old(root), fix)
    {
      ghost var was := root;
      var i := 0;
      while i < |root.children|
        invariant |root.children| == |was.children|
        invariant root.(children := []) == was.(children := [])
        invariant 0 <= i <= |root.children|
        invariant forall k :: 0 <= k < i ==> root.children[k] == Repair.FixDocuments(was.children, fix)[k]
        invariant forall k :: i <= k < |root.children| ==> root.children[k] == was.children[k]
      {
        var doc := root.children[i];
        if doc.tag == DocumentTag {
          var cs := doc.children;
          var j := 0;
          while j < |cs|
            invariant |cs| == |doc.children|
            invariant 0 <= j <= |cs|
            invariant forall k :: 0 <= k < j ==> cs[k] == Repair.FixEach(doc.children, fix)[k]
            invariant forall k :: j <= k < |cs| ==> cs[k] == doc.children[k]
          {
            if cs[j].tag == PlacemarkTag {
              cs := cs[j := fix(cs[j])];
            }
            j := j + 1;
          }
          root := root.(children := root.children[i := doc.(children := cs)]);
        }
        i := i + 1;
      }
      assert root.children == Repair.FixDocuments(was.children, fix);
    }

    /** `ReorderLineStringAndTimeSpan`: each Placemark's first LineString moves last. */
    method ReorderLineStringAndTimeSpan()
      modifies this
      ensures root == Repair.FixPlacemarks(old(root), Repair.MoveLineStringLast)
    {
      ApplyToPlacemarks(Repair.MoveLineStringLast);
    }

    /** `ConvertTimeSpanPointToLineString`: a Point with a TimeSpan becomes a two-point LineString. */
    method ConvertTimeSpanPointToLineString()
      modifies this
      ensures root == Repair.FixPlacemarks(old(root), Repair.PointToLineString)
    {
      ApplyToPlacemarks(Repair.PointToLineString);
    }

    /** `RemoveErroneousAltitude`: all-zero altitudes are dropped from the first Point and LineString. */
    method RemoveErroneousAltitude()
      modifies this
      ensures root == Repair.FixPlacemarks(old(root), Repair.StripAltitude)
    {
      ApplyToPlacemarks(Repair.StripAltitude);
    }

    /** The repairs the output step runs before writing the history, in its order. */
    method PrepareForOutput()
      modifies this
      ensures root == Repair.FixPlacemarks(old(root), Repair.Repaired)
    {
      ghost var was := root;
      RemoveErroneousAltitude();
      ConvertTimeSpanPointToLineString();
      ReorderLineStringAndTimeSpan();
      Repair.PipelineIsOneTraversal(was);
    }
  }

  // The fold over days.

  /**
    Folding `Merge` over the days after the accumulated history `acc`: each day
    is fetched before it is merged, and the first exception ends the fold.
  */
  function FoldFrom(acc: Element, days: seq<int>, fetch: int -> Option<Element>): Result<Element, Error>
    decreases |days|
  {
    if days == [] then Success(acc)
    else
      match fetch(days[0])
      case None => Failure(FetchFailed)
      case Some(h) =>
        match Merged(acc, h)
        case Failure(e) => Failure(e)
        case Success(m) => FoldFrom(m, days[1..], fetch)
  }

  lemma FoldFromFails(acc: Element, days: seq<int>, fetch: int -> Option<Element>)
    requires days != [] && fetch(days[0]).None?
    ensures FoldFrom(acc, days, fetch) == Failure(FetchFailed)
  {
  }

  lemma FoldFromStep(acc: Element, days: seq<int>, fetch: int -> Option<Element>)
    requires days != [] && fetch(days[0]).Some?
    ensures Merged(acc, fetch(days[0]).value).Failure? ==>
      FoldFrom(acc, days, fetch) == Failure(Merged(acc, fetch(days[0]).value).error)
    ensures Merged(acc, fetch(days[0]).value).Success? ==>
      FoldFrom(acc, days, fetch) == FoldFrom(Merged(acc, fetch(days[0]).value).value, days[1..], fetch)
  {
  }

  /** The fold raises only the fetch error or the merge error. */
  lemma {:induction false} FoldFromErrors(acc: Element, days: seq<int>, fetch: int -> Option<Element>)
    ensures FoldFrom(acc, days, fetch).Failure? ==>
      FoldFrom(acc, days, fetch).error == FetchFailed || FoldFrom(acc, days, fetch).error == Malformed
    decreases |days|
  {
    if days != [] && fetch(days[0]).Some? {
      FoldFromStep(acc, days, fetch);
      var m := Merged(acc, fetch(days[0]).value);
      if m.Success? {
        FoldFromErrors(m.value, days[1..], fetch);
      }
    }
  }

  /** The first day's history, with the following days folded into it. */
  function FetchAndMerge(days: seq<int>, fetch: int -> Option<Element>): (r: Result<Element, Error>)
    requires |days| > 0
    ensures r.Failure? ==> r.error == FetchFailed || r.error == Malformed
  {
    match fetch(days[0])
    case None => Failure(FetchFailed)
    case Some(h) =>
      FoldFromErrors(h, days[1..], fetch);
      FoldFrom(h, days[1..], fetch)
  }

  predicate Ascending(s: seq<int>) {
    forall i, j :: 0 <= i < j < |s| ==> s[i] <= s[j]
  }

  /** `x` put into its place in an ascending sequence. */
  function Insert(x: int, s: seq<int>): (r: seq<int>)
    requires Ascending(s)
    ensures Ascending(r)
    ensures multiset(r) == multiset(s) + multiset{x}
  {
    if s == [] || x <= s[0] then
      AscendingCons(x, s);
      [x] + s
    else
      var rest := Insert(x, s[1..]);
      assert s == [s[0]] + s[1..];
      InsertBehindHead(x, s, rest);
      AscendingCons(s[0], rest);
      [s[0]] + rest
  }

  /** An ascending sequence stays ascending behind a head no greater than its first element. */
  lemma AscendingCons(h: int, s: seq<int>)
    requires Ascending(s) && (s == [] || h <= s[0])
    ensures Ascending([h] + s)
  {
  }

  lemma InsertBehindHead(x: int, s: seq<int>, rest: seq<int>)
    requires Ascending(s) && s != [] && s[0] < x
    requires multiset(rest) == multiset(s[1..]) + multiset{x}
    ensures rest == [] || s[0] <= rest[0]
  {
    if rest != [] {
      assert rest[0] in multiset(rest);
      if rest[0] != x {
        assert rest[0] in multiset(s[1..]);
        assert rest[0] in s[1..];
      }
    }
  }

  /** `sorted(Dates)`: the dates in ascending order, repeats kept. */
  function SortDays(days: seq<int>): (r: seq<int>)
    ensures Ascending(r)
    ensures multiset(r) == multiset(days)
  {
    if days == [] then []
    else
      assert days == [days[0]] + days[1..];
      Insert(days[0], SortDays(days[1..]))
  }

  /** The history `GetDates(dates)` returns, or the exception it raises. */
  function FetchDates(dates: seq<int>, fetch: int -> Option<Element>): (r: Result<Element, Error>)
    ensures r == Failure(NoDates) <==> |dates| == 0
    ensures r.Failure? && |dates| > 0 ==> r.error == FetchFailed || r.error == Malformed
  {
    if |dates| == 0 then Failure(NoDates)
    else
      assert |SortDays(dates)| == |dates| by {
        assert |multiset(SortDays(dates))| == |multiset(dates)|;
      }
      FetchAndMerge(SortDays(dates), fetch)
  }

  /** `n` consecutive days from `start` on. */
  function DaysFrom(start: int, n: nat): (r: seq<int>)
    ensures |r| == n
    ensures forall k :: 0 <= k < n ==> r[k] == start + k
    decreases n
  {
    if n == 0 then [] else [start] + DaysFrom(start + 1, n - 1)
  }

  /** The history `GetDateRange(start, end)` returns, or the exception it raises. */
  function FetchRange(start: int, end: int, fetch: int -> Option<Element>): (r: Result<Element, Error>)
    ensures r == Failure(StartAfterEnd) <==> end < start
    ensures r.Failure? && start <= end ==> r.error == FetchFailed || r.error == Malformed
  {
    if end < start then Failure(StartAfterEnd)
    else FetchAndMerge(DaysFrom(start, end - start + 1), fetch)
  }

  /**
    `GetDates`: refuses an empty list, then fetches the days in ascending order
    and merges each into the history of the days before it.
  */
  method GetDates(dates: seq<int>, fetch: int -> Option<Element>) returns (r: Result<KmlTree, Error>)
    ensures r.Success? ==> FetchDates(dates, fetch) == Success(r.value.root)
    ensures r.Failure? ==> FetchDates(dates, fetch) == Failure(r.error)
  {
    if |dates| == 0 {
      return Failure(NoDates);
    }
    var sorted := SortDays(dates);
    assert |multiset(sorted)| == |multiset(dates)|;
    var first := fetch(sorted[0]);
    if first.None? {
      return Failure(FetchFailed);
    }
    var history := new KmlTree(first.value);
    var i := 1;
    while i < |sorted|
      invariant 1 <= i <= |sorted|
      invariant FoldFrom(history.root, sorted[i..], fetch) == FetchDates(dates, fetch)
    {
      ghost var rest := sorted[i..];
      assert rest[0] == sorted[i] && rest[1..] == sorted[i + 1..];
      var day := fetch(sorted[i]);
      if day.None? {
        FoldFromFails(history.root, rest, fetch);
        return Failure(FetchFailed);
      }
      var other := new KmlTree(day.value);
      ghost var before := history.root;
      var o := history.Merge(other);
      FoldFromStep(before, rest, fetch);
      if o.Fail? {
        return Failure(o.error);
      }
      i := i + 1;
    }
    return Success(history);
  }

  /**
    `GetDateRange`: refuses an end before the start, then fetches the start day
    and merges each following day up to and including the end.
  */
  method GetDateRange(start: int, end: int, fetch: int -> Option<Element>) returns (r: Result<KmlTree, Error>)
    ensures r.Success? ==> FetchRange(start, end, fetch) == Success(r.value.root)
    ensures r.Failure? ==> FetchRange(start, end, fetch) == Failure(r.error)
  {
    if end < start {
      return Failure(StartAfterEnd);
    }
    var first := fetch(start);
    if first.None? {
      return Failure(FetchFailed);
    }
    var history := new KmlTree(first.value);
    ghost var days := DaysFrom(start, end - start + 1);
    assert FetchRange(start, end, fetch) == FoldFrom(history.root, days[1..], fetch);
    var delta := 0;
    while delta < end - start
      invariant 0 <= delta <= end - start
      invariant FoldFrom(history.root, days[delta + 1..], fetch) == FetchRange(start, end, fetch)
    {
      ghost var rest := days[delta + 1..];
      var date := start + delta + 1;
      assert rest[0] == date && rest[1..] == days[delta + 2..];
      var day := fetch(date);
      if day.None? {
        FoldFromFails(history.root, rest, fetch);
        return Failure(FetchFailed);
      }
      var other := new KmlTree(day.value);
      ghost var before := history.root;
      var o := history.Merge(other);
      FoldFromStep(before, rest, fetch);
      if o.Fail? {
        return Failure(o.error);
      }
      delta := delta + 1;
    }
    return Success(history);
  }

  // What the fold computes.

  /** A fetch that answered with a history `Merge` accepts. */
  predicate Usable(fetch: int -> Option<Element>, day: int) {
    fetch(day).Some? && Mergeable(fetch(day).value)
  }

  /** The name of a day's history, or "" when the day is not usable. */
  function DayName(fetch: int -> Option<Element>, day: int): string {
    if Usable(fetch, day) then NameText(fetch(day).value) else ""
  }

  /** The number of Placemarks in a day's history, or 0 when the day is not usable. */
  function DayPlacemarks(fetch: int -> Option<Element>, day: int): nat {
    if Usable(fetch, day) then |Placemarks(fetch(day).value)| else 0
  }

  /** The names of the days, each after a line feed. */
  function JoinedNames(days: seq<int>, fetch: int -> Option<Element>): string {
    if days == [] then "" else "\n" + DayName(fetch, days[0]) + JoinedNames(days[1..], fetch)
  }

  /** The Placemarks of the days, counted together. */
  function PlacemarkTotal(days: seq<int>, fetch: int -> Option<Element>): nat {
    if days == [] then 0 else DayPlacemarks(fetch, days[0]) + PlacemarkTotal(days[1..], fetch)
  }

  /** The Placemarks of a day's history, or none when the day is not usable. */
  function DayPlacemarkSeq(fetch: int -> Option<Element>, day: int): seq<Element> {
    if Usable(fetch, day) then Placemarks(fetch(day).value) else []
  }

  /**
    One seam: the Placemarks `qs` follow `ps`, and the last of `ps` is left out
    when it repeats the first of `qs`.
  */
  function Seam(ps: seq<Element>, qs: seq<Element>): seq<Element> {
    (if Repeats(ps, qs) then ps[..|ps| - 1] else ps) + qs
  }

  /** The Placemarks `ps` with those of the days joined on, seam by seam, in the order of the days. */
  function JoinedPlacemarks(ps: seq<Element>, days: seq<int>, fetch: int -> Option<Element>): seq<Element>
    decreases |days|
  {
    if days == [] then ps else JoinedPlacemarks(Seam(ps, DayPlacemarkSeq(fetch, days[0])), days[1..], fetch)
  }

  /** A seam loses no Placemark and invents none, and shortens the total by one exactly when it repeats. */
  lemma SeamKeepsPlacemarks(ps: seq<Element>, qs: seq<Element>)
    ensures forall x :: x in Seam(ps, qs) <==> x in ps || x in qs
    ensures |Seam(ps, qs)| == |ps| + |qs| - (if Repeats(ps, qs) then 1 else 0)
  {
    if Repeats(ps, qs) {
      assert ps == ps[..|ps| - 1] + [qs[0]];
    }
  }

  /** Some day among `days` has `x` among its Placemarks. */
  ghost predicate OnSomeDay(x: Element, days: seq<int>, fetch: int -> Option<Element>) {
    exists k :: 0 <= k < |days| && x in DayPlacemarkSeq(fetch, days[k])
  }

  /**
    Joining loses no Placemark and invents none: a Placemark is in the result
    exactly when it is in `ps` or in the history of one of the days.
  */
  lemma {:induction false} JoinedPlacemarksKeepAll(ps: seq<Element>, days: seq<int>, fetch: int -> Option<Element>, x: Element)
    ensures x in JoinedPlacemarks(ps, days, fetch) <==> x in ps || OnSomeDay(x, days, fetch)
    decreases |days|
  {
    if days != [] {
      var qs := DayPlacemarkSeq(fetch, days[0]);
      SeamKeepsPlacemarks(ps, qs);
      JoinedPlacemarksKeepAll(Seam(ps, qs), days[1..], fetch, x);
      if OnSomeDay(x, days[1..], fetch) {
        var k :| 0 <= k < |days[1..]| && x in DayPlacemarkSeq(fetch, days[1..][k]);
        assert days[1..][k] == days[k + 1];
      }
      if OnSomeDay(x, days, fetch) && x !in qs {
        var k :| 0 <= k < |days| && x in DayPlacemarkSeq(fetch, days[k]);
        assert days[k] == days[1..][k - 1];
      }
    }
  }

  /**
    A day whose fetch fails, or whose history `Merge` rejects, makes the whole
    fold fail, wherever the day comes.
  */
  lemma FoldFromFailsOnBadDay(acc: Element, days: seq<int>, fetch: int -> Option<Element>, k: nat)
    requires k < |days| && !Usable(fetch, days[k])
    ensures FoldFrom(acc, days, fetch).Failure?
  {
    FoldFromFailsOn(acc, days, fetch, k, days[k]);
  }

  /** The induction behind `FoldFromFailsOnBadDay`, with the unusable day named `bad`. */
  lemma {:induction false} FoldFromFailsOn(acc: Element, days: seq<int>, fetch: int -> Option<Element>, k: nat, bad: int)
    requires k < |days| && days[k] == bad && !Usable(fetch, bad)
    ensures FoldFrom(acc, days, fetch).Failure?
    decreases k
  {
    if k == 0 {
      FoldFromFailsFirst(acc, days, fetch);
    } else if fetch(days[0]).None? {
      FoldFromFails(acc, days, fetch);
    } else {
      FoldFromStep(acc, days, fetch);
      var m := Merged(acc, fetch(days[0]).value);
      if m.Success? {
        TailAt(days, k);
        FoldFromFailsOn(m.value, days[1..], fetch, k - 1, bad);
      }
    }
  }

  /** An unusable first day makes the fold fail. */
  lemma FoldFromFailsFirst(acc: Element, days: seq<int>, fetch: int -> Option<Element>)
    requires days != [] && !Usable(fetch, days[0])
    ensures FoldFrom(acc, days, fetch).Failure?
  {
    if fetch(days[0]).Some? {
      FoldFromStep(acc, days, fetch);
    }
  }

  lemma TailAt(days: seq<int>, k: nat)
    requires 0 < k < |days|
    ensures days[1..][k - 1] == days[k]
  {
  }

  /**
    When every day is usable the fold succeeds: its name is every name joined
    with line feeds, in the order of the days, and its Placemarks are those of
    the days joined seam by seam, so it holds all of them but at most one per seam.
  */
  lemma {:induction false} FoldFromAllUsable(acc: Element, days: seq<int>, fetch: int -> Option<Element>)
    requires Mergeable(acc)
    requires forall k :: 0 <= k < |days| ==> Usable(fetch, days[k])
    ensures FoldFrom(acc, days, fetch).Success?
    ensures Mergeable(FoldFrom(acc, days, fetch).value)
    ensures NameText(FoldFrom(acc, days, fetch).value) == NameText(acc) + JoinedNames(days, fetch)
    ensures Placemarks(FoldFrom(acc, days, fetch).value) == JoinedPlacemarks(Placemarks(acc), days, fetch)
    ensures |Placemarks(FoldFrom(acc, days, fetch).value)| <= |Placemarks(acc)| + PlacemarkTotal(days, fetch)
    ensures |Placemarks(acc)| + PlacemarkTotal(days, fetch) - |days| <= |Placemarks(FoldFrom(acc, days, fetch).value)|
    decreases |days|
  {
    if days != [] {
      assert Usable(fetch, days[0]);
      var h := fetch(days[0]).value;
      MergedName(acc, h);
      MergedPlacemarks(acc, h);
      MergedPlacemarkCount(acc, h);
      var m := Merged(acc, h).value;
      FoldFromStep(acc, days, fetch);
      assert forall k :: 0 <= k < |days[1..]| ==> days[1..][k] == days[k + 1];
      FoldFromAllUsable(m, days[1..], fetch);
      Regroup(NameText(acc), "\n", NameText(h), JoinedNames(days[1..], fetch));
    }
  }

  lemma Regroup(a: string, sep: string, n: string, rest: string)
    ensures a + sep + n + rest == a + (sep + n + rest)
  {
  }

  /** The head of an ascending sequence is its least element, and its tail is ascending. */
  lemma AscendingHead(s: seq<int>, x: int)
    requires Ascending(s) && x in s
    ensures s[0] <= x
    ensures Ascending(s[1..])
  {
  }

  lemma HeadAndRest(s: seq<int>)
    requires s != []
    ensures multiset(s) == multiset{s[0]} + multiset(s[1..])
  {
    assert s == [s[0]] + s[1..];
  }

  /** Two ascending sequences with the same elements start alike. */
  lemma SameHead(a: seq<int>, b: seq<int>)
    requires Ascending(a) && Ascending(b) && multiset(a) == multiset(b) && a != []
    ensures b != [] && a[0] == b[0]
    ensures Ascending(a[1..]) && Ascending(b[1..])
    ensures multiset(a[1..]) == multiset(b[1..])
  {
    assert |multiset(b)| == |multiset(a)|;
    assert a[0] in multiset(b) && b[0] in multiset(a);
    assert a[0] in b && b[0] in a;
    AscendingHead(a, b[0]);
    AscendingHead(b, a[0]);
    HeadAndRest(a);
    HeadAndRest(b);
    assert multiset(a[1..]) == multiset(a) - multiset{a[0]};
    assert multiset(b[1..]) == multiset(b) - multiset{b[0]};
  }

  /** Sorting is unique: two ascending sequences with the same elements are equal. */
  lemma {:induction false} AscendingUnique(a: seq<int>, b: seq<int>)
    requires Ascending(a) && Ascending(b) && multiset(a) == multiset(b)
    ensures a == b
    decreases |a|
  {
    if a == [] {
      assert |multiset(b)| == 0;
    } else {
      SameHead(a, b);
      AscendingUnique(a[1..], b[1..]);
      assert a == [a[0]] + a[1..] && b == [b[0]] + b[1..];
    }
  }

  /** `GetDates` does not depend on the order in which the dates are given. */
  lemma FetchDatesIgnoresOrder(a: seq<int>, b: seq<int>, fetch: int -> Option<Element>)
    requires multiset(a) == multiset(b)
    ensures FetchDates(a, fetch) == FetchDates(b, fetch)
  {
    assert |multiset(a)| == |multiset(b)|;
    AscendingUnique(SortDays(a), SortDays(b));
  }

  /**
    `GetDateRange(start, end)` is `GetDates` of every day from the start to the
    end, both included: `end - start + 1` days.
  */
  lemma FetchRangeIsFetchDates(start: int, end: int, fetch: int -> Option<Element>)
    requires start <= end
    ensures FetchRange(start, end, fetch) == FetchDates(DaysFrom(start, end - start + 1), fetch)
  {
    var days := DaysFrom(start, end - start + 1);
    assert Ascending(days);
    AscendingUnique(SortDays(days), days);
  }

  /**
    `GetDates` of usable days succeeds with the names of the days in ascending
    order of the days, and with their Placemarks joined seam by seam in that order.
  */
  lemma FetchDatesAllUsable(dates: seq<int>, fetch: int -> Option<Element>)
    requires |dates| > 0
    requires forall k :: 0 <= k < |dates| ==> Usable(fetch, dates[k])
    ensures FetchDates(dates, fetch).Success?
    ensures Mergeable(FetchDates(dates, fetch).value)
    ensures NameText(FetchDates(dates, fetch).value)
      == DayName(fetch, SortDays(dates)[0]) + JoinedNames(SortDays(dates)[1..], fetch)
    ensures Placemarks(FetchDates(dates, fetch).value)
      == JoinedPlacemarks(DayPlacemarkSeq(fetch, SortDays(dates)[0]), SortDays(dates)[1..], fetch)
    ensures |Placemarks(FetchDates(dates, fetch).value)| <= PlacemarkTotal(SortDays(dates), fetch)
    ensures PlacemarkTotal(SortDays(dates), fetch) - |dates| + 1 <= |Placemarks(FetchDates(dates, fetch).value)|
  {
    var s := SortDays(dates);
    assert |multiset(s)| == |multiset(dates)|;
    forall j | 0 <= j < |s| ensures Usable(fetch, s[j]) {
      assert s[j] in multiset(dates);
      assert s[j] in dates;
    }
    FoldFromAllUsable(fetch(s[0]).value, s[1..], fetch);
  }

  /** A fold from a history `Merge` rejects fails as soon as there is a day to merge into it. */
  lemma FoldFromUnmergeable(acc: Element, days: seq<int>, fetch: int -> Option<Element>)
    requires days != [] && !Mergeable(acc)
    ensures FoldFrom(acc, days, fetch).Failure?
  {
    if fetch(days[0]).Some? {
      FoldFromStep(acc, days, fetch);
    }
  }

  /**
    With two or more dates, `GetDates` succeeds exactly when every day is
    usable: a failed fetch, or a history `Merge` rejects, on any day makes it fail.
  */
  lemma FetchDatesSucceedsExactly(dates: seq<int>, fetch: int -> Option<Element>)
    requires |dates| > 1
    ensures FetchDates(dates, fetch).Success? <==> forall k :: 0 <= k < |dates| ==> Usable(fetch, dates[k])
  {
    if forall k :: 0 <= k < |dates| ==> Usable(fetch, dates[k]) {
      FetchDatesAllUsable(dates, fetch);
    } else {
      var k :| 0 <= k < |dates| && !Usable(fetch, dates[k]);
      var j := SortedBadDay(dates, fetch, k);
      FetchAndMergeFailsOnBadDay(SortDays(dates), fetch, j);
    }
  }

  /** An unusable day is still among the sorted days. */
  lemma SortedBadDay(dates: seq<int>, fetch: int -> Option<Element>, k: nat) returns (j: nat)
    requires k < |dates| && !Usable(fetch, dates[k])
    ensures |SortDays(dates)| == |dates|
    ensures j < |dates| && !Usable(fetch, SortDays(dates)[j])
  {
    var s := SortDays(dates);
    assert |multiset(s)| == |multiset(dates)|;
    assert dates[k] in multiset(s);
    j :| 0 <= j < |s| && s[j] == dates[k];
  }

  /** With two or more days, an unusable day anywhere makes fetching and merging fail. */
  lemma FetchAndMergeFailsOnBadDay(s: seq<int>, fetch: int -> Option<Element>, j: nat)
    requires |s| > 1 && j < |s| && !Usable(fetch, s[j])
    ensures FetchAndMerge(s, fetch).Failure?
  {
    if fetch(s[0]).Some? {
      if j == 0 {
        FoldFromUnmergeable(fetch(s[0]).value, s[1..], fetch);
      } else {
        FoldFromFailsOnBadDay(fetch(s[0]).value, s[1..], fetch, j - 1);
      }
    }
  }

  /**
    With one date no `Merge` runs: `GetDates` gives that day's history exactly
    when its fetch succeeds, whether `Merge` would accept it or not.
  */
  lemma FetchDatesOneDay(d: int, fetch: int -> Option<Element>)
    ensures fetch(d).None? ==> FetchDates([d], fetch) == Failure(FetchFailed)
    ensures fetch(d).Some? ==> FetchDates([d], fetch) == Success(fetch(d).value)
  {
    assert SortDays([d]) == [d] by {
      assert [d][1..] == [];
    }
  }

  /** Every day of `DaysFrom(start, n)` is usable exactly when every day from `start` to `start + n - 1` is. */
  lemma UsableDaysFrom(start: int, n: nat, fetch: int -> Option<Element>)
    ensures (forall k :: 0 <= k < n ==> Usable(fetch, DaysFrom(start, n)[k]))
      ==> (forall d :: start <= d < start + n ==> Usable(fetch, d))
    ensures (forall d :: start <= d < start + n ==> Usable(fetch, d))
      ==> (forall k :: 0 <= k < n ==> Usable(fetch, DaysFrom(start, n)[k]))
  {
    var days := DaysFrom(start, n);
    if forall k :: 0 <= k < n ==> Usable(fetch, days[k]) {
      forall d | start <= d < start + n ensures Usable(fetch, d) {
        assert days[d - start] == d;
      }
    }
    if forall d :: start <= d < start + n ==> Usable(fetch, d) {
      forall k | 0 <= k < n ensures Usable(fetch, days[k]) {
        assert days[k] == start + k;
      }
    }
  }

  /** A range of two or more days succeeds exactly when every day in it is usable. */
  lemma FetchRangeSucceedsExactly(start: int, end: int, fetch: int -> Option<Element>)
    requires start < end
    ensures FetchRange(start, end, fetch).Success? <==> forall d :: start <= d <= end ==> Usable(fetch, d)
  {
    FetchRangeIsFetchDates(start, end, fetch);
    FetchDatesSucceedsExactly(DaysFrom(start, end - start + 1), fetch);
    UsableDaysFrom(start, end - start + 1, fetch);
  }

  /** A range of one day succeeds exactly when that day's fetch does; no `Merge` runs. */
  lemma FetchRangeOneDay(day: int, fetch: int -> Option<Element>)
    ensures FetchRange(day, day, fetch).Success? <==> fetch(day).Some?
  {
    FetchRangeIsFetchDates(day, day, fetch);
    assert DaysFrom(day, 1) == [day];
    FetchDatesOneDay(day, fetch);
  }
}
