/**
  The three repairs applied to a location history before it is written out
  (src/LocationHistory.py:103-164), each stated on one Placemark, and their
  traversal over `findall('ns:Document/ns:Placemark')`: every Placemark child of
  every Document child of the root. The repairs change a Placemark's children
  only, never its tag, so the traversal visits the same Placemarks whatever
  repair ran before it. The in-place methods are in `LocationHistory.KmlTree`.
*/
module Repair {
  import opened Wrappers
  import opened ElementTree
  import opened Kml
  import AltitudePattern
  import Merging

  // ReorderLineStringAndTimeSpan (src/LocationHistory.py:103-116).

  /** The first LineString child taken out and appended after the other children. */
  function MoveLineStringLast(p: Element): Element {
    match FindFirst(p.children, LineStringTag)
    case None => p
    case Some(i) => p.(children := RemoveAt(p.children, i) + [p.children[i]])
  }

  // ConvertTimeSpanPointToLineString (src/LocationHistory.py:119-135).

  /** The first coordinates child's text `c`, if any, becomes `c + " " + c`. */
  function DoubleCoordinates(g: Element): Element {
    match FindFirst(g.children, CoordinatesTag)
    case None => g
    case Some(c) =>
      match g.children[c].text
      case None => g
      case Some(t) => g.(children := g.children[c := g.children[c].(text := Some(t + " " + t))])
  }

  /** With both a Point and a TimeSpan, the first Point becomes a LineString through its point twice. */
  function PointToLineString(p: Element): Element {
    match FindFirst(p.children, PointTag)
    case None => p
    case Some(i) =>
      if FindFirst(p.children, TimeSpanTag).None? then p
      else p.(children := p.children[i := DoubleCoordinates(p.children[i].(tag := LineStringTag))])
  }

  // RemoveErroneousAltitude (src/LocationHistory.py:138-164).

  /** The first coordinates child's text loses its altitudes when all of them are `,0`. */
  function StripCoordinates(g: Element): Element {
    match FindFirst(g.children, CoordinatesTag)
    case None => g
    case Some(c) =>
      match g.children[c].text
      case None => g
      case Some(t) =>
        if AltitudePattern.FullMatch(t)
        then g.(children := g.children[c := g.children[c].(text := Some(AltitudePattern.Substitute(t)))])
        else g
  }

  /** The first child with the given tag stripped, if there is one. */
  function StripFirst(p: Element, tag: string): Element {
    match FindFirst(p.children, tag)
    case None => p
    case Some(i) => p.(children := p.children[i := StripCoordinates(p.children[i])])
  }

  /** Strip the first Point, then the first LineString, of one Placemark. */
  function StripAltitude(p: Element): Element {
    StripFirst(StripFirst(p, PointTag), LineStringTag)
  }

  /** The repairs in the order the output step applies them (src/extract.py:10-12). */
  function Repaired(p: Element): Element {
    MoveLineStringLast(PointToLineString(StripAltitude(p)))
  }

  // The traversal.

  /** Each Placemark among `cs` replaced by `fix` of it; the others stay. */
  function FixEach(cs: seq<Element>, fix: Element -> Element): seq<Element> {
    seq(|cs|, k requires 0 <= k < |cs| => if cs[k].tag == PlacemarkTag then fix(cs[k]) else cs[k])
  }

  /** Each Document among `cs` with its Placemarks fixed; the others stay. */
  function FixDocuments(cs: seq<Element>, fix: Element -> Element): seq<Element> {
    seq(|cs|, k requires 0 <= k < |cs| =>
      if cs[k].tag == DocumentTag then cs[k].(children := FixEach(cs[k].children, fix)) else cs[k])
  }

  /** `for Placemark in findall('ns:Document/ns:Placemark')`, applying `fix` to each. */
  function FixPlacemarks(root: Element, fix: Element -> Element): Element {
    root.(children := FixDocuments(root.children, fix))
  }

  /** The repair keeps the Placemark's tag, so the traversal still selects it. */
  ghost predicate KeepsPlacemarks(fix: Element -> Element) {
    forall p: Element :: p.tag == PlacemarkTag ==> fix(p).tag == PlacemarkTag
  }

  // Properties of MoveLineStringLast.

  /**
    Moving the LineString keeps the Placemark's fields and the multiset of its
    children. It keeps the order of every other kind of child, and it rotates
    the LineStrings: the first goes after the others, which is the last
    position. Without a LineString nothing changes.
  */
  lemma MoveLineStringLastSpec(p: Element, tag: string)
    requires tag != LineStringTag
    ensures MoveLineStringLast(p).(children := []) == p.(children := [])
    ensures multiset(MoveLineStringLast(p).children) == multiset(p.children)
    ensures Children(MoveLineStringLast(p).children, tag) == Children(p.children, tag)
    ensures Children(p.children, LineStringTag) == [] ==> MoveLineStringLast(p) == p
    ensures Children(p.children, LineStringTag) != [] ==>
      && Children(MoveLineStringLast(p).children, LineStringTag)
         == Children(p.children, LineStringTag)[1..] + [Children(p.children, LineStringTag)[0]]
      && MoveLineStringLast(p).children[|p.children| - 1] == Children(p.children, LineStringTag)[0]
    ensures FindFirst(p.children, LineStringTag).Some? ==>
      && |MoveLineStringLast(p).children| == |p.children|
      && (forall k :: 0 <= k < FindFirst(p.children, LineStringTag).value ==>
            MoveLineStringLast(p).children[k] == p.children[k])
      && (forall k :: FindFirst(p.children, LineStringTag).value <= k < |p.children| - 1 ==>
            MoveLineStringLast(p).children[k] == p.children[k + 1])
  {
    ChildrenFirst(p.children, LineStringTag);
    match FindFirst(p.children, LineStringTag)
    case None =>
    case Some(i) =>
      MoveToEndMultiset(p.children, i);
      MoveToEndOthers(p.children, i, tag);
      MoveToEndRotates(p.children, i, LineStringTag);
  }

  lemma MoveToEndMultiset(cs: seq<Element>, i: nat)
    requires i < |cs|
    ensures multiset(RemoveAt(cs, i) + [cs[i]]) == multiset(cs)
  {
    assert multiset(RemoveAt(cs, i) + [cs[i]]) == multiset(RemoveAt(cs, i)) + multiset{cs[i]};
  }

  lemma MoveToEndOthers(cs: seq<Element>, i: nat, tag: string)
    requires i < |cs| && cs[i].tag != tag
    ensures Children(RemoveAt(cs, i) + [cs[i]], tag) == Children(cs, tag)
  {
    ChildrenRemoveUntagged(cs, i, tag);
    ChildrenAppend(RemoveAt(cs, i), [cs[i]], tag);
  }

  lemma MoveToEndRotates(cs: seq<Element>, i: nat, tag: string)
    requires FindFirst(cs, tag) == Some(i)
    ensures Children(cs, tag) != []
    ensures Children(RemoveAt(cs, i) + [cs[i]], tag) == Children(cs, tag)[1..] + [Children(cs, tag)[0]]
  {
    ChildrenSplit(cs, i, tag);
    ChildrenOfUntagged(cs[..i], tag);
    ChildrenAppend(cs[..i], cs[i + 1..], tag);
    assert RemoveAt(cs, i) == cs[..i] + cs[i + 1..];
    ChildrenAppend(RemoveAt(cs, i), [cs[i]], tag);
  }

  /** Moving twice is moving once when there is at most one LineString. */
  lemma MoveLineStringLastIdempotent(p: Element)
    requires |Children(p.children, LineStringTag)| <= 1
    ensures MoveLineStringLast(MoveLineStringLast(p)) == MoveLineStringLast(p)
  {
    match FindFirst(p.children, LineStringTag)
    case None =>
    case Some(i) =>
      var cs := p.children;
      var rest := RemoveAt(cs, i);
      MoveToEndRotates(cs, i, LineStringTag);
      ChildrenAppend(rest, [cs[i]], LineStringTag);
      ChildrenFirst(rest, LineStringTag);
      FindFirstIs(rest + [cs[i]], LineStringTag, |cs| - 1);
      assert RemoveAt(rest + [cs[i]], |cs| - 1) == rest;
  }

  // Properties of PointToLineString.

  /**
    The conversion happens exactly when the Placemark has both a Point and a
    TimeSpan. It then turns the first Point into a LineString in place: one
    Point fewer, one LineString more, every other child as it was. The
    converted child keeps its fields and its number of children.
  */
  lemma PointToLineStringSpec(p: Element)
    ensures PointToLineString(p).(children := []) == p.(children := [])
    ensures |PointToLineString(p).children| == |p.children|
    ensures (Children(p.children, PointTag) == [] || Children(p.children, TimeSpanTag) == [])
      ==> PointToLineString(p) == p
    ensures Children(p.children, PointTag) != [] && Children(p.children, TimeSpanTag) != [] ==>
      && |Children(PointToLineString(p).children, PointTag)| == |Children(p.children, PointTag)| - 1
      && |Children(PointToLineString(p).children, LineStringTag)| == |Children(p.children, LineStringTag)| + 1
      && Children(PointToLineString(p).children, TimeSpanTag) == Children(p.children, TimeSpanTag)
    ensures FindFirst(p.children, PointTag).Some? && FindFirst(p.children, TimeSpanTag).Some? ==>
      var i := FindFirst(p.children, PointTag).value;
      && PointToLineString(p).children[i].tag == LineStringTag
      && PointToLineString(p).children[i].(tag := PointTag, children := []) == p.children[i].(children := [])
      && |PointToLineString(p).children[i].children| == |p.children[i].children|
      && forall k :: 0 <= k < |p.children| && k != i ==> PointToLineString(p).children[k] == p.children[k]
  {
    ChildrenFirst(p.children, PointTag);
    ChildrenFirst(p.children, TimeSpanTag);
    match FindFirst(p.children, PointTag)
    case None =>
    case Some(i) =>
      if FindFirst(p.children, TimeSpanTag).Some? {
        TagsDistinct();
        var cs := p.children;
        var g := DoubleCoordinates(cs[i].(tag := LineStringTag));
        var rs := cs[i := g];
        ChildrenSplitAround(cs, i, PointTag);
        ChildrenSplitAround(rs, i, PointTag);
        ChildrenSplitAround(cs, i, LineStringTag);
        ChildrenSplitAround(rs, i, LineStringTag);
        ChildrenUpdateUntagged(cs, i, g, TimeSpanTag);
        assert rs[..i] == cs[..i] && rs[i + 1..] == cs[i + 1..];
      }
  }

  /**
    The converted Point keeps its fields and children, except that its first
    coordinates child's text `c` becomes `c + " " + c`: the one position
    written twice, which makes a two-point path.
  */
  lemma PointToLineStringCoordinates(p: Element, i: nat, c: nat, t: string)
    requires FindFirst(p.children, PointTag) == Some(i)
    requires FindFirst(p.children, TimeSpanTag).Some?
    requires FindFirst(p.children[i].children, CoordinatesTag) == Some(c)
    requires p.children[i].children[c].text == Some(t)
    ensures PointToLineString(p).children[i].tag == LineStringTag
    ensures PointToLineString(p).children[i].(tag := PointTag, children := []) == p.children[i].(children := [])
    ensures |PointToLineString(p).children[i].children| == |p.children[i].children|
    ensures PointToLineString(p).children[i].children[c].text == Some(t + " " + t)
    ensures forall k :: 0 <= k < |p.children[i].children| && k != c ==>
      PointToLineString(p).children[i].children[k] == p.children[i].children[k]
  {
  }

  /** A converted Point without coordinates text is only retagged. */
  lemma PointWithoutCoordinatesIsRetagged(p: Element, i: nat)
    requires FindFirst(p.children, PointTag) == Some(i)
    requires FindFirst(p.children, TimeSpanTag).Some?
    requires FindFirst(p.children[i].children, CoordinatesTag).None?
      || p.children[i].children[FindFirst(p.children[i].children, CoordinatesTag).value].text.None?
    ensures PointToLineString(p).children[i] == p.children[i].(tag := LineStringTag)
  {
  }

  // Properties of StripAltitude.

  /**
    Stripping a geometry keeps its fields and the tags of its children, and
    changes at most the first coordinates child's text: when the whole text
    is a list of zero-altitude tuples, it becomes that list without the
    altitudes; otherwise the geometry is unchanged.
  */
  lemma StripCoordinatesSpec(g: Element)
    ensures StripCoordinates(g).(children := []) == g.(children := [])
    ensures SameTags(StripCoordinates(g).children, g.children)
    ensures FindFirst(g.children, CoordinatesTag).None? ==> StripCoordinates(g) == g
    ensures FindFirst(g.children, CoordinatesTag).Some? ==>
      var c := FindFirst(g.children, CoordinatesTag).value;
      && (forall k :: 0 <= k < |g.children| && k != c ==> StripCoordinates(g).children[k] == g.children[k])
      && StripCoordinates(g).children[c].(text := None) == g.children[c].(text := None)
      && (g.children[c].text.None? || !AltitudePattern.FullMatch(g.children[c].text.value)
          ==> StripCoordinates(g) == g)
  {
  }

  /** An accepted coordinate text loses every altitude and nothing else. */
  lemma StripCoordinatesText(g: Element, c: nat, t: string)
    requires FindFirst(g.children, CoordinatesTag) == Some(c)
    requires g.children[c].text == Some(t) && AltitudePattern.FullMatch(t)
    ensures exists ts ::
      && AltitudePattern.WellFormed(ts)
      && AltitudePattern.Render(ts) == t
      && StripCoordinates(g).children[c].text == Some(AltitudePattern.RenderStripped(ts))
  {
    AltitudePattern.SubstituteStripsEveryAltitude(t);
  }

  lemma StripFirstSpec(p: Element, tag: string)
    ensures StripFirst(p, tag).(children := []) == p.(children := [])
    ensures SameTags(StripFirst(p, tag).children, p.children)
    ensures forall k :: 0 <= k < |p.children| ==>
      StripFirst(p, tag).children[k]
        == if Some(k) == FindFirst(p.children, tag) then StripCoordinates(p.children[k]) else p.children[k]
  {
    match FindFirst(p.children, tag)
    case None =>
    case Some(i) =>
      StripCoordinatesSpec(p.children[i]);
  }

  /**
    Stripping a Placemark keeps its fields and the tags of its children, and
    touches only its first Point and its first LineString.
  */
  lemma StripAltitudeSpec(p: Element)
    ensures StripAltitude(p).(children := []) == p.(children := [])
    ensures SameTags(StripAltitude(p).children, p.children)
    ensures forall k :: 0 <= k < |p.children| ==>
      StripAltitude(p).children[k]
        == if Some(k) == FindFirst(p.children, PointTag) || Some(k) == FindFirst(p.children, LineStringTag)
           then StripCoordinates(p.children[k]) else p.children[k]
  {
    TagsDistinct();
    var p1 := StripFirst(p, PointTag);
    StripFirstSpec(p, PointTag);
    StripFirstSpec(p1, LineStringTag);
    SameTagsFind(p1.children, p.children, LineStringTag);
  }

  // The pipeline.

  /** The repairs keep the tag of whatever they are applied to. */
  lemma RepairsKeepTag(p: Element)
    ensures StripAltitude(p).tag == p.tag
    ensures PointToLineString(p).tag == p.tag
    ensures MoveLineStringLast(p).tag == p.tag
  {
  }

  lemma StripAltitudeFinds(p: Element, tag: string)
    ensures FindFirst(StripAltitude(p).children, tag) == FindFirst(p.children, tag)
  {
    StripAltitudeSpec(p);
    SameTagsFind(StripAltitude(p).children, p.children, tag);
  }

  /** Moving a LineString last puts it after the first TimeSpan. */
  lemma MovedAfterTimeSpan(q: Element, i: nat)
    requires FindFirst(q.children, LineStringTag) == Some(i)
    ensures |MoveLineStringLast(q).children| == |q.children|
    ensures MoveLineStringLast(q).children[|q.children| - 1].tag == LineStringTag
    ensures FindFirst(q.children, TimeSpanTag).Some? ==>
      FindFirst(MoveLineStringLast(q).children, TimeSpanTag).Some?
      && FindFirst(MoveLineStringLast(q).children, TimeSpanTag).value < |q.children| - 1
  {
    TagsDistinct();
    if FindFirst(q.children, TimeSpanTag).Some? {
      var j := FindFirst(q.children, TimeSpanTag).value;
      FindFirstRemoveOther(q.children, i, TimeSpanTag, j);
      FindFirstAppend(RemoveAt(q.children, i), [q.children[i]], TimeSpanTag, if j < i then j else j - 1);
    }
  }

  /** After the conversion there is a LineString, and the TimeSpans are where they were. */
  lemma ConvertedHasLineString(s: Element)
    requires FindFirst(s.children, LineStringTag).Some?
      || (FindFirst(s.children, PointTag).Some? && FindFirst(s.children, TimeSpanTag).Some?)
    ensures FindFirst(PointToLineString(s).children, LineStringTag).Some?
    ensures |PointToLineString(s).children| == |s.children|
    ensures FindFirst(PointToLineString(s).children, TimeSpanTag) == FindFirst(s.children, TimeSpanTag)
  {
    TagsDistinct();
    match FindFirst(s.children, PointTag)
    case None =>
    case Some(i) =>
      if FindFirst(s.children, TimeSpanTag).Some? {
        var q := PointToLineString(s);
        FindFirstUpdateOther(s.children, i, q.children[i], TimeSpanTag);
        assert q.children[i].tag == LineStringTag;
        assert FindFirst(q.children, LineStringTag).Some?;
      }
  }

  /**
    After the pipeline, a Placemark that had a LineString, or a Point with a
    TimeSpan, ends with a LineString, and its TimeSpan, if any, comes before
    it: the order the repair exists to produce.
  */
  lemma RepairedEndsWithLineString(p: Element)
    requires FindFirst(p.children, LineStringTag).Some?
      || (FindFirst(p.children, PointTag).Some? && FindFirst(p.children, TimeSpanTag).Some?)
    ensures |Repaired(p).children| == |p.children|
    ensures Repaired(p).children[|p.children| - 1].tag == LineStringTag
    ensures FindFirst(p.children, TimeSpanTag).Some? ==>
      FindFirst(Repaired(p).children, TimeSpanTag).Some?
      && FindFirst(Repaired(p).children, TimeSpanTag).value < |p.children| - 1
  {
    var s := StripAltitude(p);
    StripAltitudeFinds(p, LineStringTag);
    StripAltitudeFinds(p, PointTag);
    StripAltitudeFinds(p, TimeSpanTag);
    StripAltitudeSpec(p);
    ConvertedHasLineString(s);
    var q := PointToLineString(s);
    MovedAfterTimeSpan(q, FindFirst(q.children, LineStringTag).value);
  }

  // The traversal.

  /** `h` does on Placemarks what `g` after `f` does, and `f` keeps them Placemarks. */
  ghost predicate Composes(f: Element -> Element, g: Element -> Element, h: Element -> Element) {
    forall p: Element :: p.tag == PlacemarkTag ==> f(p).tag == PlacemarkTag && h(p) == g(f(p))
  }

  lemma FixEachTwice(cs: seq<Element>, f: Element -> Element, g: Element -> Element, h: Element -> Element)
    requires Composes(f, g, h)
    ensures FixEach(FixEach(cs, f), g) == FixEach(cs, h)
  {
  }

  /**
    Running one traversal after another is one traversal with the two repairs
    composed, provided the first keeps Placemarks Placemarks.
  */
  lemma FixPlacemarksTwice(root: Element, f: Element -> Element, g: Element -> Element, h: Element -> Element)
    requires Composes(f, g, h)
    ensures FixPlacemarks(FixPlacemarks(root, f), g) == FixPlacemarks(root, h)
  {
    var cs := root.children;
    forall k | 0 <= k < |cs| && cs[k].tag == DocumentTag
      ensures FixDocuments(FixDocuments(cs, f), g)[k] == FixDocuments(cs, h)[k]
    {
      FixEachTwice(cs[k].children, f, g, h);
    }
  }

  /** The repairs after the altitude strip. */
  function PointToLineStringAfterStrip(p: Element): Element {
    PointToLineString(StripAltitude(p))
  }

  lemma StripThenConvert()
    ensures Composes(StripAltitude, PointToLineString, PointToLineStringAfterStrip)
  {
    forall p: Element | p.tag == PlacemarkTag
      ensures StripAltitude(p).tag == PlacemarkTag
    {
      RepairsKeepTag(p);
    }
  }

  lemma ConvertThenMove()
    ensures Composes(PointToLineStringAfterStrip, MoveLineStringLast, Repaired)
  {
    forall p: Element | p.tag == PlacemarkTag
      ensures PointToLineStringAfterStrip(p).tag == PlacemarkTag
    {
      RepairsKeepTag(p);
      RepairsKeepTag(StripAltitude(p));
    }
  }

  /** The three output repairs, run one after another, repair every Placemark once. */
  lemma PipelineIsOneTraversal(root: Element)
    ensures FixPlacemarks(FixPlacemarks(FixPlacemarks(root, StripAltitude), PointToLineString), MoveLineStringLast)
      == FixPlacemarks(root, Repaired)
  {
    StripThenConvert();
    FixPlacemarksTwice(root, StripAltitude, PointToLineString, PointToLineStringAfterStrip);
    ConvertThenMove();
    FixPlacemarksTwice(root, PointToLineStringAfterStrip, MoveLineStringLast, Repaired);
  }

  lemma ChildrenFixEach(cs: seq<Element>, fix: Element -> Element)
    requires KeepsPlacemarks(fix)
    ensures |Children(FixEach(cs, fix), PlacemarkTag)| == |Children(cs, PlacemarkTag)|
    ensures forall k :: 0 <= k < |Children(cs, PlacemarkTag)| ==>
      Children(FixEach(cs, fix), PlacemarkTag)[k] == fix(Children(cs, PlacemarkTag)[k])
  {
    if cs != [] {
      assert FixEach(cs, fix) == [FixEach(cs, fix)[0]] + FixEach(cs[1..], fix);
      ChildrenAppend([FixEach(cs, fix)[0]], FixEach(cs[1..], fix), PlacemarkTag);
      ChildrenFixEach(cs[1..], fix);
    }
  }

  /**
    The traversal reaches the first Document: its Placemarks become `fix` of
    its Placemarks, in the same order, and its name is untouched.
  */
  lemma FixPlacemarksOfDocument(root: Element, fix: Element -> Element)
    requires KeepsPlacemarks(fix)
    requires Merging.HasDocument(root)
    ensures Merging.HasDocument(FixPlacemarks(root, fix))
    ensures |Merging.Placemarks(FixPlacemarks(root, fix))| == |Merging.Placemarks(root)|
    ensures forall k :: 0 <= k < |Merging.Placemarks(root)| ==>
      Merging.Placemarks(FixPlacemarks(root, fix))[k] == fix(Merging.Placemarks(root)[k])
    ensures Merging.Mergeable(root) ==>
      Merging.Mergeable(FixPlacemarks(root, fix))
      && Merging.NameText(FixPlacemarks(root, fix)) == Merging.NameText(root)
  {
    TagsDistinct();
    var r := FixPlacemarks(root, fix);
    assert SameTags(root.children, r.children);
    SameTagsFind(root.children, r.children, DocumentTag);
    var d := Merging.Document(root);
    assert Merging.Document(r) == d.(children := FixEach(d.children, fix));
    ChildrenFixEach(d.children, fix);
    assert SameTags(d.children, FixEach(d.children, fix));
    SameTagsFind(d.children, FixEach(d.children, fix), NameTag);
  }
}
