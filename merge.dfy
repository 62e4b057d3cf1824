/**
  Merging two location histories (`Merge` in src/LocationHistory.py), stated on
  values. The first Document of the first history absorbs the second: the two
  names are joined with a newline, a Placemark repeated at the seam is kept
  once, and the second Document's Placemarks follow in their order. The class
  method that performs the merge in place is `LocationHistory.KmlTree.Merge`.
*/
module Merging {
  import opened Wrappers
  import opened ElementTree
  import opened Kml

  /** `find('ns:Document')` on the root finds something. */
  predicate HasDocument(h: Element) {
    FindFirst(h.children, DocumentTag).Some?
  }

  /** The root's first Document child. */
  function Document(h: Element): Element
    requires HasDocument(h)
  {
    h.children[FindFirst(h.children, DocumentTag).value]
  }

  /** A history `Merge` accepts: a first Document whose first name child has text. */
  predicate Mergeable(h: Element) {
    && HasDocument(h)
    && FindFirst(Document(h).children, NameTag).Some?
    && Document(h).children[FindFirst(Document(h).children, NameTag).value].text.Some?
  }

  /** The text of the first Document's first name. */
  function NameText(h: Element): string
    requires Mergeable(h)
  {
    Document(h).children[FindFirst(Document(h).children, NameTag).value].text.value
  }

  /** `findall('ns:Placemark')` on the first Document. */
  function Placemarks(h: Element): seq<Element>
    requires HasDocument(h)
  {
    Children(Document(h).children, PlacemarkTag)
  }

  /**
    The seam condition, stated on the two Placemark selections: both are
    non-empty and the last of the first is the first of the second.
  */
  predicate Repeats(p1: seq<Element>, p2: seq<Element>) {
    |p1| > 0 && |p2| > 0 && p1[|p1| - 1] == p2[0]
  }

  /**
    The children `cs` of the first Document with the last Placemark taken out
    when it is structurally equal to the first Placemark among `others`.
  */
  function DropRepeated(cs: seq<Element>, others: seq<Element>): seq<Element> {
    match FindLast(cs, PlacemarkTag)
    case None => cs
    case Some(l) =>
      match FindFirst(others, PlacemarkTag)
      case None => cs
      case Some(f) => if ElementsAreEqual(cs[l], others[f]) then RemoveAt(cs, l) else cs
  }

  /** The first Document after the merge, its first name's text replaced by `name`. */
  function MergedDocument(doc1: Element, doc2: Element, name: string): Element
    requires FindFirst(doc1.children, NameTag).Some?
  {
    var n := FindFirst(doc1.children, NameTag).value;
    var named := doc1.children[n := doc1.children[n].(text := Some(name))];
    doc1.(children := DropRepeated(named, doc2.children) + Children(doc2.children, PlacemarkTag))
  }

  /**
    The first history after `Merge(h1, h2)`, or the exception it raises. The
    checks all come before the first change, so a failed merge changes nothing.
  */
  function Merged(h1: Element, h2: Element): (r: Result<Element, Error>)
    ensures r.Failure? <==> !(Mergeable(h1) && Mergeable(h2))
    ensures r.Failure? ==> r.error == Malformed
  {
    if Mergeable(h1) && Mergeable(h2) then
      var d := FindFirst(h1.children, DocumentTag).value;
      var doc := MergedDocument(Document(h1), Document(h2), NameText(h1) + "\n" + NameText(h2));
      Success(h1.(children := h1.children[d := doc]))
    else
      Failure(Malformed)
  }

  // The merged root keeps its first Document where it was.

  lemma MergedDocumentAt(h1: Element, h2: Element)
    requires Mergeable(h1) && Mergeable(h2)
    ensures HasDocument(Merged(h1, h2).value)
    ensures FindFirst(Merged(h1, h2).value.children, DocumentTag) == FindFirst(h1.children, DocumentTag)
    ensures Document(Merged(h1, h2).value)
      == MergedDocument(Document(h1), Document(h2), NameText(h1) + "\n" + NameText(h2))
  {
    var d := FindFirst(h1.children, DocumentTag).value;
    var doc := MergedDocument(Document(h1), Document(h2), NameText(h1) + "\n" + NameText(h2));
    assert SameTags(h1.children, h1.children[d := doc]);
    SameTagsFind(h1.children, h1.children[d := doc], DocumentTag);
  }

  /** Renaming the first name child leaves every tag in place. */
  lemma RenamedSameTags(cs: seq<Element>, n: nat, name: string)
    requires n < |cs|
    ensures SameTags(cs, cs[n := cs[n].(text := Some(name))])
  {
  }

  /** `DropRepeated` stated with `Repeats`, that is, with equality of values. */
  lemma DropRepeatedIs(cs: seq<Element>, others: seq<Element>)
    ensures Repeats(Children(cs, PlacemarkTag), Children(others, PlacemarkTag)) ==> FindLast(cs, PlacemarkTag).Some?
    ensures DropRepeated(cs, others)
      == if Repeats(Children(cs, PlacemarkTag), Children(others, PlacemarkTag))
         then RemoveAt(cs, FindLast(cs, PlacemarkTag).value)
         else cs
  {
    ChildrenRemoveLast(cs, PlacemarkTag);
    ChildrenFirst(others, PlacemarkTag);
    match FindLast(cs, PlacemarkTag)
    case None =>
    case Some(l) =>
      match FindFirst(others, PlacemarkTag)
      case None =>
      case Some(f) =>
        ElementsAreEqualIsEquality(cs[l], others[f]);
  }

  /** The name child is still found after the seam Placemark is dropped. */
  lemma DropRepeatedKeepsName(cs: seq<Element>, others: seq<Element>, n: nat)
    requires FindFirst(cs, NameTag) == Some(n)
    ensures FindFirst(DropRepeated(cs, others), NameTag).Some?
    ensures DropRepeated(cs, others)[FindFirst(DropRepeated(cs, others), NameTag).value] == cs[n]
  {
    DropRepeatedIs(cs, others);
    if Repeats(Children(cs, PlacemarkTag), Children(others, PlacemarkTag)) {
      TagsDistinct();
      FindFirstRemoveOther(cs, FindLast(cs, PlacemarkTag).value, NameTag, n);
    }
  }

  /**
    Merging joins the two names with a newline (src/LocationHistory.py:37-42)
    and the result can be merged again.
  */
  lemma MergedName(h1: Element, h2: Element)
    requires Mergeable(h1) && Mergeable(h2)
    ensures Merged(h1, h2).Success?
    ensures Mergeable(Merged(h1, h2).value)
    ensures NameText(Merged(h1, h2).value) == NameText(h1) + "\n" + NameText(h2)
  {
    MergedDocumentAt(h1, h2);
    var doc1, doc2 := Document(h1), Document(h2);
    var n := FindFirst(doc1.children, NameTag).value;
    var name := NameText(h1) + "\n" + NameText(h2);
    var named := doc1.children[n := doc1.children[n].(text := Some(name))];
    RenamedSameTags(doc1.children, n, name);
    SameTagsFind(doc1.children, named, NameTag);
    var kept := DropRepeated(named, doc2.children);
    DropRepeatedKeepsName(named, doc2.children, n);
    FindFirstAppend(kept, Children(doc2.children, PlacemarkTag), NameTag, FindFirst(kept, NameTag).value);
  }

  /** What `DropRepeated` does to the Placemark selection. */
  lemma DropRepeatedPlacemarks(cs: seq<Element>, others: seq<Element>)
    ensures Children(DropRepeated(cs, others), PlacemarkTag)
      == if Repeats(Children(cs, PlacemarkTag), Children(others, PlacemarkTag))
         then Children(cs, PlacemarkTag)[..|Children(cs, PlacemarkTag)| - 1]
         else Children(cs, PlacemarkTag)
  {
    ChildrenRemoveLast(cs, PlacemarkTag);
    ChildrenFirst(others, PlacemarkTag);
    match FindLast(cs, PlacemarkTag)
    case None =>
    case Some(l) =>
      match FindFirst(others, PlacemarkTag)
      case None =>
      case Some(f) =>
        ElementsAreEqualIsEquality(cs[l], others[f]);
  }

  /**
    The first Document's children after the merge, in full: its own children
    with the first name's text replaced by the joined names (everything else of
    that name child kept), the last Placemark taken out when it repeats the
    second Document's first, and then the second Document's Placemarks appended
    at the end (src/LocationHistory.py:37-52).
  */
  lemma MergedDocumentChildren(h1: Element, h2: Element)
    requires Mergeable(h1) && Mergeable(h2)
    ensures Merged(h1, h2).Success? && HasDocument(Merged(h1, h2).value)
    ensures Repeats(Placemarks(h1), Placemarks(h2)) ==> FindLast(Document(h1).children, PlacemarkTag).Some?
    ensures
      var cs := Document(h1).children;
      var n := FindFirst(cs, NameTag).value;
      var named := cs[n := cs[n].(text := Some(NameText(h1) + "\n" + NameText(h2)))];
      Document(Merged(h1, h2).value).children
        == (if Repeats(Placemarks(h1), Placemarks(h2))
            then RemoveAt(named, FindLast(cs, PlacemarkTag).value)
            else named)
           + Placemarks(h2)
  {
    MergedDocumentAt(h1, h2);
    TagsDistinct();
    var cs := Document(h1).children;
    var n := FindFirst(cs, NameTag).value;
    var named := cs[n := cs[n].(text := Some(NameText(h1) + "\n" + NameText(h2)))];
    RenamedSameTags(cs, n, NameText(h1) + "\n" + NameText(h2));
    SameTagsFind(cs, named, PlacemarkTag);
    ChildrenUpdateUntagged(cs, n, cs[n].(text := Some(NameText(h1) + "\n" + NameText(h2))), PlacemarkTag);
    ChildrenRemoveLast(cs, PlacemarkTag);
    DropRepeatedIs(named, Document(h2).children);
  }

  /** The merged first name child is the old one with only its text replaced. */
  lemma MergedNameChild(h1: Element, h2: Element)
    requires Mergeable(h1) && Mergeable(h2)
    ensures Merged(h1, h2).Success? && Mergeable(Merged(h1, h2).value)
    ensures
      var d := Document(Merged(h1, h2).value).children;
      var cs := Document(h1).children;
      d[FindFirst(d, NameTag).value]
        == cs[FindFirst(cs, NameTag).value].(text := Some(NameText(h1) + "\n" + NameText(h2)))
  {
    MergedName(h1, h2);
    MergedDocumentAt(h1, h2);
    var cs := Document(h1).children;
    var n := FindFirst(cs, NameTag).value;
    var named := cs[n := cs[n].(text := Some(NameText(h1) + "\n" + NameText(h2)))];
    RenamedSameTags(cs, n, NameText(h1) + "\n" + NameText(h2));
    SameTagsFind(cs, named, NameTag);
    DropRepeatedKeepsName(named, Document(h2).children, n);
    var kept := DropRepeated(named, Document(h2).children);
    FindFirstAppend(kept, Children(Document(h2).children, PlacemarkTag), NameTag, FindFirst(kept, NameTag).value);
  }

  /**
    After the merge the first Document's Placemarks are its own, less the last
    one when it repeats the second Document's first, followed by all of the
    second Document's Placemarks in order (src/LocationHistory.py:44-52).
  */
  lemma MergedPlacemarks(h1: Element, h2: Element)
    requires Mergeable(h1) && Mergeable(h2)
    ensures Merged(h1, h2).Success? && HasDocument(Merged(h1, h2).value)
    ensures Placemarks(Merged(h1, h2).value)
      == (if Repeats(Placemarks(h1), Placemarks(h2))
          then Placemarks(h1)[..|Placemarks(h1)| - 1]
          else Placemarks(h1)) + Placemarks(h2)
  {
    MergedDocumentAt(h1, h2);
    TagsDistinct();
    var doc1, doc2 := Document(h1), Document(h2);
    var n := FindFirst(doc1.children, NameTag).value;
    var name := NameText(h1) + "\n" + NameText(h2);
    var named := doc1.children[n := doc1.children[n].(text := Some(name))];
    ChildrenUpdateUntagged(doc1.children, n, doc1.children[n].(text := Some(name)), PlacemarkTag);
    DropRepeatedPlacemarks(named, doc2.children);
    var p2 := Children(doc2.children, PlacemarkTag);
    ChildrenAppend(DropRepeated(named, doc2.children), p2, PlacemarkTag);
    ChildrenOfTagged(p2, PlacemarkTag);
  }

  /** The number of Placemarks after a merge: one fewer than both together exactly when they repeat. */
  lemma MergedPlacemarkCount(h1: Element, h2: Element)
    requires Mergeable(h1) && Mergeable(h2)
    ensures Merged(h1, h2).Success? && HasDocument(Merged(h1, h2).value)
    ensures |Placemarks(Merged(h1, h2).value)|
      == |Placemarks(h1)| + |Placemarks(h2)| - (if Repeats(Placemarks(h1), Placemarks(h2)) then 1 else 0)
  {
    MergedPlacemarks(h1, h2);
  }

  /**
    Everything else stays: the root keeps its other children and fields, the
    first Document keeps its own fields, and the children it selects by any
    tag other than name and Placemark are the same, in the same order.
  */
  lemma MergedKeepsTheRest(h1: Element, h2: Element, tag: string)
    requires Mergeable(h1) && Mergeable(h2)
    requires tag != NameTag && tag != PlacemarkTag
    ensures Merged(h1, h2).Success? && HasDocument(Merged(h1, h2).value)
    ensures Merged(h1, h2).value.(children := []) == h1.(children := [])
    ensures |Merged(h1, h2).value.children| == |h1.children|
    ensures forall k :: 0 <= k < |h1.children| && k != FindFirst(h1.children, DocumentTag).value ==>
      Merged(h1, h2).value.children[k] == h1.children[k]
    ensures Document(Merged(h1, h2).value).(children := []) == Document(h1).(children := [])
    ensures Children(Document(Merged(h1, h2).value).children, tag) == Children(Document(h1).children, tag)
  {
    MergedDocumentAt(h1, h2);
    TagsDistinct();
    var doc1, doc2 := Document(h1), Document(h2);
    var n := FindFirst(doc1.children, NameTag).value;
    var name := NameText(h1) + "\n" + NameText(h2);
    var named := doc1.children[n := doc1.children[n].(text := Some(name))];
    ChildrenUpdateUntagged(doc1.children, n, doc1.children[n].(text := Some(name)), tag);
    DropRepeatedKeepsOthers(named, doc2.children, tag);
    var p2 := Children(doc2.children, PlacemarkTag);
    ChildrenAppend(DropRepeated(named, doc2.children), p2, tag);
    ChildrenOfUntagged(p2, tag);
  }

  lemma DropRepeatedKeepsOthers(cs: seq<Element>, others: seq<Element>, tag: string)
    requires tag != PlacemarkTag
    ensures Children(DropRepeated(cs, others), tag) == Children(cs, tag)
  {
    match FindLast(cs, PlacemarkTag)
    case None =>
    case Some(l) =>
      match FindFirst(others, PlacemarkTag)
      case None =>
      case Some(f) =>
        if ElementsAreEqual(cs[l], others[f]) {
          ChildrenRemoveUntagged(cs, l, tag);
        }
  }
}
