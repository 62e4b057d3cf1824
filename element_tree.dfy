/**
  An owned XML tree in the shape of Python's ElementTree elements: a tag, optional
  text and tail, an attribute map and an ordered sequence of children. Tags carry
  their namespace in Clark notation (`{uri}local`), as ElementTree stores them.
  Path queries are modelled only as far as the location-history code uses them:
  `find(t)` is the first child tagged `t`, `findall(t)` the children tagged `t`
  in order, and `t[last()]` the last child tagged `t`.
*/
module ElementTree {
  import opened Wrappers

  datatype Element = Element(
    tag: string,
    text: Option<string>,
    tail: Option<string>,
    attrib: map<string, string>,
    children: seq<Element>)

  /** `find(tag)`: index of the first child with the given tag. */
  function FindFirst(cs: seq<Element>, tag: string): (r: Option<nat>)
    ensures r.Some? ==> r.value < |cs| && cs[r.value].tag == tag
    ensures r.Some? ==> forall k :: 0 <= k < r.value ==> cs[k].tag != tag
    ensures r.None? <==> forall k :: 0 <= k < |cs| ==> cs[k].tag != tag
  {
    if cs == [] then None
    else if cs[0].tag == tag then Some(0)
    else match FindFirst(cs[1..], tag)
      case None => None
      case Some(i) => Some(i + 1)
  }

  /** `find(tag + '[last()]')`: index of the last child with the given tag. */
  function FindLast(cs: seq<Element>, tag: string): (r: Option<nat>)
    ensures r.Some? ==> r.value < |cs| && cs[r.value].tag == tag
    ensures r.Some? ==> forall k :: r.value < k < |cs| ==> cs[k].tag != tag
    ensures r.None? <==> forall k :: 0 <= k < |cs| ==> cs[k].tag != tag
  {
    if cs == [] then None
    else if cs[|cs| - 1].tag == tag then Some(|cs| - 1)
    else FindLast(cs[..|cs| - 1], tag)
  }

  /** `findall(tag)`: the children with the given tag, in document order. */
  function Children(cs: seq<Element>, tag: string): (r: seq<Element>)
    ensures |r| <= |cs|
    ensures forall k :: 0 <= k < |r| ==> r[k].tag == tag
    ensures forall e :: e in r ==> e in cs
  {
    if cs == [] then []
    else (if cs[0].tag == tag then [cs[0]] else []) + Children(cs[1..], tag)
  }

  /** The children with `cs[i]` taken out, the others in their order. */
  function RemoveAt(cs: seq<Element>, i: nat): (r: seq<Element>)
    requires i < |cs|
    ensures |r| == |cs| - 1
    ensures forall k :: 0 <= k < i ==> r[k] == cs[k]
    ensures forall k :: i <= k < |r| ==> r[k] == cs[k + 1]
    ensures multiset(r) + multiset{cs[i]} == multiset(cs)
  {
    assert cs == cs[..i] + [cs[i]] + cs[i + 1..];
    cs[..i] + cs[i + 1..]
  }

  /**
    Structural equality of two elements: same tag, text, tail and attributes,
    the same number of children, and pairwise equal children in order.
  */
  function ElementsAreEqual(a: Element, b: Element): bool
    decreases a
  {
    && a.tag == b.tag
    && a.text == b.text
    && a.tail == b.tail
    && a.attrib == b.attrib
    && |a.children| == |b.children|
    && forall i :: 0 <= i < |a.children| ==> ElementsAreEqual(a.children[i], b.children[i])
  }

  lemma {:induction false} ElementsAreEqualReflexive(a: Element)
    ensures ElementsAreEqual(a, a)
    decreases a
  {
    forall i | 0 <= i < |a.children|
      ensures ElementsAreEqual(a.children[i], a.children[i])
    {
      ElementsAreEqualReflexive(a.children[i]);
    }
  }

  lemma {:induction false} ElementsAreEqualIdentical(a: Element, b: Element)
    requires ElementsAreEqual(a, b)
    ensures a == b
    decreases a
  {
    forall i | 0 <= i < |a.children|
      ensures a.children[i] == b.children[i]
    {
      ElementsAreEqualIdentical(a.children[i], b.children[i]);
    }
    assert a.children == b.children;
  }

  /** On owned trees, structural equality is exactly equality of values. */
  lemma ElementsAreEqualIsEquality(a: Element, b: Element)
    ensures ElementsAreEqual(a, b) <==> a == b
  {
    ElementsAreEqualReflexive(a);
    if ElementsAreEqual(a, b) {
      ElementsAreEqualIdentical(a, b);
    }
  }

  /** Children are compared by position: swapping two different children breaks equality. */
  lemma SwappedChildrenAreNotEqual(a: Element, i: nat, j: nat)
    requires i < |a.children| && j < |a.children|
    requires a.children[i] != a.children[j]
    ensures !ElementsAreEqual(a, a.(children := a.children[i := a.children[j]][j := a.children[i]]))
  {
    var b := a.(children := a.children[i := a.children[j]][j := a.children[i]]);
    assert b.children[i] == a.children[j];
    ElementsAreEqualIsEquality(a, b);
  }

  // Lemmas about `Children`, used to follow Placemarks through a merge.

  lemma {:induction false} ChildrenAppend(a: seq<Element>, b: seq<Element>, tag: string)
    ensures Children(a + b, tag) == Children(a, tag) + Children(b, tag)
  {
    if a == [] {
      assert a + b == b;
    } else {
      assert (a + b)[0] == a[0];
      assert (a + b)[1..] == a[1..] + b;
      ChildrenAppend(a[1..], b, tag);
    }
  }

  lemma {:induction false} ChildrenOfTagged(cs: seq<Element>, tag: string)
    requires forall k :: 0 <= k < |cs| ==> cs[k].tag == tag
    ensures Children(cs, tag) == cs
  {
    if cs != [] {
      ChildrenOfTagged(cs[1..], tag);
    }
  }

  lemma {:induction false} ChildrenOfUntagged(cs: seq<Element>, tag: string)
    requires forall k :: 0 <= k < |cs| ==> cs[k].tag != tag
    ensures Children(cs, tag) == []
  {
    if cs != [] {
      ChildrenOfUntagged(cs[1..], tag);
    }
  }

  /** Replacing a child that is not selected by one that is not selected changes no selection. */
  lemma ChildrenUpdateUntagged(cs: seq<Element>, i: nat, e: Element, tag: string)
    requires i < |cs| && cs[i].tag != tag && e.tag != tag
    ensures Children(cs[i := e], tag) == Children(cs, tag)
  {
    assert cs == cs[..i] + [cs[i]] + cs[i + 1..];
    assert cs[i := e] == cs[..i] + [e] + cs[i + 1..];
    ChildrenAppend(cs[..i] + [cs[i]], cs[i + 1..], tag);
    ChildrenAppend(cs[..i], [cs[i]], tag);
    ChildrenAppend(cs[..i] + [e], cs[i + 1..], tag);
    ChildrenAppend(cs[..i], [e], tag);
  }

  /** Splitting the selection at a selected child. */
  lemma ChildrenSplit(cs: seq<Element>, i: nat, tag: string)
    requires i < |cs| && cs[i].tag == tag
    ensures Children(cs, tag) == Children(cs[..i], tag) + [cs[i]] + Children(cs[i + 1..], tag)
  {
    assert cs == cs[..i] + [cs[i]] + cs[i + 1..];
    ChildrenAppend(cs[..i] + [cs[i]], cs[i + 1..], tag);
    ChildrenAppend(cs[..i], [cs[i]], tag);
  }

  /** The first selected child heads the selection; no selected child means none selected. */
  lemma ChildrenFirst(cs: seq<Element>, tag: string)
    ensures FindFirst(cs, tag).None? <==> Children(cs, tag) == []
    ensures FindFirst(cs, tag).Some? ==> Children(cs, tag)[0] == cs[FindFirst(cs, tag).value]
  {
    match FindFirst(cs, tag)
    case None =>
      ChildrenOfUntagged(cs, tag);
    case Some(i) =>
      ChildrenSplit(cs, i, tag);
      ChildrenOfUntagged(cs[..i], tag);
  }

  /**
    The last selected child ends the selection, and removing it removes exactly
    the last element of the selection.
  */
  lemma ChildrenRemoveLast(cs: seq<Element>, tag: string)
    ensures FindLast(cs, tag).None? <==> Children(cs, tag) == []
    ensures FindLast(cs, tag).Some? ==>
      var i := FindLast(cs, tag).value;
      var sel := Children(cs, tag);
      |sel| > 0 && sel[|sel| - 1] == cs[i] && Children(RemoveAt(cs, i), tag) == sel[..|sel| - 1]
  {
    match FindLast(cs, tag)
    case None =>
      ChildrenOfUntagged(cs, tag);
    case Some(i) =>
      ChildrenSplit(cs, i, tag);
      ChildrenOfUntagged(cs[i + 1..], tag);
      ChildrenAppend(cs[..i], cs[i + 1..], tag);
      var sel := Children(cs, tag);
      assert sel == Children(cs[..i], tag) + [cs[i]];
      assert sel[..|sel| - 1] == Children(cs[..i], tag);
  }

  /** Two child sequences that carry the same tags position by position. */
  predicate SameTags(a: seq<Element>, b: seq<Element>) {
    |a| == |b| && forall k :: 0 <= k < |a| ==> a[k].tag == b[k].tag
  }

  /** Path queries look only at tags, so they agree on sequences with the same tags. */
  lemma {:induction false} SameTagsFind(a: seq<Element>, b: seq<Element>, tag: string)
    requires SameTags(a, b)
    ensures FindFirst(a, tag) == FindFirst(b, tag)
    ensures FindLast(a, tag) == FindLast(b, tag)
  {
    if a != [] {
      SameTagsFind(a[1..], b[1..], tag);
      SameTagsFind(a[..|a| - 1], b[..|b| - 1], tag);
    }
  }

  /** Taking out a child with another tag shifts the first match left when it came later. */
  lemma FindFirstRemoveOther(cs: seq<Element>, l: nat, tag: string, i: nat)
    requires l < |cs| && cs[l].tag != tag
    requires FindFirst(cs, tag) == Some(i)
    ensures FindFirst(RemoveAt(cs, l), tag) == Some(if i < l then i else i - 1)
    ensures RemoveAt(cs, l)[if i < l then i else i - 1] == cs[i]
  {
    var r := RemoveAt(cs, l);
    var j := if i < l then i else i - 1;
    assert r[j] == cs[i];
    forall k | 0 <= k < j ensures r[k].tag != tag {
      assert r[k] == cs[if k < l then k else k + 1];
    }
    FindFirstIs(r, tag, j);
  }

  /** The first match is determined by its two defining properties. */
  lemma FindFirstIs(cs: seq<Element>, tag: string, i: nat)
    requires i < |cs| && cs[i].tag == tag
    requires forall k :: 0 <= k < i ==> cs[k].tag != tag
    ensures FindFirst(cs, tag) == Some(i)
  {
  }

  /** Replacing a child that does not match by another that does not leaves the first match in place. */
  lemma FindFirstUpdateOther(cs: seq<Element>, i: nat, e: Element, tag: string)
    requires i < |cs| && cs[i].tag != tag && e.tag != tag
    ensures FindFirst(cs[i := e], tag) == FindFirst(cs, tag)
  {
    match FindFirst(cs, tag)
    case None =>
      var r := cs[i := e];
      assert forall k :: 0 <= k < |r| ==> r[k].tag != tag;
    case Some(j) =>
      FindFirstIs(cs[i := e], tag, j);
  }

  /** Appending children does not move the first match of a prefix that has one. */
  lemma FindFirstAppend(a: seq<Element>, b: seq<Element>, tag: string, i: nat)
    requires FindFirst(a, tag) == Some(i)
    ensures FindFirst(a + b, tag) == Some(i)
  {
    assert (a + b)[i] == a[i];
    assert forall k :: 0 <= k < i ==> (a + b)[k] == a[k];
  }

  /** Taking out a child that is not selected changes no selection. */
  lemma ChildrenRemoveUntagged(cs: seq<Element>, l: nat, tag: string)
    requires l < |cs| && cs[l].tag != tag
    ensures Children(RemoveAt(cs, l), tag) == Children(cs, tag)
  {
    ChildrenSplitAround(cs, l, tag);
    ChildrenAppend(cs[..l], cs[l + 1..], tag);
  }

  lemma ChildrenSplitAround(cs: seq<Element>, l: nat, tag: string)
    requires l < |cs|
    ensures Children(cs, tag) == Children(cs[..l], tag) + Children([cs[l]], tag) + Children(cs[l + 1..], tag)
  {
    assert cs == cs[..l] + [cs[l]] + cs[l + 1..];
    ChildrenAppend(cs[..l] + [cs[l]], cs[l + 1..], tag);
    ChildrenAppend(cs[..l], [cs[l]], tag);
  }
}
