/** An already-parsed XML document, standing in for `xml.etree.ElementTree` elements: a tag in
    Clark notation (`{namespace}local` or plain `local`), an attribute map and ordered children. */
module ElementTree {
  import opened Wrappers

  datatype Element = Element(tag: string, attrs: map<string, string>, children: seq<Element>)

  /** Every element of the forest `cs`, each followed by its own descendants: document order. */
  function Flatten(cs: seq<Element>): (r: seq<Element>)
    ensures |r| >= |cs|
    ensures forall c :: c in cs ==> c in r
    decreases cs
  {
    if cs == [] then [] else [cs[0]] + Flatten(cs[0].children) + Flatten(cs[1..])
  }

  /** An element of a flattened forest is a tree of the forest or lies below one of them. */
  lemma {:induction false} FlattenMembers(cs: seq<Element>)
    ensures forall x :: x in Flatten(cs) <==> exists c :: c in cs && (x == c || x in Flatten(c.children))
    decreases cs
  {
    if cs != [] {
      FlattenMembers(cs[1..]);
      assert forall c :: c in cs <==> c == cs[0] || c in cs[1..];
    }
  }

  /** Flattening distributes over putting two forests side by side. */
  lemma {:induction false} FlattenAppend(a: seq<Element>, b: seq<Element>)
    ensures Flatten(a + b) == Flatten(a) + Flatten(b)
    decreases a
  {
    if a == [] {
      assert a + b == b;
    } else {
      assert (a + b)[0] == a[0];
      assert (a + b)[1..] == a[1..] + b;
      FlattenAppend(a[1..], b);
      calc {
        Flatten(a + b);
        [a[0]] + Flatten(a[0].children) + Flatten(a[1..] + b);
        [a[0]] + Flatten(a[0].children) + (Flatten(a[1..]) + Flatten(b));
        ([a[0]] + Flatten(a[0].children) + Flatten(a[1..])) + Flatten(b);
      }
    }
  }

  /** What an ElementPath descendant-or-any step selects below `e`: every child of `e` and
      everything below a child, in document order. */
  function Descendants(e: Element): (r: seq<Element>)
    ensures forall c :: c in e.children ==> c in r
  {
    Flatten(e.children)
  }

  /** An element is below `e` exactly when it is a child of `e` or lies below one of its children. */
  lemma {:induction false} DescendantsMembers(e: Element)
    ensures forall d :: d in Descendants(e) <==> d in e.children || exists c :: c in e.children && d in Descendants(c)
  {
    FlattenMembers(e.children);
  }

  /** Document order: before child `k` come the subtrees of the earlier children, and after
      it come its own descendants, then the subtrees of the later children. */
  lemma DescendantsInDocumentOrder(e: Element, k: int)
    requires 0 <= k < |e.children|
    ensures Descendants(e) == Flatten(e.children[..k]) + [e.children[k]] + Descendants(e.children[k]) + Flatten(e.children[k + 1..])
  {
    var cs := e.children;
    var rest := cs[k..];
    assert cs == cs[..k] + rest;
    FlattenAppend(cs[..k], rest);
    assert rest[0] == cs[k] && rest[1..] == cs[k + 1..];
    assert Flatten(rest) == [cs[k]] + Flatten(cs[k].children) + Flatten(cs[k + 1..]);
  }

  /** Everything below `e` is strictly smaller than `e`, so `e` is never among its own descendants. */
  lemma DescendantsBelow(e: Element)
    ensures forall d :: d in Descendants(e) ==> (e decreases to d)
    ensures e !in Descendants(e)
    decreases e
  {
    DescendantsMembers(e);
    forall d | d in Descendants(e)
      ensures e decreases to d
    {
      if d !in e.children {
        var c :| c in e.children && d in Descendants(c);
        DescendantsBelow(c);
      }
    }
  }

  /** The position of the first element of `els` whose tag is `tag`, if any. */
  function FirstWithTag(els: seq<Element>, tag: string): (r: Option<nat>)
    ensures r.Some? ==> r.value < |els| && els[r.value].tag == tag
    ensures r.Some? ==> forall j :: 0 <= j < r.value ==> els[j].tag != tag
    ensures r.None? <==> forall j :: 0 <= j < |els| ==> els[j].tag != tag
    decreases |els|
  {
    if els == [] then None
    else if els[0].tag == tag then Some(0)
    else
      match FirstWithTag(els[1..], tag) {
        case None => None
        case Some(k) => Some(k + 1)
      }
  }

  /** `e.find(".//" + tag)`: the first descendant of `e` in document order with that tag. */
  function FindDescendant(e: Element, tag: string): (r: Option<Element>)
    ensures r.Some? ==> r.value.tag == tag && r.value in Descendants(e)
    ensures r.Some? ==> exists k :: 0 <= k < |Descendants(e)| && Descendants(e)[k] == r.value
                          && forall j :: 0 <= j < k ==> Descendants(e)[j].tag != tag
    ensures r.None? <==> forall d :: d in Descendants(e) ==> d.tag != tag
  {
    var d := Descendants(e);
    match FirstWithTag(d, tag) {
      case None => None
      case Some(k) => Some(d[k])
    }
  }
}
