/**
 * An already-parsed XML document: each element has a tag, an attribute map and its
 * child elements in document order. File reading and XML parsing are not modelled.
 */
module Xml {

  import opened Wrappers
  import opened Text

  datatype Element = Element(tag: string, attributes: map<string, string>, children: seq<Element>)

  /** `element.get(name, "").strip()`: a missing attribute reads as the empty string. */
  function Attribute(e: Element, name: string): (r: string)
    ensures name !in e.attributes ==> r == ""
    ensures name in e.attributes ==> r == Strip(e.attributes[name])
  {
    Strip(if name in e.attributes then e.attributes[name] else "")
  }

  /** The elements of `es` with tag `tag`, in order. */
  function WithTag(es: seq<Element>, tag: string): (r: seq<Element>)
    ensures |r| <= |es|
    ensures forall x :: x in r <==> x in es && x.tag == tag
  {
    if es == [] then []
    else WithTag(es[..|es| - 1], tag) + (if es[|es| - 1].tag == tag then [es[|es| - 1]] else [])
  }

  /** Filtering works element by element, so it keeps document order. */
  lemma {:induction false} WithTagConcat(xs: seq<Element>, ys: seq<Element>, tag: string)
    ensures WithTag(xs + ys, tag) == WithTag(xs, tag) + WithTag(ys, tag)
  {
    if ys != [] {
      var ys' := ys[..|ys| - 1];
      assert (xs + ys)[..|xs + ys| - 1] == xs + ys';
      WithTagConcat(xs, ys', tag);
    } else {
      assert xs + ys == xs;
    }
  }

  /** One element is kept exactly when it carries the tag. */
  lemma WithTagSingle(x: Element, tag: string)
    ensures WithTag([x], tag) == if x.tag == tag then [x] else []
  {
    assert [x][..0] == [];
  }

  /** The first element kept is the earliest element carrying the tag. */
  lemma {:induction false} WithTagFirst(es: seq<Element>, tag: string)
    requires WithTag(es, tag) != []
    ensures exists i :: 0 <= i < |es| && es[i] == WithTag(es, tag)[0] && forall j :: 0 <= j < i ==> es[j].tag != tag
  {
    var prefix := es[..|es| - 1];
    if WithTag(prefix, tag) != [] {
      WithTagFirst(prefix, tag);
      var i :| 0 <= i < |prefix| && prefix[i] == WithTag(prefix, tag)[0] && forall j :: 0 <= j < i ==> prefix[j].tag != tag;
      assert es[i] == prefix[i];
      assert forall j :: 0 <= j < i ==> es[j] == prefix[j];
    } else {
      var i := |es| - 1;
      forall j | 0 <= j < i ensures es[j].tag != tag {
        assert es[j] == prefix[j] && prefix[j] in prefix;
      }
    }
  }

  /** `element.findall(tag)`: the direct children with that tag, in document order. */
  function FindAll(e: Element, tag: string): (r: seq<Element>)
    ensures |r| <= |e.children|
    ensures forall x :: x in r <==> x in e.children && x.tag == tag
  {
    WithTag(e.children, tag)
  }

  /** `element.find(tag)`: the first direct child with that tag, or None. */
  function Find(e: Element, tag: string): (r: Option<Element>)
    ensures r.None? <==> forall x :: x in e.children ==> x.tag != tag
    ensures r.Some? ==> r.value.tag == tag && r.value in e.children
    ensures r.Some? ==> FindAll(e, tag) != [] && r.value == FindAll(e, tag)[0]
  {
    var found := FindAll(e, tag);
    if found == [] then None
    else
      assert found[0] in found;
      Some(found[0])
  }

  /** `find` returns the earliest child carrying the tag: every child before it has another tag. */
  lemma FindFirst(e: Element, tag: string)
    requires Find(e, tag).Some?
    ensures exists i :: 0 <= i < |e.children| && e.children[i] == Find(e, tag).value
                        && forall j :: 0 <= j < i ==> e.children[j].tag != tag
  {
    WithTagFirst(e.children, tag);
  }
}
