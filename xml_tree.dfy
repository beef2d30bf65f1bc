/** The parsed XML document both the loader and the graph viewer read: an
    element has a tag, its attributes, the character data directly inside it
    and its child elements in document order. */
module XmlTree {
  import opened Wrappers

  datatype Element = Element(tag: string, attrs: map<string, string>, text: string, children: seq<Element>)

  /** The attribute's value, or `None` when the element does not carry it
      (`(string?)e.Attribute(name)` in C#, `e.get(name)` in Python). */
  function Attr(e: Element, name: string): (r: Option<string>)
    ensures r.Some? <==> name in e.attrs
    ensures r.Some? ==> r.value == e.attrs[name]
  {
    if name in e.attrs then Some(e.attrs[name]) else None
  }

  /** The elements of `cs` whose tag is `tag`, in order. */
  function Tagged(cs: seq<Element>, tag: string): (r: seq<Element>)
    ensures |r| <= |cs|
    ensures forall k :: 0 <= k < |r| ==> r[k].tag == tag && r[k] in cs
    ensures forall c :: c in cs && c.tag == tag ==> c in r
  {
    if cs == [] then []
    else
      var last := cs[|cs| - 1];
      var r := Tagged(cs[..|cs| - 1], tag);
      assert forall c :: c in cs ==> c in cs[..|cs| - 1] || c == last;
      if last.tag == tag then r + [last] else r
  }

  /** A single element is kept exactly when its tag matches. */
  lemma TaggedSingle(c: Element, tag: string)
    ensures Tagged([c], tag) == if c.tag == tag then [c] else []
  {
    assert [c][..0] == [];
  }

  /** Filtering keeps order and multiplicity: the tagged elements of a
      concatenation are those of each half in turn. */
  lemma {:induction false} TaggedAppend(a: seq<Element>, b: seq<Element>, tag: string)
    ensures Tagged(a + b, tag) == Tagged(a, tag) + Tagged(b, tag)
  {
    if b != [] {
      var ab := a + b;
      assert ab[..|ab| - 1] == a + b[..|b| - 1];
      TaggedAppend(a, b[..|b| - 1], tag);
    } else {
      assert a + b == a;
    }
  }

  /** `XContainer.Elements(name)`: the child elements named `tag`. */
  function Elements(e: Element, tag: string): seq<Element>
  {
    Tagged(e.children, tag)
  }

  /** `XContainer.Element(name)`: the first child element named `tag`. */
  function FirstElement(e: Element, tag: string): (r: Option<Element>)
    ensures r.Some? <==> exists c :: c in e.children && c.tag == tag
    ensures r.Some? ==> r.value in e.children && r.value.tag == tag
    ensures r.Some? ==> exists i :: FirstTagged(e.children, tag, i) && e.children[i] == r.value
  {
    var i := FirstIndex(e.children, tag);
    if i.None? then None else Some(e.children[i.value])
  }

  /** `cs[i]` is the first element of `cs` with that tag. */
  predicate FirstTagged(cs: seq<Element>, tag: string, i: int)
  {
    0 <= i < |cs| && cs[i].tag == tag && forall j :: 0 <= j < i ==> cs[j].tag != tag
  }

  /** The position of the first element with that tag, if any. */
  function FirstIndex(cs: seq<Element>, tag: string): (r: Option<nat>)
    ensures r.Some? ==> FirstTagged(cs, tag, r.value)
    ensures r.None? ==> forall j :: 0 <= j < |cs| ==> cs[j].tag != tag
  {
    if cs == [] then None
    else if cs[0].tag == tag then Some(0)
    else
      var rest := FirstIndex(cs[1..], tag);
      if rest.Some? then Some(rest.value + 1) else None
  }

  /** Python's `e.iter()`: the element itself, then every descendant, in
      document (pre-)order. */
  function Iter(e: Element): (r: seq<Element>)
    ensures |r| >= 1 && r[0] == e
    decreases e, 1
  {
    [e] + IterAll(e.children)
  }

  function IterAll(cs: seq<Element>): seq<Element>
    decreases cs, 0
  {
    if cs == [] then [] else Iter(cs[0]) + IterAll(cs[1..])
  }

  /** Pre-order over a list of siblings: each sibling's whole subtree, one
      after the other. */
  lemma {:induction false} IterAllAppend(a: seq<Element>, b: seq<Element>)
    ensures IterAll(a + b) == IterAll(a) + IterAll(b)
  {
    if a == [] {
      assert a + b == b;
    } else {
      assert (a + b)[1..] == a[1..] + b;
      IterAllAppend(a[1..], b);
    }
  }

  /** Every element of a child's subtree is reached when iterating from
      the parent, after the parent itself. */
  lemma IterDescendants(e: Element, j: nat)
    requires j < |e.children|
    ensures forall d :: d in Iter(e.children[j]) ==> d in Iter(e)[1..]
  {
    var cs := e.children;
    assert cs == cs[..j] + [cs[j]] + cs[j + 1..];
    IterAllAppend(cs[..j] + [cs[j]], cs[j + 1..]);
    IterAllAppend(cs[..j], [cs[j]]);
    assert IterAll([cs[j]]) == Iter(cs[j]) + IterAll([]);
  }
}
