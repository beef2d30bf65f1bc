/** The story-graph extractor of the quick-view helper: it walks any XML
    document, takes every element that carries an id-like attribute as a
    graph node (first occurrence wins), and derives directed, labelled edges
    from target attributes, inline goto text, option-like children and
    "default next" rules. */
module XmlView {
  import opened Wrappers
  import opened Text
  import opened XmlTree

  const IdAttrs: seq<string> := ["id", "Id", "ID", "name", "Name"]
  const LabelAttrs: seq<string> := ["label", "text", "title", "name"]
  const TargetAttrs: seq<string> := ["target", "to", "goto", "next", "ref", "idref", "targetId"]
  const ChildTagTargets: seq<string> := ["choice", "option", "link", "goto", "jump", "action"]
  /** `label_for`'s default `maxlen`. */
  const DefaultMaxLen: nat := 60

  /** `elem.get(a)` is truthy: the attribute is present and non-empty. */
  predicate Truthy(e: Element, a: string)
  {
    a in e.attrs && e.attrs[a] != ""
  }

  /** The position in `names` of the first truthy attribute. */
  function FirstTruthy(e: Element, names: seq<string>): (r: Option<nat>)
    ensures r.None? <==> forall i :: 0 <= i < |names| ==> !Truthy(e, names[i])
    ensures r.Some? ==> (r.value < |names| && Truthy(e, names[r.value]) &&
      forall j :: 0 <= j < r.value ==> !Truthy(e, names[j]))
  {
    if names == [] then None
    else if Truthy(e, names[0]) then Some(0)
    else
      var r := FirstTruthy(e, names[1..]);
      assert forall i :: 1 <= i < |names| ==> names[i] == names[1..][i - 1];
      if r.Some? then Some(r.value + 1) else None
  }

  /** `find_id`: the first truthy attribute among `id, Id, ID, name, Name`,
      stripped of surrounding whitespace (which can leave it empty), or
      nothing when none is truthy. */
  function FindId(e: Element): (r: Option<string>)
    ensures var i := FirstTruthy(e, IdAttrs);
      && (r.None? <==> i.None?)
      && (r.Some? ==> r.value == Strip(e.attrs[IdAttrs[i.value]]))
  {
    var i := FirstTruthy(e, IdAttrs);
    if i.None? then None else Some(Strip(e.attrs[IdAttrs[i.value]]))
  }

  /** `s[:maxlen] + "..."` when `s` is longer than `maxlen`, else `s`. */
  function Clip(s: string, maxlen: nat): (r: string)
    ensures |r| <= maxlen + 3
    ensures |s| <= maxlen ==> r == s
    ensures |s| > maxlen ==> |r| == maxlen + 3 && r[..maxlen] == s[..maxlen] && r[maxlen..] == "..."
    ensures forall c :: c in r ==> c in s || c == '.'
  {
    if |s| > maxlen then s[..maxlen] + "..." else s
  }

  /** `s.replace("\n", " ")`. */
  function NewlinesToSpaces(s: string): (r: string)
    ensures |r| == |s| && '\n' !in r
    ensures forall i :: 0 <= i < |s| && s[i] != '\n' ==> r[i] == s[i]
    ensures forall i :: 0 <= i < |s| && s[i] == '\n' ==> r[i] == ' '
  {
    seq(|s|, i requires 0 <= i < |s| => if s[i] == '\n' then ' ' else s[i])
  }

  /** `label_for`: the first truthy label attribute, else the element's
      text with newlines as spaces, each stripped and clipped to `maxlen`
      characters plus an ellipsis; with neither, the fallback when it is
      non-empty, else the tag. */
  function LabelFor(e: Element, fallback: Option<string>, maxlen: nat): (r: string)
    ensures FirstTruthy(e, LabelAttrs).Some? || Strip(e.text) != "" ==> |r| <= maxlen + 3
    ensures FirstTruthy(e, LabelAttrs).Some? ==>
      r == Clip(Strip(e.attrs[LabelAttrs[FirstTruthy(e, LabelAttrs).value]]), maxlen)
    ensures FirstTruthy(e, LabelAttrs).None? && Strip(e.text) != "" ==> '\n' !in r
    ensures FirstTruthy(e, LabelAttrs).None? && Strip(e.text) == "" ==>
      r == (if fallback.Some? && fallback.value != "" then fallback.value else e.tag)
  {
    var i := FirstTruthy(e, LabelAttrs);
    if i.Some? then Clip(Strip(e.attrs[LabelAttrs[i.value]]), maxlen)
    else
      var text := Strip(e.text);
      if text != "" then
        var s := Strip(NewlinesToSpaces(text));
        TrimKeepsChars(NewlinesToSpaces(text), IsPyWhiteSpace);
        Clip(s, maxlen)
      else if fallback.Some? && fallback.value != "" then fallback.value
      else e.tag
  }

  /** One entry of the ordered node table. */
  datatype GraphNode = GraphNode(id: string, labelText: string, tag: string, elem: Element, order: nat)

  /** The table's keys, in insertion order. */
  function Keys(nodes: seq<GraphNode>): (keys: seq<string>)
    ensures |keys| == |nodes| && forall i :: 0 <= i < |nodes| ==> keys[i] == nodes[i].id
  {
    seq(|nodes|, i requires 0 <= i < |nodes| => nodes[i].id)
  }

  predicate Distinct(keys: seq<string>)
  {
    forall i, j :: 0 <= i < j < |keys| ==> keys[i] != keys[j]
  }

  /** The table entry `collect_nodes` makes for element `e`. */
  function NodeFor(e: Element, id: string, order: nat): GraphNode
  {
    GraphNode(id, LabelFor(e, Some(e.tag), DefaultMaxLen), e.tag, e, order)
  }

  /** What `collect_nodes` guarantees of its table: non-empty, distinct
      keys, and orders 0, 1, 2, ... */
  predicate ValidTable(nodes: seq<GraphNode>)
  {
    Distinct(Keys(nodes)) &&
    forall i :: 0 <= i < |nodes| ==> nodes[i].id != "" && nodes[i].order == i
  }

  /** The table `collect_nodes` builds from the elements `es`, in order. */
  function Collected(es: seq<Element>): (nodes: seq<GraphNode>)
    ensures ValidTable(nodes)
    ensures |nodes| <= |es|
  {
    if es == [] then []
    else
      var prev := Collected(es[..|es| - 1]);
      var e := es[|es| - 1];
      var id := FindId(e);
      if id.Some? && id.value != "" && id.value !in Keys(prev) then
        var node := NodeFor(e, id.value, |prev|);
        ValidTableSnoc(prev, node);
        prev + [node]
      else prev
  }

  lemma KeysSnoc(nodes: seq<GraphNode>, n: GraphNode)
    ensures Keys(nodes + [n]) == Keys(nodes) + [n.id]
  {
  }

  /** A new non-empty key, numbered next, keeps the table valid. */
  lemma ValidTableSnoc(nodes: seq<GraphNode>, n: GraphNode)
    requires ValidTable(nodes) && n.id != "" && n.id !in Keys(nodes) && n.order == |nodes|
    ensures ValidTable(nodes + [n])
  {
    KeysSnoc(nodes, n);
    var ks := Keys(nodes + [n]);
    forall i, j | 0 <= i < j < |ks| ensures ks[i] != ks[j] {
      if j == |nodes| {
        assert ks[i] == Keys(nodes)[i];
      } else {
        assert ks[i] == Keys(nodes)[i] && ks[j] == Keys(nodes)[j];
      }
    }
  }

  /** `collect_nodes(root)`: the table built from `root.iter()`. */
  function NodesOf(root: Element): seq<GraphNode>
  {
    Collected(Iter(root))
  }

  /** `collect_nodes`. */
  method CollectNodes(root: Element) returns (nodes: seq<GraphNode>)
    ensures nodes == NodesOf(root)
    ensures ValidTable(nodes)
  {
    nodes := CollectInOrder(Iter(root));
  }

  /** The loop of `collect_nodes` over the elements in document order; the
      ordered dictionary is the sequence `nodes` with its key set `ids`. */
  method CollectInOrder(elems: seq<Element>) returns (nodes: seq<GraphNode>)
    ensures nodes == Collected(elems)
  {
    nodes := [];
    var ids: set<string> := {};
    var idx := 0;
    for i := 0 to |elems|
      invariant nodes == Collected(elems[..i])
      invariant forall k :: k in ids <==> k in Keys(nodes)
      invariant idx == |nodes|
    {
      var elem := elems[i];
      assert elems[..i + 1][..i] == elems[..i] && elems[..i + 1][i] == elem;
      var nodeId := FindId(elem);
      if nodeId.Some? && nodeId.value != "" {
        if nodeId.value !in ids {
          var node := NodeFor(elem, nodeId.value, idx);
          KeysSnoc(nodes, node);
          nodes := nodes + [node];
          ids := ids + {nodeId.value};
          idx := idx + 1;
        }
      }
    }
    assert elems[..|elems|] == elems;
  }

  /** Element `j` is the first of `es` whose id is `k`. */
  predicate FirstWithId(es: seq<Element>, k: string, j: int)
  {
    0 <= j < |es| && FindId(es[j]) == Some(k) && forall j' :: 0 <= j' < j ==> FindId(es[j']) != Some(k)
  }

  /** Where each node of `Collected(es)` came from in `es`. */
  function Origins(es: seq<Element>): seq<nat>
  {
    if es == [] then []
    else
      var prev := Collected(es[..|es| - 1]);
      var id := FindId(es[|es| - 1]);
      if id.Some? && id.value != "" && id.value !in Keys(prev) then Origins(es[..|es| - 1]) + [|es| - 1]
      else Origins(es[..|es| - 1])
  }

  /** Every non-empty id found on an element of `es` is a key. */
  lemma {:induction false} CollectedComplete(es: seq<Element>, j: nat)
    requires j < |es| && FindId(es[j]).Some? && FindId(es[j]).value != ""
    ensures FindId(es[j]).value in Keys(Collected(es))
  {
    var init := es[..|es| - 1];
    var prev := Collected(init);
    var e := es[|es| - 1];
    var id := FindId(e);
    var k := FindId(es[j]).value;
    if id.Some? && id.value != "" && id.value !in Keys(prev) {
      KeysSnoc(prev, NodeFor(e, id.value, |prev|));
    }
    if j < |es| - 1 {
      assert es[j] == init[j];
      CollectedComplete(init, j);
    }
  }

  lemma {:induction false} OriginsLength(es: seq<Element>)
    ensures |Origins(es)| == |Collected(es)|
  {
    if es != [] {
      OriginsLength(es[..|es| - 1]);
    }
  }

  /** One more element: a new non-empty id adds its entry and its origin. */
  lemma CollectedStep(es: seq<Element>)
    requires es != []
    ensures var init := es[..|es| - 1]; var prev := Collected(init); var e := es[|es| - 1]; var id := FindId(e);
      if id.Some? && id.value != "" && id.value !in Keys(prev) then
        Collected(es) == prev + [NodeFor(e, id.value, |prev|)] && Origins(es) == Origins(init) + [|es| - 1]
      else Collected(es) == prev && Origins(es) == Origins(init)
  {
  }

  /** A first occurrence stays first when elements are appended. */
  lemma FirstWithIdExtend(es: seq<Element>, k: string, j: nat)
    requires es != [] && FirstWithId(es[..|es| - 1], k, j)
    ensures FirstWithId(es, k, j)
  {
    var init := es[..|es| - 1];
    forall j' | 0 <= j' <= j ensures es[j'] == init[j'] {
    }
  }

  /** An element whose id is not yet a key is its first occurrence. */
  lemma LastIsFirst(es: seq<Element>)
    requires es != []
    requires var id := FindId(es[|es| - 1]);
      id.Some? && id.value != "" && id.value !in Keys(Collected(es[..|es| - 1]))
    ensures FirstWithId(es, FindId(es[|es| - 1]).value, |es| - 1)
  {
    var init := es[..|es| - 1];
    var k := FindId(es[|es| - 1]).value;
    forall j' | 0 <= j' < |es| - 1
      ensures FindId(es[j']) != Some(k)
    {
      assert es[j'] == init[j'];
      if FindId(init[j']) == Some(k) {
        CollectedComplete(init, j');
        assert false;
      }
    }
  }

  /** First occurrence wins: node `i` is the entry made for the first
      element of `es` that carries its id. */
  lemma {:induction false} CollectedFirstWins(es: seq<Element>, i: nat)
    requires i < |Collected(es)|
    ensures |Origins(es)| == |Collected(es)|
    ensures var j := Origins(es)[i];
      FirstWithId(es, Collected(es)[i].id, j) && Collected(es)[i] == NodeFor(es[j], Collected(es)[i].id, i)
  {
    OriginsLength(es);
    var init := es[..|es| - 1];
    var prev := Collected(init);
    OriginsLength(init);
    CollectedStep(es);
    if i < |prev| {
      CollectedFirstWins(init, i);
      var j := Origins(init)[i];
      assert Origins(es)[i] == j && Collected(es)[i] == prev[i];
      assert Collected(es)[i].id == prev[i].id;
      FirstWithIdExtend(es, prev[i].id, j);
      assert es[j] == init[j];
    } else {
      var e := es[|es| - 1];
      var k := FindId(e).value;
      assert FindId(e).Some? && k != "" && k !in Keys(prev);
      assert Collected(es)[i] == NodeFor(e, k, i) && Origins(es)[i] == |es| - 1;
      assert Collected(es)[i].id == k;
      LastIsFirst(es);
    }
  }

  /** Document order: an earlier node comes from an earlier element. */
  lemma {:induction false} CollectedInDocumentOrder(es: seq<Element>, i: nat, i': nat)
    requires i < i' < |Collected(es)|
    ensures |Origins(es)| == |Collected(es)|
    ensures Origins(es)[i] < Origins(es)[i'] < |es|
  {
    OriginsLength(es);
    var init := es[..|es| - 1];
    var prev := Collected(init);
    OriginsLength(init);
    CollectedStep(es);
    if i' < |prev| {
      CollectedInDocumentOrder(init, i, i');
      assert Origins(es)[i] == Origins(init)[i] && Origins(es)[i'] == Origins(init)[i'];
    } else {
      OriginsBelow(init, i);
      assert Origins(es)[i] == Origins(init)[i] && Origins(es)[i'] == |es| - 1;
    }
  }

  /** Every origin is a position in `es`. */
  lemma {:induction false} OriginsBelow(es: seq<Element>, i: nat)
    requires i < |Origins(es)|
    ensures Origins(es)[i] < |es|
  {
    var init := es[..|es| - 1];
    if i < |Origins(init)| {
      OriginsBelow(init, i);
    }
  }

  /** The first index holding `x`. */
  function IndexOf(keys: seq<string>, x: string): (r: Option<nat>)
    ensures r.Some? ==> r.value < |keys| && keys[r.value] == x && forall j :: 0 <= j < r.value ==> keys[j] != x
    ensures r.None? <==> x !in keys
  {
    if keys == [] then None
    else if keys[0] == x then Some(0)
    else
      var rest := IndexOf(keys[1..], x);
      assert x in keys ==> x in keys[1..] by {
        if x in keys {
          var j :| 0 <= j < |keys| && keys[j] == x;
          assert keys[1..][j - 1] == x;
        }
      }
      if rest.Some? then Some(rest.value + 1) else None
  }

  /** `next_node_id`: the key right after the first occurrence of `src`;
      nothing when `src` is absent or last. */
  function NextNodeId(keys: seq<string>, src: string): (r: Option<string>)
    ensures src !in keys ==> r.None?
    ensures r.Some? ==> exists i :: 0 <= i < |keys| - 1 && keys[i] == src && r.value == keys[i + 1]
  {
    var i := IndexOf(keys, src);
    if i.None? then None
    else if i.value + 1 < |keys| then Some(keys[i.value + 1])
    else None
  }

  /** With distinct keys the key after `keys[i]` is `keys[i + 1]`, and the
      last key has none. */
  lemma NextOfDistinct(keys: seq<string>, i: nat)
    requires Distinct(keys) && i < |keys|
    ensures NextNodeId(keys, keys[i]) == if i + 1 < |keys| then Some(keys[i + 1]) else None
  {
    var j := IndexOf(keys, keys[i]).value;
    assert j == i;
  }

  /** A directed edge `(from, to, rel)`. */
  datatype Edge = Edge(from: string, to: string, rel: string)

  predicate NoDuplicates(edges: seq<Edge>)
  {
    forall i, j :: 0 <= i < j < |edges| ==> edges[i] != edges[j]
  }

  /** Appending `xs` in order, skipping each edge already present: the
      `seen` check of `collect_edges`. */
  function Extend(edges: seq<Edge>, xs: seq<Edge>): seq<Edge>
  {
    if xs == [] then edges
    else
      var prev := Extend(edges, xs[..|xs| - 1]);
      var x := xs[|xs| - 1];
      if x in prev then prev else prev + [x]
  }

  /** `Extend` only appends; afterwards every edge of `edges` and of `xs`
      is present, nothing else is, and no edge appears twice unless one
      already did. */
  lemma {:induction false} ExtendFacts(edges: seq<Edge>, xs: seq<Edge>)
    ensures var r := Extend(edges, xs);
      && edges <= r
      && (forall x :: x in r <==> x in edges || x in xs)
      && (NoDuplicates(edges) ==> NoDuplicates(r))
  {
    if xs != [] {
      var init := xs[..|xs| - 1];
      ExtendFacts(edges, init);
      assert forall y :: y in xs <==> y in init || y == xs[|xs| - 1];
    }
  }

  lemma {:induction false} ExtendAppend(edges: seq<Edge>, xs: seq<Edge>, ys: seq<Edge>)
    ensures Extend(edges, xs + ys) == Extend(Extend(edges, xs), ys)
  {
    if ys == [] {
      assert xs + ys == xs;
    } else {
      assert (xs + ys)[..|xs + ys| - 1] == xs + ys[..|ys| - 1];
      ExtendAppend(edges, xs, ys[..|ys| - 1]);
    }
  }

  /** `part.lstrip("#")`. */
  function LStripHash(p: string): (r: string)
    ensures |r| <= |p| && r == p[|p| - |r|..]
    ensures r == [] || r[0] != '#'
    ensures forall i :: 0 <= i < |p| - |r| ==> p[i] == '#'
  {
    if p != [] && p[0] == '#' then LStripHash(p[1..]) else p
  }

  /** Dropping leading `#`s cannot bring in a separator. */
  lemma HashlessFreeOf(p: string, sep: char -> bool)
    requires FreeOf(p, sep)
    ensures FreeOf(LStripHash(p), sep)
  {
    var r := LStripHash(p);
    forall j | 0 <= j < |r| ensures !sep(r[j]) {
      assert r[j] == p[|p| - |r| + j];
    }
  }

  /** The separators of `re.split(r"[,;/\s]+", ...)`. */
  predicate IsTargetSep(c: char)
  {
    c == ',' || c == ';' || c == '/' || IsPyWhiteSpace(c)
  }

  /** The fields between single separators of the stripped value; runs of
      separators leave empty fields, which `collect_edges` skips just as it
      skips the empty strings `re.split` returns at the ends. */
  function TargetFields(v: string): seq<string>
  {
    Split(Strip(v), IsTargetSep)
  }

  /** The targets a value names: its non-empty fields, in order, each
      without its leading `#` characters. A target holds no separator and
      does not start with `#`; it is empty only for a field made of `#`s. */
  function Targets(v: string): (ts: seq<string>)
    ensures forall k :: 0 <= k < |ts| ==> FreeOf(ts[k], IsTargetSep) && (ts[k] == [] || ts[k][0] != '#')
  {
    var fs := SplitNonEmpty(Strip(v), IsTargetSep);
    var ts := StripAll(fs);
    forall k | 0 <= k < |ts| ensures FreeOf(ts[k], IsTargetSep) {
      HashlessFreeOf(fs[k], IsTargetSep);
    }
    ts
  }

  /** Each field without its leading `#` characters. */
  function StripAll(fs: seq<string>): (r: seq<string>)
    ensures |r| == |fs| && forall i :: 0 <= i < |fs| ==> r[i] == LStripHash(fs[i])
  {
    if fs == [] then [] else StripAll(fs[..|fs| - 1]) + [LStripHash(fs[|fs| - 1])]
  }

  /** One edge from `src` to each of `ts`, in order. */
  function EdgesTo(src: string, ts: seq<string>, rel: string): (r: seq<Edge>)
    ensures |r| == |ts| && forall i :: 0 <= i < |ts| ==> r[i] == Edge(src, ts[i], rel)
  {
    if ts == [] then [] else EdgesTo(src, ts[..|ts| - 1], rel) + [Edge(src, ts[|ts| - 1], rel)]
  }

  /** The candidate edges of the loop over one value's fields. */
  function FieldEdges(src: string, fields: seq<string>, rel: string): (r: seq<Edge>)
    ensures forall x :: x in r ==> x.from == src && x.rel == rel
  {
    if fields == [] then []
    else
      var prev := FieldEdges(src, fields[..|fields| - 1], rel);
      var f := fields[|fields| - 1];
      if f == "" then prev else prev + [Edge(src, LStripHash(f), rel)]
  }

  lemma StripAllSnoc(fs: seq<string>, f: string)
    ensures StripAll(fs + [f]) == StripAll(fs) + [LStripHash(f)]
  {
    assert (fs + [f])[..|fs|] == fs;
  }

  lemma EdgesToSnoc(src: string, ts: seq<string>, t: string, rel: string)
    ensures EdgesTo(src, ts + [t], rel) == EdgesTo(src, ts, rel) + [Edge(src, t, rel)]
  {
    assert (ts + [t])[..|ts|] == ts;
  }

  lemma FieldEdgesSnoc(src: string, fs: seq<string>, f: string, rel: string)
    ensures FieldEdges(src, fs + [f], rel) ==
      FieldEdges(src, fs, rel) + (if f == "" then [] else [Edge(src, LStripHash(f), rel)])
  {
    assert (fs + [f])[..|fs|] == fs;
  }

  /** The loop over fields skips the empty ones and strips the others. */
  lemma {:induction false} FieldEdgesSkipEmpty(src: string, fields: seq<string>, rel: string)
    ensures FieldEdges(src, fields, rel) == EdgesTo(src, StripAll(RemoveEmpty(fields)), rel)
  {
    if fields != [] {
      var init := fields[..|fields| - 1];
      var f := fields[|fields| - 1];
      assert init + [f] == fields;
      FieldEdgesSkipEmpty(src, init, rel);
      FieldEdgesSnoc(src, init, f, rel);
      RemoveEmptySnoc(init, f);
      var before := RemoveEmpty(init);
      if f != "" {
        StripAllSnoc(before, f);
        EdgesToSnoc(src, StripAll(before), LStripHash(f), rel);
      } else {
        assert before + [] == before;
      }
    }
  }

  /** A value's edges go to its targets, one each, in order. */
  lemma ValueEdges(src: string, v: string, rel: string)
    ensures FieldEdges(src, TargetFields(v), rel) == EdgesTo(src, Targets(v), rel)
  {
    FieldEdgesSkipEmpty(src, TargetFields(v), rel);
  }

  /** Targets are split at every separator: non-empty names free of
      separators, joined by commas, come back as themselves (less any
      leading `#`). */
  lemma TargetsOfCommaList(names: seq<string>)
    requires forall k :: 0 <= k < |names| ==> names[k] != [] && FreeOf(names[k], IsTargetSep)
    ensures var ts := Targets(Join(names, ','));
      |ts| == |names| && forall k :: 0 <= k < |names| ==> ts[k] == LStripHash(names[k])
  {
    var s := Join(names, ',');
    JoinEnds(names);
    SplitNonEmptyJoin(names, ',', IsTargetSep);
  }

  /** Targets are the names between separator runs, whatever mix of ',',
      ';', '/' and white space each run holds and however long it is. */
  lemma TargetsOfRuns(names: seq<string>, gaps: seq<string>)
    requires |gaps| + 1 == |names|
    requires forall k :: 0 <= k < |names| ==> names[k] != [] && FreeOf(names[k], IsTargetSep)
    requires forall k :: 0 <= k < |gaps| ==> gaps[k] != [] && AllSep(gaps[k], IsTargetSep)
    ensures Targets(JoinWith(names, gaps)) == StripAll(names)
  {
    var s := JoinWith(names, gaps);
    JoinWithEnds(names, gaps);
    var l := names[|names| - 1];
    assert !IsTargetSep(names[0][0]) && !IsTargetSep(l[|l| - 1]);
    assert Strip(s) == s;
    assert [] + s + [] == s;
    SplitNonEmptyRuns([], names, gaps, [], IsTargetSep);
  }

  /** A comma-joined list of non-empty separator-free names starts and ends
      with a character of a name, so stripping leaves it as it is. */
  lemma {:induction false} JoinEnds(names: seq<string>)
    requires forall k :: 0 <= k < |names| ==> names[k] != [] && FreeOf(names[k], IsTargetSep)
    ensures Strip(Join(names, ',')) == Join(names, ',')
  {
    var s := Join(names, ',');
    if s != [] {
      JoinFirstLast(names);
    }
  }

  lemma {:induction false} JoinFirstLast(names: seq<string>)
    requires forall k :: 0 <= k < |names| ==> names[k] != [] && FreeOf(names[k], IsTargetSep)
    ensures var s := Join(names, ',');
      s == [] || (!IsTargetSep(s[0]) && !IsTargetSep(s[|s| - 1]))
  {
    if |names| > 1 {
      JoinFirstLast(names[1..]);
    }
  }

  /** The candidate edges of the loop over `attrs` on element `e`: each
      truthy attribute's targets, with relation `prefix + a`. */
  function AttrEdges(src: string, e: Element, attrs: seq<string>, prefix: string): (r: seq<Edge>)
    ensures forall x :: x in r ==> x.from == src
    ensures (forall i :: 0 <= i < |attrs| ==> prefix + attrs[i] != "default::next") ==>
      forall x :: x in r ==> x.rel != "default::next"
  {
    if attrs == [] then []
    else
      var prev := AttrEdges(src, e, attrs[..|attrs| - 1], prefix);
      var a := attrs[|attrs| - 1];
      prev + (if Truthy(e, a) then FieldEdges(src, TargetFields(e.attrs[a]), prefix + a) else [])
  }

  /** Some attribute among `attrs` is truthy on `e`. */
  predicate AnyTruthy(e: Element, attrs: seq<string>)
  {
    exists i :: 0 <= i < |attrs| && Truthy(e, attrs[i])
  }

  /** `str.lower()` of one character as far as it can yield an ASCII
      letter: `A`-`Z`, and the Kelvin sign, whose lower case is `k`. */
  function FoldChar(c: char): char
  {
    if 'A' <= c <= 'Z' then (c as int + 32) as char
    else if c == '\U{212A}' then 'k'
    else c
  }

  function FoldTag(tag: string): (r: string)
    ensures |r| == |tag|
  {
    seq(|tag|, i requires 0 <= i < |tag| => FoldChar(tag[i]))
  }

  /** The option-like children: a tag naming a choice, or any target
      attribute present, even empty. */
  predicate IsOptionChild(c: Element)
  {
    FoldTag(c.tag) in ChildTagTargets || exists i :: 0 <= i < |TargetAttrs| && TargetAttrs[i] in c.attrs
  }

  function OptionChildren(cs: seq<Element>): (r: seq<Element>)
    ensures forall c :: c in r <==> c in cs && IsOptionChild(c)
  {
    if cs == [] then []
    else
      var prev := OptionChildren(cs[..|cs| - 1]);
      var c := cs[|cs| - 1];
      assert forall d :: d in cs <==> d in cs[..|cs| - 1] || d == c;
      if IsOptionChild(c) then prev + [c] else prev
  }

  const SingleDefaultRel: string := "child::default::next"

  function ManyDefaultRel(tag: string): string
  {
    "child::" + tag + "::default::next"
  }

  function ChildPrefix(tag: string): string
  {
    "child::" + tag + "@"
  }

  /** The candidate edges of one option child: its targets; with no truthy
      target attribute, an edge to the next node, if there is one. */
  function ChildEdges(src: string, c: Element, defaultRel: string, next: Option<string>): (r: seq<Edge>)
    ensures forall x :: x in r ==> x.from == src
    ensures !AnyTruthy(c, TargetAttrs) && next.Some? && next.value != "" ==> Edge(src, next.value, defaultRel) in r
  {
    AttrEdges(src, c, TargetAttrs, ChildPrefix(c.tag)) +
    (if !AnyTruthy(c, TargetAttrs) && next.Some? && next.value != "" then [Edge(src, next.value, defaultRel)] else [])
  }

  /** Several option children: each on its own, defaults tagged with the
      child's tag. */
  function ManyChildEdges(src: string, cs: seq<Element>, next: Option<string>): (r: seq<Edge>)
    ensures forall x :: x in r ==> x.from == src
  {
    if cs == [] then []
    else
      var c := cs[|cs| - 1];
      ManyChildEdges(src, cs[..|cs| - 1], next) + ChildEdges(src, c, ManyDefaultRel(c.tag), next)
  }

  function OptionEdges(src: string, cs: seq<Element>, next: Option<string>): (r: seq<Edge>)
    ensures forall x :: x in r ==> x.from == src
  {
    if |cs| == 1 then ChildEdges(src, cs[0], SingleDefaultRel, next)
    else ManyChildEdges(src, cs, next)
  }

  /** The candidate edges of the inline-goto loop. */
  function InlineEdges(src: string, ts: seq<string>): (r: seq<Edge>)
    ensures forall x :: x in r ==> x.from == src && x.rel == "inline"
  {
    if ts == [] then [] else InlineEdges(src, ts[..|ts| - 1]) + [Edge(src, ts[|ts| - 1], "inline")]
  }

  /** Every edge `collect_edges` considers for one node, in order: its own
      target attributes, the inline gotos `inline` finds in its text, then
      its option children. None is a default edge. */
  function Candidates(node: GraphNode, keys: seq<string>, inline: string -> seq<string>): (r: seq<Edge>)
    ensures forall x :: x in r ==> x.from == node.id && x.rel != "default::next"
  {
    var src := node.id;
    var own := AttrEdges(src, node.elem, TargetAttrs, "");
    var options := OptionEdges(src, OptionChildren(node.elem.children), NextNodeId(keys, src));
    assert forall x :: x in options ==> x.rel != "default::next" by {
      OptionRels(src, OptionChildren(node.elem.children), NextNodeId(keys, src));
    }
    own + InlineEdges(src, inline(node.elem.text)) + options
  }

  /** The relations option children produce all start with `child::`. */
  lemma OptionRels(src: string, cs: seq<Element>, next: Option<string>)
    ensures forall x :: x in OptionEdges(src, cs, next) ==> x.rel != "default::next"
  {
    forall c: Element, rel: string | rel == SingleDefaultRel || rel == ManyDefaultRel(c.tag)
      ensures forall x :: x in ChildEdges(src, c, rel, next) ==> x.rel != "default::next"
    {
      ChildRels(src, c, rel, next);
    }
    if |cs| != 1 {
      ManyChildRels(src, cs, next);
    }
  }

  lemma ChildRels(src: string, c: Element, rel: string, next: Option<string>)
    requires rel == SingleDefaultRel || rel == ManyDefaultRel(c.tag)
    ensures forall x :: x in ChildEdges(src, c, rel, next) ==> x.rel != "default::next"
  {
    var prefix := ChildPrefix(c.tag);
    forall i | 0 <= i < |TargetAttrs|
      ensures prefix + TargetAttrs[i] != "default::next"
    {
      assert (prefix + TargetAttrs[i])[0] == 'c';
    }
    assert rel[0] == 'c';
  }

  lemma {:induction false} ManyChildRels(src: string, cs: seq<Element>, next: Option<string>)
    ensures forall x :: x in ManyChildEdges(src, cs, next) ==> x.rel != "default::next"
  {
    if cs != [] {
      var c := cs[|cs| - 1];
      ManyChildRels(src, cs[..|cs| - 1], next);
      ChildRels(src, c, ManyDefaultRel(c.tag), next);
    }
  }

  /** One iteration of `collect_edges`' outer loop: the node's candidates,
      then, when none of them was new and a next node exists, the
      `default::next` edge to it. */
  function StepNode(edges: seq<Edge>, node: GraphNode, keys: seq<string>, inline: string -> seq<string>): (r: seq<Edge>)
    ensures edges <= r
    ensures forall x :: x in r ==> x in edges || x.from == node.id
    ensures NoDuplicates(edges) ==> NoDuplicates(r)
  {
    var after := Extend(edges, Candidates(node, keys, inline));
    var next := NextNodeId(keys, node.id);
    ExtendFacts(edges, Candidates(node, keys, inline));
    if |after| == |edges| && next.Some? && next.value != "" then
      ExtendFacts(after, [Edge(node.id, next.value, "default::next")]);
      Extend(after, [Edge(node.id, next.value, "default::next")])
    else after
  }

  /** The edges `collect_edges` has gathered after the nodes `nodes`, with
      `keys` the keys of the whole table. */
  function GraphEdgesOf(nodes: seq<GraphNode>, keys: seq<string>, inline: string -> seq<string>): (r: seq<Edge>)
    ensures NoDuplicates(r)
    ensures forall x :: x in r ==> x.from in Keys(nodes)
  {
    if nodes == [] then []
    else
      var init := nodes[..|nodes| - 1];
      var node := nodes[|nodes| - 1];
      KeysSnoc(init, node);
      assert init + [node] == nodes;
      StepNode(GraphEdgesOf(init, keys, inline), node, keys, inline)
  }

  /** `collect_edges(nodes)`: no edge twice, and every edge leaves a node
      of the table. */
  function GraphEdges(nodes: seq<GraphNode>, inline: string -> seq<string>): (r: seq<Edge>)
    ensures NoDuplicates(r)
    ensures forall x :: x in r ==> x.from in Keys(nodes)
  {
    GraphEdgesOf(nodes, Keys(nodes), inline)
  }

  /** Later nodes only add edges. */
  lemma {:induction false} GraphEdgesGrow(nodes: seq<GraphNode>, keys: seq<string>, inline: string -> seq<string>, m: nat)
    requires m <= |nodes|
    ensures GraphEdgesOf(nodes[..m], keys, inline) <= GraphEdgesOf(nodes, keys, inline)
  {
    if m < |nodes| {
      var init := nodes[..|nodes| - 1];
      assert init[..m] == nodes[..m];
      GraphEdgesGrow(init, keys, inline, m);
    } else {
      assert nodes[..m] == nodes;
    }
  }

  /** The edges leaving `k` are settled once the nodes keyed `k` are done. */
  lemma {:induction false} GraphEdgesFromSettled(nodes: seq<GraphNode>, keys: seq<string>, inline: string -> seq<string>,
                                                 m: nat, x: Edge)
    requires m <= |nodes|
    requires forall j :: m <= j < |nodes| ==> nodes[j].id != x.from
    ensures x in GraphEdgesOf(nodes, keys, inline) <==> x in GraphEdgesOf(nodes[..m], keys, inline)
  {
    if m < |nodes| {
      var init := nodes[..|nodes| - 1];
      assert init[..m] == nodes[..m];
      GraphEdgesFromSettled(init, keys, inline, m, x);
    } else {
      assert nodes[..m] == nodes;
    }
  }

  /** The edges present after node `i` is done, in terms of those before. */
  lemma StepMembers(nodes: seq<GraphNode>, keys: seq<string>, inline: string -> seq<string>, i: nat, x: Edge)
    requires i < |nodes|
    ensures var before := GraphEdgesOf(nodes[..i], keys, inline);
      var cands := Candidates(nodes[i], keys, inline);
      var after := Extend(before, cands);
      var next := NextNodeId(keys, nodes[i].id);
      && GraphEdgesOf(nodes[..i + 1], keys, inline) == StepNode(before, nodes[i], keys, inline)
      && (x in GraphEdgesOf(nodes[..i + 1], keys, inline) <==>
            x in before || x in cands ||
            (|after| == |before| && next.Some? && next.value != "" && x == Edge(nodes[i].id, next.value, "default::next")))
  {
    var before := GraphEdgesOf(nodes[..i], keys, inline);
    var cands := Candidates(nodes[i], keys, inline);
    var after := Extend(before, cands);
    assert nodes[..i + 1][..i] == nodes[..i];
    ExtendFacts(before, cands);
    var next := NextNodeId(keys, nodes[i].id);
    if next.Some? {
      ExtendFacts(after, [Edge(nodes[i].id, next.value, "default::next")]);
    }
  }

  /** Every candidate edge of every node is among the edges. */
  lemma CandidatesIncluded(nodes: seq<GraphNode>, keys: seq<string>, inline: string -> seq<string>, i: nat, x: Edge)
    requires i < |nodes| && x in Candidates(nodes[i], keys, inline)
    ensures x in GraphEdgesOf(nodes, keys, inline)
  {
    StepMembers(nodes, keys, inline, i, x);
    GraphEdgesGrow(nodes, keys, inline, i + 1);
  }

  /** Before node `i` is done, no edge leaves its key. */
  lemma EarlierFromOthers(nodes: seq<GraphNode>, keys: seq<string>, inline: string -> seq<string>, i: nat)
    requires Distinct(Keys(nodes)) && i < |nodes|
    ensures forall y :: y in GraphEdgesOf(nodes[..i], keys, inline) ==> y.from != nodes[i].id
  {
    var ks := Keys(nodes);
    forall j | 0 <= j < i ensures Keys(nodes[..i])[j] != nodes[i].id {
      assert ks[j] != ks[i];
    }
  }

  /** After node `i`, no node has its key. */
  lemma LaterOthers(nodes: seq<GraphNode>, i: nat)
    requires Distinct(Keys(nodes)) && i < |nodes|
    ensures forall j :: i + 1 <= j < |nodes| ==> nodes[j].id != nodes[i].id
  {
    var ks := Keys(nodes);
    forall j | i + 1 <= j < |nodes| ensures nodes[j].id != nodes[i].id {
      assert ks[i] != ks[j];
    }
  }

  /** The default rule for one step, on any earlier edges that leave other
      keys and any candidates that leave `k` and are not default edges. */
  lemma DefaultAfterStep(before: seq<Edge>, cands: seq<Edge>, k: string, next: Option<string>, t: string)
    requires forall y :: y in before ==> y.from != k
    requires forall y :: y in cands ==> y.from == k && y.rel != "default::next"
    ensures var x := Edge(k, t, "default::next");
      var after := Extend(before, cands);
      (x in before || x in cands ||
       (|after| == |before| && next.Some? && next.value != "" && x == Edge(k, next.value, "default::next")))
      <==> cands == [] && next == Some(t) && t != ""
  {
    var after := Extend(before, cands);
    ExtendFacts(before, cands);
    if cands != [] {
      assert cands[0] in after && cands[0] !in before;
    }
  }

  /** The default rule: node `i` gets the edge `(k, t, "default::next")`
      exactly when none of its candidate edges exists and `t` is the
      non-empty key after it. */
  lemma DefaultNextRule(nodes: seq<GraphNode>, inline: string -> seq<string>, i: nat, t: string)
    requires Distinct(Keys(nodes)) && i < |nodes|
    ensures var keys := Keys(nodes);
      Edge(nodes[i].id, t, "default::next") in GraphEdges(nodes, inline) <==>
        Candidates(nodes[i], keys, inline) == [] && NextNodeId(keys, nodes[i].id) == Some(t) && t != ""
  {
    var keys := Keys(nodes);
    var x := Edge(nodes[i].id, t, "default::next");
    LaterOthers(nodes, i);
    GraphEdgesFromSettled(nodes, keys, inline, i + 1, x);
    StepMembers(nodes, keys, inline, i, x);
    EarlierFromOthers(nodes, keys, inline, i);
    DefaultAfterStep(GraphEdgesOf(nodes[..i], keys, inline), Candidates(nodes[i], keys, inline),
                     nodes[i].id, NextNodeId(keys, nodes[i].id), t);
  }

  /** Every node but the last has an outgoing edge; the last one gets no
      default edge. */
  lemma NextEdges(nodes: seq<GraphNode>, inline: string -> seq<string>, i: nat)
    requires ValidTable(nodes) && i < |nodes|
    ensures i + 1 < |nodes| ==> exists x :: x in GraphEdges(nodes, inline) && x.from == nodes[i].id
    ensures i + 1 == |nodes| ==> forall t :: Edge(nodes[i].id, t, "default::next") !in GraphEdges(nodes, inline)
  {
    var keys := Keys(nodes);
    NextOfDistinct(keys, i);
    var cands := Candidates(nodes[i], keys, inline);
    if i + 1 < |nodes| {
      if cands != [] {
        CandidatesIncluded(nodes, keys, inline, i, cands[0]);
        assert cands[0] in GraphEdges(nodes, inline);
      } else {
        DefaultNextRule(nodes, inline, i, keys[i + 1]);
        assert Edge(nodes[i].id, keys[i + 1], "default::next") in GraphEdges(nodes, inline);
      }
    } else {
      forall t
        ensures Edge(nodes[i].id, t, "default::next") !in GraphEdges(nodes, inline)
      {
        DefaultNextRule(nodes, inline, i, t);
      }
    }
  }

  lemma {:induction false} ManyChildIncludes(src: string, cs: seq<Element>, next: Option<string>, j: nat, x: Edge)
    requires j < |cs| && x in ChildEdges(src, cs[j], ManyDefaultRel(cs[j].tag), next)
    ensures x in ManyChildEdges(src, cs, next)
  {
    if j < |cs| - 1 {
      assert cs[..|cs| - 1][j] == cs[j];
      ManyChildIncludes(src, cs[..|cs| - 1], next, j, x);
    }
  }

  /** The default edge of an option child with no truthy target is among
      the option edges. */
  lemma ChildDefaultInOptions(src: string, oc: seq<Element>, j: nat, t: string)
    requires j < |oc| && !AnyTruthy(oc[j], TargetAttrs) && t != ""
    ensures Edge(src, t, if |oc| == 1 then SingleDefaultRel else ManyDefaultRel(oc[j].tag))
      in OptionEdges(src, oc, Some(t))
  {
    var x := Edge(src, t, if |oc| == 1 then SingleDefaultRel else ManyDefaultRel(oc[j].tag));
    if |oc| != 1 {
      ManyChildIncludes(src, oc, Some(t), j, x);
    }
  }

  lemma OptionInCandidates(node: GraphNode, keys: seq<string>, inline: string -> seq<string>, x: Edge)
    requires x in OptionEdges(node.id, OptionChildren(node.elem.children), NextNodeId(keys, node.id))
    ensures x in Candidates(node, keys, inline)
  {
  }

  /** An option-like child with no truthy target attribute leads to the
      next node: with `child::default::next` when it is the only option
      child, else with `child::<tag>::default::next`. */
  lemma ChildWithoutTarget(nodes: seq<GraphNode>, inline: string -> seq<string>, i: nat, c: Element)
    requires ValidTable(nodes) && i + 1 < |nodes|
    requires c in OptionChildren(nodes[i].elem.children) && !AnyTruthy(c, TargetAttrs)
    ensures var oc := OptionChildren(nodes[i].elem.children);
      Edge(nodes[i].id, nodes[i + 1].id, if |oc| == 1 then SingleDefaultRel else ManyDefaultRel(c.tag))
        in GraphEdges(nodes, inline)
  {
    var keys := Keys(nodes);
    NextOfDistinct(keys, i);
    var oc := OptionChildren(nodes[i].elem.children);
    var x := Edge(nodes[i].id, nodes[i + 1].id, if |oc| == 1 then SingleDefaultRel else ManyDefaultRel(c.tag));
    var j :| 0 <= j < |oc| && oc[j] == c;
    ChildDefaultInOptions(nodes[i].id, oc, j, keys[i + 1]);
    OptionInCandidates(nodes[i], keys, inline, x);
    CandidatesIncluded(nodes, keys, inline, i, x);
  }

  lemma {:induction false} AttrIncludes(src: string, e: Element, attrs: seq<string>, prefix: string, j: nat, x: Edge)
    requires j < |attrs| && Truthy(e, attrs[j]) && x in FieldEdges(src, TargetFields(e.attrs[attrs[j]]), prefix + attrs[j])
    ensures x in AttrEdges(src, e, attrs, prefix)
  {
    if j < |attrs| - 1 {
      assert attrs[..|attrs| - 1][j] == attrs[j];
      AttrIncludes(src, e, attrs[..|attrs| - 1], prefix, j, x);
    }
  }

  /** A target of a value gives an edge among the value's field edges. */
  lemma TargetInFields(src: string, v: string, rel: string, t: string)
    requires t in Targets(v)
    ensures Edge(src, t, rel) in FieldEdges(src, TargetFields(v), rel)
  {
    ValueEdges(src, v, rel);
    var ts := Targets(v);
    var m :| 0 <= m < |ts| && ts[m] == t;
    assert FieldEdges(src, TargetFields(v), rel)[m] == Edge(src, t, rel);
  }

  lemma OwnInCandidates(node: GraphNode, keys: seq<string>, inline: string -> seq<string>, x: Edge)
    requires x in AttrEdges(node.id, node.elem, TargetAttrs, "")
    ensures x in Candidates(node, keys, inline)
  {
  }

  /** Each target named by a truthy target attribute `a` of a node is an
      edge from it with relation `a`. */
  lemma AttributeTargets(nodes: seq<GraphNode>, inline: string -> seq<string>, i: nat, j: nat, t: string)
    requires i < |nodes| && j < |TargetAttrs| && Truthy(nodes[i].elem, TargetAttrs[j])
    requires t in Targets(nodes[i].elem.attrs[TargetAttrs[j]])
    ensures Edge(nodes[i].id, t, TargetAttrs[j]) in GraphEdges(nodes, inline)
  {
    var x := Edge(nodes[i].id, t, TargetAttrs[j]);
    OwnTarget(nodes[i].id, nodes[i].elem, j, t);
    OwnInCandidates(nodes[i], Keys(nodes), inline, x);
    CandidatesIncluded(nodes, Keys(nodes), inline, i, x);
  }

  lemma OwnTarget(src: string, e: Element, j: nat, t: string)
    requires j < |TargetAttrs| && Truthy(e, TargetAttrs[j]) && t in Targets(e.attrs[TargetAttrs[j]])
    ensures Edge(src, t, TargetAttrs[j]) in AttrEdges(src, e, TargetAttrs, "")
  {
    var a := TargetAttrs[j];
    assert "" + a == a;
    TargetInFields(src, e.attrs[a], a, t);
    AttrIncludes(src, e, TargetAttrs, "", j, Edge(src, t, a));
  }

  /** `seen` holds exactly the edges of `edges`. */
  ghost predicate Tracks(edges: seq<Edge>, seen: set<Edge>)
  {
    forall x :: x in seen <==> x in edges
  }

  /** The repeated step of `collect_edges`: append `key` and count it
      unless it was seen. */
  method AddEdge(edges: seq<Edge>, seen: set<Edge>, count: nat, key: Edge)
    returns (edges': seq<Edge>, seen': set<Edge>, count': nat)
    requires Tracks(edges, seen)
    ensures edges' == Extend(edges, [key]) && Tracks(edges', seen')
    ensures count' == count + |edges'| - |edges|
  {
    assert [key][..0] == [];
    if key !in seen {
      edges', seen', count' := edges + [key], seen + {key}, count + 1;
    } else {
      edges', seen', count' := edges, seen, count;
    }
  }

  /** The loop over the fields of one target value. */
  method AddFields(src: string, v: string, rel: string, edges: seq<Edge>, seen: set<Edge>, count: nat)
    returns (edges': seq<Edge>, seen': set<Edge>, count': nat)
    requires Tracks(edges, seen)
    ensures edges' == Extend(edges, FieldEdges(src, TargetFields(v), rel)) && Tracks(edges', seen')
    ensures count' == count + |edges'| - |edges|
  {
    var fields := TargetFields(v);
    edges', seen', count' := edges, seen, count;
    for j := 0 to |fields|
      invariant edges' == Extend(edges, FieldEdges(src, fields[..j], rel)) && Tracks(edges', seen')
      invariant count' == count + |edges'| - |edges|
    {
      var part := fields[j];
      ghost var before := FieldEdges(src, fields[..j], rel);
      FieldStep(src, fields, rel, j);
      if part != "" {
        var key := Edge(src, LStripHash(part), rel);
        assert FieldEdges(src, fields[..j + 1], rel) == before + [key];
        ExtendAppend(edges, before, [key]);
        edges', seen', count' := AddEdge(edges', seen', count', key);
      } else {
        assert FieldEdges(src, fields[..j + 1], rel) == before;
      }
    }
    assert fields[..|fields|] == fields;
  }

  /** One more field: its edge, if it is not empty, follows. */
  lemma FieldStep(src: string, fields: seq<string>, rel: string, j: nat)
    requires j < |fields|
    ensures FieldEdges(src, fields[..j + 1], rel) ==
      FieldEdges(src, fields[..j], rel) + (if fields[j] == "" then [] else [Edge(src, LStripHash(fields[j]), rel)])
  {
    assert fields[..j + 1][..j] == fields[..j];
  }

  /** The loop over the target attributes of `e`, relations `prefix + a`;
      `found` tells whether any of them was truthy. */
  method AddAttrTargets(src: string, e: Element, prefix: string, edges: seq<Edge>, seen: set<Edge>, count: nat)
    returns (edges': seq<Edge>, seen': set<Edge>, count': nat, found: bool)
    requires Tracks(edges, seen)
    ensures edges' == Extend(edges, AttrEdges(src, e, TargetAttrs, prefix)) && Tracks(edges', seen')
    ensures count' == count + |edges'| - |edges|
    ensures found == AnyTruthy(e, TargetAttrs)
  {
    edges', seen', count' := edges, seen, count;
    found := false;
    for i := 0 to |TargetAttrs|
      invariant edges' == Extend(edges, AttrEdges(src, e, TargetAttrs[..i], prefix)) && Tracks(edges', seen')
      invariant count' == count + |edges'| - |edges|
      invariant found == AnyTruthy(e, TargetAttrs[..i])
    {
      var a := TargetAttrs[i];
      AttrStep(src, e, TargetAttrs, prefix, i);
      TruthyStep(e, TargetAttrs, i);
      if a in e.attrs && e.attrs[a] != "" {
        ExtendAppend(edges, AttrEdges(src, e, TargetAttrs[..i], prefix), FieldEdges(src, TargetFields(e.attrs[a]), prefix + a));
        edges', seen', count' := AddFields(src, e.attrs[a], prefix + a, edges', seen', count');
        found := true;
      } else {
        assert AttrEdges(src, e, TargetAttrs[..i], prefix) + [] == AttrEdges(src, e, TargetAttrs[..i], prefix);
      }
    }
    assert TargetAttrs[..|TargetAttrs|] == TargetAttrs;
  }

  /** One more attribute: its edges follow. */
  lemma AttrStep(src: string, e: Element, attrs: seq<string>, prefix: string, i: nat)
    requires i < |attrs|
    ensures var a := attrs[i];
      AttrEdges(src, e, attrs[..i + 1], prefix) ==
        AttrEdges(src, e, attrs[..i], prefix) + (if Truthy(e, a) then FieldEdges(src, TargetFields(e.attrs[a]), prefix + a) else [])
  {
    assert attrs[..i + 1][..i] == attrs[..i];
  }

  /** One more attribute: it may be the truthy one. */
  lemma TruthyStep(e: Element, attrs: seq<string>, i: nat)
    requires i < |attrs|
    ensures AnyTruthy(e, attrs[..i + 1]) <==> AnyTruthy(e, attrs[..i]) || Truthy(e, attrs[i])
  {
    if AnyTruthy(e, attrs[..i + 1]) {
      var j :| 0 <= j < i + 1 && Truthy(e, attrs[..i + 1][j]);
      if j < i {
        assert attrs[..i][j] == attrs[..i + 1][j];
      }
    }
    if AnyTruthy(e, attrs[..i]) {
      var j :| 0 <= j < i && Truthy(e, attrs[..i][j]);
      assert attrs[..i + 1][j] == attrs[..i][j];
    }
    if Truthy(e, attrs[i]) {
      assert attrs[..i + 1][i] == attrs[i];
    }
  }


  /** The loop over the inline gotos found in a node's text. */
  method AddInline(src: string, ts: seq<string>, edges: seq<Edge>, seen: set<Edge>, count: nat)
    returns (edges': seq<Edge>, seen': set<Edge>, count': nat)
    requires Tracks(edges, seen)
    ensures edges' == Extend(edges, InlineEdges(src, ts)) && Tracks(edges', seen')
    ensures count' == count + |edges'| - |edges|
  {
    edges', seen', count' := edges, seen, count;
    for k := 0 to |ts|
      invariant edges' == Extend(edges, InlineEdges(src, ts[..k])) && Tracks(edges', seen')
      invariant count' == count + |edges'| - |edges|
    {
      assert ts[..k + 1][..k] == ts[..k] && ts[..k + 1][k] == ts[k];
      ExtendAppend(edges, InlineEdges(src, ts[..k]), [Edge(src, ts[k], "inline")]);
      edges', seen', count' := AddEdge(edges', seen', count', Edge(src, ts[k], "inline"));
    }
    assert ts[..|ts|] == ts;
  }

  /** One option child: its targets, else the default edge to the next
      node. */
  method AddChild(src: string, child: Element, defaultRel: string, keys: seq<string>,
                  edges: seq<Edge>, seen: set<Edge>, count: nat)
    returns (edges': seq<Edge>, seen': set<Edge>, count': nat)
    requires Tracks(edges, seen)
    ensures edges' == Extend(edges, ChildEdges(src, child, defaultRel, NextNodeId(keys, src))) && Tracks(edges', seen')
    ensures count' == count + |edges'| - |edges|
  {
    var childFound;
    edges', seen', count', childFound := AddAttrTargets(src, child, ChildPrefix(child.tag), edges, seen, count);
    var attrEdges := AttrEdges(src, child, TargetAttrs, ChildPrefix(child.tag));
    if !childFound {
      var next := NextNodeId(keys, src);
      if next.Some? && next.value != "" {
        ExtendAppend(edges, attrEdges, [Edge(src, next.value, defaultRel)]);
        edges', seen', count' := AddEdge(edges', seen', count', Edge(src, next.value, defaultRel));
        return;
      }
    }
    assert attrEdges + [] == attrEdges;
  }

  /** Step 3 of `collect_edges`: a single option child, or each of several. */
  method AddOptionChildren(src: string, children: seq<Element>, keys: seq<string>,
                           edges: seq<Edge>, seen: set<Edge>, count: nat)
    returns (edges': seq<Edge>, seen': set<Edge>, count': nat)
    requires Tracks(edges, seen)
    ensures edges' == Extend(edges, OptionEdges(src, children, NextNodeId(keys, src))) && Tracks(edges', seen')
    ensures count' == count + |edges'| - |edges|
  {
    edges', seen', count' := edges, seen, count;
    if |children| > 0 {
      if |children| == 1 {
        edges', seen', count' := AddChild(src, children[0], SingleDefaultRel, keys, edges, seen, count);
      } else {
        var next := NextNodeId(keys, src);
        for k := 0 to |children|
          invariant edges' == Extend(edges, ManyChildEdges(src, children[..k], next)) && Tracks(edges', seen')
          invariant count' == count + |edges'| - |edges|
        {
          var child := children[k];
          assert children[..k + 1][..k] == children[..k] && children[..k + 1][k] == child;
          ExtendAppend(edges, ManyChildEdges(src, children[..k], next), ChildEdges(src, child, ManyDefaultRel(child.tag), next));
          edges', seen', count' := AddChild(src, child, ManyDefaultRel(child.tag), keys, edges', seen', count');
        }
        assert children[..|children|] == children;
      }
    }
  }

  /** `collect_edges`: the edges in the order they are appended, each once. */
  method CollectEdges(nodes: seq<GraphNode>, inline: string -> seq<string>) returns (edges: seq<Edge>)
    ensures edges == GraphEdges(nodes, inline)
  {
    var keys := Keys(nodes);
    edges := [];
    var seen: set<Edge> := {};
    for n := 0 to |nodes|
      invariant edges == GraphEdgesOf(nodes[..n], keys, inline) && Tracks(edges, seen)
    {
      var node := nodes[n];
      assert nodes[..n + 1][..n] == nodes[..n] && nodes[..n + 1][n] == node;
      var src := node.id;
      var start := edges;
      var count := 0;
      var found;
      edges, seen, count, found := AddAttrTargets(src, node.elem, "", edges, seen, count);
      edges, seen, count := AddInline(src, inline(node.elem.text), edges, seen, count);
      edges, seen, count := AddOptionChildren(src, OptionChildren(node.elem.children), keys, edges, seen, count);
      var own := AttrEdges(src, node.elem, TargetAttrs, "");
      var inl := InlineEdges(src, inline(node.elem.text));
      var options := OptionEdges(src, OptionChildren(node.elem.children), NextNodeId(keys, src));
      ExtendAppend(start, own, inl);
      ExtendAppend(start, own + inl, options);
      assert edges == Extend(start, Candidates(node, keys, inline));
      if count == 0 {
        var next := NextNodeId(keys, src);
        if next.Some? && next.value != "" {
          edges, seen, count := AddEdge(edges, seen, count, Edge(src, next.value, "default::next"));
        }
      }
    }
    assert nodes[..|nodes|] == nodes;
  }
}
