/** Builds a Story from the parsed document: one pass over the `<node>`
    children of the root, reading each node's own fields and then filling
    in what it leaves out from the node resolved just before it. */
module StoryLoader {
  import opened Wrappers
  import opened Text
  import opened Int32
  import opened XmlTree
  import opened StoryModels

  /** The exception thrown for a document without a root element. */
  datatype LoadError = InvalidStoryXml

  /** `string.IsNullOrEmpty`. */
  predicate IsNullOrEmpty(s: Option<string>) { s.None? || s.value == [] }

  /** `int.TryParse` on a possibly absent string: a null string fails. */
  function TryParse(s: Option<string>): Option<int32>
  {
    if s.None? then None else ParseInt32(s.value)
  }

  predicate IsComma(c: char) { c == ',' }
  predicate IsColon(c: char) { c == ':' }

  /** The results `f` gives for the elements of `xs`, in order, leaving out
      those it rejects: a `foreach` that appends only what parsed. */
  function Collect<A, B>(xs: seq<A>, f: A -> Option<B>): (r: seq<B>)
    ensures |r| <= |xs|
  {
    if xs == [] then []
    else
      var last := f(xs[|xs| - 1]);
      Collect(xs[..|xs| - 1], f) + (if last.Some? then [last.value] else [])
  }

  /** Collecting over a concatenation collects each half in turn. */
  lemma {:induction false} CollectAppend<A, B>(xs: seq<A>, ys: seq<A>, f: A -> Option<B>)
    ensures Collect(xs + ys, f) == Collect(xs, f) + Collect(ys, f)
  {
    if ys == [] {
      assert xs + ys == xs;
    } else {
      var zs := xs + ys;
      assert zs[..|zs| - 1] == xs + ys[..|ys| - 1];
      CollectAppend(xs, ys[..|ys| - 1], f);
    }
  }

  /** Exactly the accepted results appear: `y` is collected if and only if
      some element parses to it. */
  lemma {:induction false} CollectMembers<A, B>(xs: seq<A>, f: A -> Option<B>, y: B)
    ensures y in Collect(xs, f) <==> exists i :: 0 <= i < |xs| && f(xs[i]) == Some(y)
  {
    if xs != [] {
      var init := xs[..|xs| - 1];
      CollectMembers(init, f, y);
      if exists i :: 0 <= i < |xs| && f(xs[i]) == Some(y) {
        var i :| 0 <= i < |xs| && f(xs[i]) == Some(y);
        if i < |init| { assert f(init[i]) == Some(y); }
      }
      if exists i :: 0 <= i < |init| && f(init[i]) == Some(y) {
        var i :| 0 <= i < |init| && f(init[i]) == Some(y);
        assert f(xs[i]) == Some(y);
      }
    }
  }

  /** When every element parses, nothing is dropped. */
  lemma {:induction false} CollectAll<A, B>(xs: seq<A>, f: A -> Option<B>)
    requires forall i :: 0 <= i < |xs| ==> f(xs[i]).Some?
    ensures |Collect(xs, f)| == |xs|
    ensures forall i :: 0 <= i < |xs| ==> Collect(xs, f)[i] == f(xs[i]).value
  {
    if xs != [] {
      CollectAll(xs[..|xs| - 1], f);
    }
  }

  // ---- one field at a time --------------------------------------------

  /** A `<character>`: name defaults to "", side to "left". */
  function CharacterOf(c: Element): (r: CharacterState)
    ensures r.name == if "name" in c.attrs then c.attrs["name"] else ""
    ensures r.side == if "side" in c.attrs then c.attrs["side"] else "left"
    ensures r.image == if "image" in c.attrs then Some(c.attrs["image"]) else None
    ensures r.expression == if "expression" in c.attrs then Some(c.attrs["expression"]) else None
  {
    CharacterState(Attr(c, "name").GetOr(""), Attr(c, "image"), Attr(c, "side").GetOr("left"), Attr(c, "expression"))
  }

  /** A `<change counter delta>`, kept only with a non-empty counter and a
      delta that parses. */
  function ChangeOf(co: Element): (r: Option<CounterChange>)
    ensures r.Some? <==> !IsNullOrEmpty(Attr(co, "counter")) && TryParse(Attr(co, "delta")).Some?
    ensures r.Some? ==> r.value.counter == Attr(co, "counter").value && Some(r.value.delta) == TryParse(Attr(co, "delta"))
  {
    var counter := Attr(co, "counter");
    var delta := TryParse(Attr(co, "delta"));
    if !IsNullOrEmpty(counter) && delta.Some? then Some(CounterChange(counter.value, delta.value)) else None
  }

  /** One `name:delta` entry of an `affect` list: split on ':' with empty
      pieces dropped, kept when exactly two pieces remain and the second
      parses; the name is trimmed. An entry without ':', or of nothing but
      ':', is dropped. */
  function AffectEntry(p: string): (r: Option<CounterChange>)
    ensures FreeOf(p, IsColon) ==> r.None?
    ensures AllSep(p, IsColon) ==> r.None?
    ensures r.Some? ==> FreeOf(r.value.counter, IsColon)
    ensures r.Some? ==> (r.value.counter == [] ||
      (!IsNetWhiteSpace(r.value.counter[0]) && !IsNetWhiteSpace(r.value.counter[|r.value.counter| - 1])))
  {
    var kv := SplitNonEmpty(p, IsColon);
    SplitFreeOfSep(p, IsColon);
    SplitNonEmptyNone(p, IsColon);
    if |kv| == 2 && ParseInt32(kv[1]).Some? then
      TrimNetFreeOf(kv[0], IsColon);
      Some(CounterChange(TrimNet(kv[0]), ParseInt32(kv[1]).value))
    else None
  }

  /** The entries of an `affect` attribute: none when it is absent or empty,
      otherwise its comma-separated non-empty pieces. */
  function AffectParts(affect: Option<string>): seq<string>
  {
    if IsNullOrEmpty(affect) then [] else SplitNonEmpty(affect.value, IsComma)
  }

  function AffectChanges(affect: Option<string>): seq<CounterChange>
  {
    Collect(AffectParts(affect), AffectEntry)
  }

  /** An `<option>`: text defaults to "(选项)"; its changes are the valid
      `affect` entries followed by the valid `<change>` children. */
  function OptionOf(o: Element): (r: StoryOption)
    ensures r.text == if "text" in o.attrs then o.attrs["text"] else "(选项)"
    ensures r.goto == if "goto" in o.attrs then Some(o.attrs["goto"]) else None
  {
    StoryOption(Attr(o, "text").GetOr("(选项)"), Attr(o, "goto"),
                AffectChanges(Attr(o, "affect")) + Collect(Elements(o, "change"), ChangeOf))
  }

  /** A `<counterTrigger>`: counter, goto default to "", operator to ">=",
      value to "0"; dropped when the value does not parse. The operator is
      kept as written. */
  function TriggerOf(t: Element): (r: Option<CounterTrigger>)
    ensures r.Some? <==> ParseInt32(Attr(t, "value").GetOr("0")).Some?
  {
    var v := ParseInt32(Attr(t, "value").GetOr("0"));
    if v.Some? then
      Some(CounterTrigger(Attr(t, "counter").GetOr(""), Attr(t, "operator").GetOr(">="), v.value, Attr(t, "goto").GetOr("")))
    else None
  }

  /** The characters of a `<node>`, one per `<character>` child. */
  function CharactersOf(n: Element): (r: seq<CharacterState>)
    ensures |r| == |Elements(n, "character")|
    ensures forall k :: 0 <= k < |r| ==> r[k] == CharacterOf(Elements(n, "character")[k])
  {
    var cs := Elements(n, "character");
    seq(|cs|, i requires 0 <= i < |cs| => CharacterOf(cs[i]))
  }

  /** The options of a `<node>`, one per `<option>` child. */
  function OptionsOf(n: Element): (r: seq<StoryOption>)
    ensures |r| == |Elements(n, "option")|
    ensures forall k :: 0 <= k < |r| ==> r[k] == OptionOf(Elements(n, "option")[k])
  {
    var os := Elements(n, "option");
    seq(|os|, i requires 0 <= i < |os| => OptionOf(os[i]))
  }

  /** The trimmed content of the first `<text>` child, null without one. */
  function TextOf(n: Element): Option<string>
  {
    var t := FirstElement(n, "text");
    if t.Some? then Some(TrimNet(t.value.text)) else None
  }

  /** A `<node>` as written, before inheritance; `freshId` stands for the
      generated GUID used when there is no `id`. */
  function AuthoredNode(n: Element, freshId: string): StoryNode
  {
    StoryNode(
      Attr(n, "id").GetOr(freshId),
      Attr(n, "bg"), "bg" in n.attrs,
      Attr(n, "music"), "music" in n.attrs,
      Attr(n, "speaker"),
      TextOf(n),
      CharactersOf(n),
      OptionsOf(n),
      Collect(Elements(n, "change"), ChangeOf),
      Collect(Elements(n, "counterTrigger"), TriggerOf))
  }

  /** The inheritance rules against the previously resolved node: background
      and music unless named, the speaker when null or empty, the characters
      when there are none. The text is never inherited. */
  function Inherit(node: StoryNode, last: Option<StoryNode>): (r: StoryNode)
    ensures last.None? ==> r == node
    ensures r.id == node.id && r.text == node.text && r.options == node.options &&
      r.changes == node.changes && r.counterTriggers == node.counterTriggers &&
      r.backgroundExplicitlySet == node.backgroundExplicitlySet && r.musicExplicitlySet == node.musicExplicitlySet
    ensures node.backgroundExplicitlySet ==> r.background == node.background
    ensures node.musicExplicitlySet ==> r.music == node.music
    ensures !IsNullOrEmpty(node.speaker) ==> r.speaker == node.speaker
    ensures node.characters != [] ==> r.characters == node.characters
    ensures last.Some? && !node.backgroundExplicitlySet ==> r.background == last.value.background
    ensures last.Some? && !node.musicExplicitlySet ==> r.music == last.value.music
    ensures last.Some? && IsNullOrEmpty(node.speaker) ==> r.speaker == last.value.speaker
    ensures last.Some? && node.characters == [] ==> r.characters == last.value.characters
  {
    if last.None? then node
    else
      var prev := last.value;
      node.(background := if node.backgroundExplicitlySet then node.background else prev.background,
            music := if node.musicExplicitlySet then node.music else prev.music,
            speaker := if IsNullOrEmpty(node.speaker) then prev.speaker else node.speaker,
            characters := if node.characters == [] then prev.characters else node.characters)
  }

  /** The `<node>` elements `els` as written; the generated id of node `i`
      is `newGuid(i)`. */
  function AuthoredNodes(els: seq<Element>, newGuid: nat -> string): (r: seq<StoryNode>)
    ensures |r| == |els|
  {
    seq(|els|, i requires 0 <= i < |els| => AuthoredNode(els[i], newGuid(i)))
  }

  /** The inheritance pass over nodes in document order: each node against
      the node resolved just before it. */
  function InheritAll(ns: seq<StoryNode>): (r: seq<StoryNode>)
    ensures |r| == |ns|
  {
    if ns == [] then []
    else
      var prev := InheritAll(ns[..|ns| - 1]);
      prev + [Inherit(ns[|ns| - 1], if prev == [] then None else Some(prev[|prev| - 1]))]
  }

  /** The resolved nodes for the `<node>` elements `els`, in order. */
  function ResolveNodes(els: seq<Element>, newGuid: nat -> string): (r: seq<StoryNode>)
    ensures |r| == |els|
  {
    InheritAll(AuthoredNodes(els, newGuid))
  }

  /** One more node is resolved against the last one. */
  lemma InheritAllSnoc(ns: seq<StoryNode>, n: StoryNode)
    ensures var prev := InheritAll(ns);
      InheritAll(ns + [n]) == prev + [Inherit(n, if ns == [] then None else Some(prev[|prev| - 1]))]
  {
    assert (ns + [n])[..|ns|] == ns;
  }

  /** The nodes authored by a prefix of the elements are a prefix of the
      nodes. */
  lemma AuthoredPrefix(els: seq<Element>, newGuid: nat -> string, k: nat)
    requires k <= |els|
    ensures AuthoredNodes(els[..k], newGuid) == AuthoredNodes(els, newGuid)[..k]
  {
  }

  /** One more element resolves one more node, against the last one. */
  lemma ResolveNodesSnoc(els: seq<Element>, newGuid: nat -> string, i: nat)
    requires i < |els|
    ensures var prev := ResolveNodes(els[..i], newGuid);
      ResolveNodes(els[..i + 1], newGuid) ==
        prev + [Inherit(AuthoredNode(els[i], newGuid(i)), if i == 0 then None else Some(prev[i - 1]))]
  {
    var all := AuthoredNodes(els, newGuid);
    AuthoredPrefix(els, newGuid, i);
    AuthoredPrefix(els, newGuid, i + 1);
    PrefixStep(all, i);
    InheritAllSnoc(all[..i], all[i]);
  }

  /** What loading a document yields. */
  function Load(root: Option<Element>, newGuid: nat -> string): (r: Result<Story, LoadError>)
    ensures r.Failure? <==> root.None?
    ensures root.Some? ==> |r.value.nodes| == |Elements(root.value, "node")|
    ensures root.Some? && Elements(root.value, "node") == [] ==> r == Success(NewStory())
  {
    if root.None? then Failure(InvalidStoryXml)
    else Success(Story(ResolveNodes(Elements(root.value, "node"), newGuid)))
  }

  // ---- the loader's loops -------------------------------------------------

  method ReadCharacters(n: Element) returns (chars: seq<CharacterState>)
    ensures chars == CharactersOf(n)
  {
    var cs := Elements(n, "character");
    chars := [];
    for i := 0 to |cs|
      invariant |chars| == i
      invariant forall k :: 0 <= k < i ==> chars[k] == CharacterOf(cs[k])
    {
      var c := cs[i];
      var state := CharacterState(Attr(c, "name").GetOr(""), Attr(c, "image"), Attr(c, "side").GetOr("left"), Attr(c, "expression"));
      chars := chars + [state];
    }
  }

  /** The `<change>` loop, shared by options and nodes. */
  method ReadChanges(els: seq<Element>) returns (changes: seq<CounterChange>)
    ensures changes == Collect(els, ChangeOf)
  {
    changes := [];
    for i := 0 to |els|
      invariant changes == Collect(els[..i], ChangeOf)
    {
      assert els[..i + 1][..i] == els[..i];
      var counter := Attr(els[i], "counter");
      var deltaStr := Attr(els[i], "delta");
      var delta := TryParse(deltaStr);
      if !IsNullOrEmpty(counter) && delta.Some? {
        changes := changes + [CounterChange(counter.value, delta.value)];
      }
    }
    assert els[..|els|] == els;
  }

  /** The `affect` loop. */
  method ReadAffect(affect: Option<string>) returns (changes: seq<CounterChange>)
    ensures changes == AffectChanges(affect)
  {
    changes := [];
    if !IsNullOrEmpty(affect) {
      var parts := SplitNonEmpty(affect.value, IsComma);
      for i := 0 to |parts|
        invariant changes == Collect(parts[..i], AffectEntry)
      {
        assert parts[..i + 1][..i] == parts[..i];
        var kv := SplitNonEmpty(parts[i], IsColon);
        if |kv| == 2 {
          var delta := ParseInt32(kv[1]);
          if delta.Some? {
            changes := changes + [CounterChange(TrimNet(kv[0]), delta.value)];
          }
        }
      }
      assert parts[..|parts|] == parts;
    }
  }

  method ReadOption(o: Element) returns (opt: StoryOption)
    ensures opt == OptionOf(o)
  {
    var fromAffect := ReadAffect(Attr(o, "affect"));
    var fromChildren := ReadChanges(Elements(o, "change"));
    opt := StoryOption(Attr(o, "text").GetOr("(选项)"), Attr(o, "goto"), fromAffect + fromChildren);
  }

  method ReadOptions(n: Element) returns (opts: seq<StoryOption>)
    ensures opts == OptionsOf(n)
  {
    var os := Elements(n, "option");
    ghost var all := OptionsOf(n);
    opts := [];
    for i := 0 to |os|
      invariant opts == all[..i]
    {
      var opt := ReadOption(os[i]);
      PrefixStep(all, i);
      opts := opts + [opt];
    }
    assert all[..|os|] == all;
  }

  /** A prefix one longer is the prefix and the next element. */
  lemma PrefixStep<T>(s: seq<T>, i: nat)
    requires i < |s|
    ensures s[..i + 1] == s[..i] + [s[i]]
  {
  }

  method ReadTriggers(n: Element) returns (triggers: seq<CounterTrigger>)
    ensures triggers == Collect(Elements(n, "counterTrigger"), TriggerOf)
  {
    var ts := Elements(n, "counterTrigger");
    triggers := [];
    for i := 0 to |ts|
      invariant triggers == Collect(ts[..i], TriggerOf)
    {
      assert ts[..i + 1][..i] == ts[..i];
      var t := ts[i];
      var counter := Attr(t, "counter").GetOr("");
      var v := Attr(t, "value").GetOr("0");
      var gotoId := Attr(t, "goto").GetOr("");
      var op := Attr(t, "operator").GetOr(">=");
      var val := ParseInt32(v);
      if val.Some? {
        triggers := triggers + [CounterTrigger(counter, op, val.value, gotoId)];
      }
    }
    assert ts[..|ts|] == ts;
  }

  method ReadNode(n: Element, freshId: string) returns (node: StoryNode)
    ensures node == AuthoredNode(n, freshId)
  {
    var textElem := FirstElement(n, "text");
    node := NewStoryNode().(
      id := Attr(n, "id").GetOr(freshId),
      background := Attr(n, "bg"), backgroundExplicitlySet := "bg" in n.attrs,
      music := Attr(n, "music"), musicExplicitlySet := "music" in n.attrs,
      speaker := Attr(n, "speaker"),
      text := if textElem.Some? then Some(TrimNet(textElem.value.text)) else None);
    var chars := ReadCharacters(n);
    var opts := ReadOptions(n);
    var changes := ReadChanges(Elements(n, "change"));
    var triggers := ReadTriggers(n);
    node := node.(characters := chars, options := opts, changes := changes, counterTriggers := triggers);
  }

  /** The inheritance pass of one node against the node resolved before it. */
  method InheritFrom(node: StoryNode, last: StoryNode) returns (resolved: StoryNode)
    ensures resolved == Inherit(node, Some(last))
  {
    resolved := node;
    if !resolved.backgroundExplicitlySet { resolved := resolved.(background := last.background); }
    if !resolved.musicExplicitlySet { resolved := resolved.(music := last.music); }
    if IsNullOrEmpty(resolved.speaker) { resolved := resolved.(speaker := last.speaker); }
    if |resolved.characters| == 0 {
      var copies: seq<CharacterState> := [];
      for j := 0 to |last.characters|
        invariant copies == last.characters[..j]
      {
        var c := last.characters[j];
        copies := copies + [CharacterState(c.name, c.image, c.side, c.expression)];
      }
      resolved := resolved.(characters := copies);
    }
  }

  /** `StoryLoader.LoadFromFile` once the document is parsed: `root` is the
      document's root element, if it has one. */
  method LoadFromFile(root: Option<Element>, newGuid: nat -> string) returns (r: Result<Story, LoadError>)
    ensures r == Load(root, newGuid)
  {
    if root.None? {
      return Failure(InvalidStoryXml);
    }
    var els := Elements(root.value, "node");
    var nodes: seq<StoryNode> := [];
    var lastResolved: Option<StoryNode> := None;
    for i := 0 to |els|
      invariant nodes == ResolveNodes(els[..i], newGuid)
      invariant lastResolved == if i == 0 then None else Some(nodes[i - 1])
    {
      ResolveNodesSnoc(els, newGuid, i);
      var node := ReadNode(els[i], newGuid(i));
      if lastResolved.Some? {
        node := InheritFrom(node, lastResolved.value);
      }
      nodes := nodes + [node];
      lastResolved := Some(node);
    }
    assert els[..|els|] == els;
    return Success(Story(nodes));
  }

  // ---- what loading promises ---------------------------------------------

  /** The inheritance pass over a prefix is the prefix of the pass. */
  lemma {:induction false} InheritAllPrefix(ns: seq<StoryNode>, k: nat)
    requires k <= |ns|
    ensures InheritAll(ns[..k]) == InheritAll(ns)[..k]
  {
    if k < |ns| {
      var init := ns[..|ns| - 1];
      assert ns[..k] == init[..k];
      InheritAllPrefix(init, k);
    } else {
      assert ns[..k] == ns;
    }
  }

  /** Node `i` of the pass is node `i` resolved against node `i - 1` of the
      pass. */
  lemma {:induction false} InheritAllAt(ns: seq<StoryNode>, i: nat)
    requires i < |ns|
    ensures var r := InheritAll(ns);
      r[i] == Inherit(ns[i], if i == 0 then None else Some(r[i - 1]))
  {
    var init := ns[..|ns| - 1];
    var prev := InheritAll(init);
    if i < |init| {
      InheritAllAt(init, i);
      assert init[i] == ns[i];
    }
  }

  /** Resolving a prefix of the elements gives the same prefix of nodes:
      a node's resolution never depends on the nodes after it. */
  lemma ResolvePrefix(els: seq<Element>, newGuid: nat -> string, k: nat)
    requires k <= |els|
    ensures ResolveNodes(els[..k], newGuid) == ResolveNodes(els, newGuid)[..k]
  {
    AuthoredPrefix(els, newGuid, k);
    InheritAllPrefix(AuthoredNodes(els, newGuid), k);
  }

  /** Node `i` is its own authored fields with the inheritance rules applied
      against node `i - 1` as resolved (none for the first node). */
  lemma ResolvedNode(els: seq<Element>, newGuid: nat -> string, i: nat)
    requires i < |els|
    ensures var nodes := ResolveNodes(els, newGuid);
      nodes[i] == Inherit(AuthoredNode(els[i], newGuid(i)), if i == 0 then None else Some(nodes[i - 1]))
  {
    InheritAllAt(AuthoredNodes(els, newGuid), i);
  }

  /** Background: the flag says whether `bg` was written; a written value,
      the empty string included, is kept; otherwise the previous node's
      resolved background is taken, and the first node stays null. */
  lemma BackgroundRule(els: seq<Element>, newGuid: nat -> string, i: nat)
    requires i < |els|
    ensures var nodes := ResolveNodes(els, newGuid);
      && (nodes[i].backgroundExplicitlySet <==> "bg" in els[i].attrs)
      && ("bg" in els[i].attrs ==> nodes[i].background == Some(els[i].attrs["bg"]))
      && ("bg" !in els[i].attrs && i == 0 ==> nodes[i].background == None)
      && ("bg" !in els[i].attrs && i > 0 ==> nodes[i].background == nodes[i - 1].background)
  {
    ResolvedNode(els, newGuid, i);
  }

  /** Music follows the same rule as the background. */
  lemma MusicRule(els: seq<Element>, newGuid: nat -> string, i: nat)
    requires i < |els|
    ensures var nodes := ResolveNodes(els, newGuid);
      && (nodes[i].musicExplicitlySet <==> "music" in els[i].attrs)
      && ("music" in els[i].attrs ==> nodes[i].music == Some(els[i].attrs["music"]))
      && ("music" !in els[i].attrs && i == 0 ==> nodes[i].music == None)
      && ("music" !in els[i].attrs && i > 0 ==> nodes[i].music == nodes[i - 1].music)
  {
    ResolvedNode(els, newGuid, i);
  }

  /** A null or empty speaker is replaced by the previous resolved node's
      speaker; a non-empty one is kept. */
  lemma SpeakerRule(els: seq<Element>, newGuid: nat -> string, i: nat)
    requires i < |els|
    ensures var nodes := ResolveNodes(els, newGuid); var own := Attr(els[i], "speaker");
      && (!IsNullOrEmpty(own) || i == 0 ==> nodes[i].speaker == own)
      && (IsNullOrEmpty(own) && i > 0 ==> nodes[i].speaker == nodes[i - 1].speaker)
  {
    ResolvedNode(els, newGuid, i);
  }

  /** The text is the trimmed content of the first `<text>` child, never
      anything inherited, even when it is absent or empty. */
  lemma TextNeverInherited(els: seq<Element>, newGuid: nat -> string, i: nat)
    requires i < |els|
    ensures var t := FirstElement(els[i], "text");
      ResolveNodes(els, newGuid)[i].text == if t.Some? then Some(TrimNet(t.value.text)) else None
  {
    ResolvedNode(els, newGuid, i);
  }

  /** A node with its own characters keeps exactly that list; a node with
      none gets the previous node's list, same length, order and fields. */
  lemma CharactersRule(els: seq<Element>, newGuid: nat -> string, i: nat)
    requires i < |els|
    ensures var nodes := ResolveNodes(els, newGuid); var own := Elements(els[i], "character");
      && (own != [] ==> (|nodes[i].characters| == |own| &&
            forall k :: 0 <= k < |own| ==> nodes[i].characters[k] == CharacterOf(own[k])))
      && (own == [] && i == 0 ==> nodes[i].characters == [])
      && (own == [] && i > 0 ==> nodes[i].characters == nodes[i - 1].characters)
  {
    ResolvedNode(els, newGuid, i);
  }

  /** Id, options, changes and triggers are the node's own; the id falls back
      to the generated one only when `id` is absent. */
  lemma OwnFieldsRule(els: seq<Element>, newGuid: nat -> string, i: nat)
    requires i < |els|
    ensures var node := ResolveNodes(els, newGuid)[i]; var own := AuthoredNode(els[i], newGuid(i));
      && node.id == (if "id" in els[i].attrs then els[i].attrs["id"] else newGuid(i))
      && node.options == own.options && node.changes == own.changes
      && node.counterTriggers == own.counterTriggers
  {
    ResolvedNode(els, newGuid, i);
  }

  /** A change is collected from `<change>` elements exactly when one of
      them names a non-empty counter with a delta that parses. */
  lemma ChangesCollected(es: seq<Element>, c: CounterChange)
    ensures c in Collect(es, ChangeOf) <==>
      exists e :: e in es && Attr(e, "counter") == Some(c.counter) &&
        c.counter != "" && TryParse(Attr(e, "delta")) == Some(c.delta)
  {
    CollectMembers(es, ChangeOf, c);
    if c in Collect(es, ChangeOf) {
      var i :| 0 <= i < |es| && ChangeOf(es[i]) == Some(c);
      assert es[i] in es;
    }
    if exists e :: e in es && Attr(e, "counter") == Some(c.counter) &&
        c.counter != "" && TryParse(Attr(e, "delta")) == Some(c.delta) {
      var e :| e in es && Attr(e, "counter") == Some(c.counter) &&
        c.counter != "" && TryParse(Attr(e, "delta")) == Some(c.delta);
      var i :| 0 <= i < |es| && es[i] == e;
      assert ChangeOf(es[i]) == Some(c);
    }
  }

  /** A node-level change is kept exactly when some `<change>` child names
      a non-empty counter with a delta that parses; the others are skipped. */
  lemma NodeChangesRule(n: Element, freshId: string, c: CounterChange)
    ensures c in AuthoredNode(n, freshId).changes <==>
      exists e :: e in Elements(n, "change") && Attr(e, "counter") == Some(c.counter) &&
        c.counter != "" && TryParse(Attr(e, "delta")) == Some(c.delta)
  {
    assert AuthoredNode(n, freshId).changes == Collect(Elements(n, "change"), ChangeOf);
    ChangesCollected(Elements(n, "change"), c);
  }

  /** A trigger's missing attributes take their defaults, a missing value
      reads as "0", and the operator is stored as written, recognised or
      not. */
  lemma TriggerRule(t: Element)
    ensures TriggerOf(t).Some? ==>
      && TriggerOf(t).value.counter == (if "counter" in t.attrs then t.attrs["counter"] else "")
      && TriggerOf(t).value.goto == (if "goto" in t.attrs then t.attrs["goto"] else "")
      && TriggerOf(t).value.operator == (if "operator" in t.attrs then t.attrs["operator"] else ">=")
      && Some(TriggerOf(t).value.value) == ParseInt32(if "value" in t.attrs then t.attrs["value"] else "0")
    ensures "value" !in t.attrs ==> TriggerOf(t).Some? && TriggerOf(t).value.value == 0
    ensures t.attrs == map[] ==> TriggerOf(t) == Some(NewCounterTrigger())
  {
    assert NatDigits(0) == "0";
    ParseNatDigits(0);
  }

  /** An element with no attributes and no children gives the default
      record, except that an option's text defaults to "(选项)" and a node's
      id is the generated one; a bare `<counterTrigger>` is kept (its value
      reads as "0") and a bare `<change>` is dropped. */
  lemma BareElementsGiveDefaults(tag: string, freshId: string)
    ensures var bare := Element(tag, map[], "", []);
      && CharacterOf(bare) == NewCharacterState()
      && OptionOf(bare) == NewStoryOption().(text := "(选项)")
      && AuthoredNode(bare, freshId) == NewStoryNode().(id := freshId)
      && TriggerOf(bare) == Some(NewCounterTrigger())
      && ChangeOf(bare).None?
  {
    var bare := Element(tag, map[], "", []);
    BareNode(bare, freshId);
    BareOption(bare);
    TriggerRule(bare);
  }

  lemma BareOption(bare: Element)
    requires bare.attrs == map[] && bare.children == []
    ensures OptionOf(bare) == NewStoryOption().(text := "(选项)")
  {
    assert Elements(bare, "change") == [];
  }

  lemma BareNode(bare: Element, freshId: string)
    requires bare.attrs == map[] && bare.children == []
    ensures AuthoredNode(bare, freshId) == NewStoryNode().(id := freshId)
  {
    assert Elements(bare, "character") == [] && Elements(bare, "option") == [];
  }

  /** The entries of an option's change list are the valid `affect`
      entries, in order, followed by the valid `<change>` children. */
  lemma OptionChangesOrder(o: Element)
    ensures var changes := OptionOf(o).changes; var parts := AffectParts(Attr(o, "affect"));
      var na := |Collect(parts, AffectEntry)|; var cs := Elements(o, "change");
      && na <= |changes|
      && (forall c :: c in changes[..na] <==> exists i :: 0 <= i < |parts| && AffectEntry(parts[i]) == Some(c))
      && (forall c :: c in changes[na..] <==> exists i :: 0 <= i < |cs| && ChangeOf(cs[i]) == Some(c))
  {
    var changes := OptionOf(o).changes;
    var parts := AffectParts(Attr(o, "affect"));
    var fromAffect := Collect(parts, AffectEntry);
    var fromChildren := Collect(Elements(o, "change"), ChangeOf);
    assert changes[..|fromAffect|] == fromAffect;
    assert changes[|fromAffect|..] == fromChildren;
    forall c ensures c in fromAffect <==> exists i :: 0 <= i < |parts| && AffectEntry(parts[i]) == Some(c) {
      CollectMembers(parts, AffectEntry, c);
    }
    forall c ensures c in fromChildren <==> exists i :: 0 <= i < |Elements(o, "change")| && ChangeOf(Elements(o, "change")[i]) == Some(c) {
      CollectMembers(Elements(o, "change"), ChangeOf, c);
    }
  }

  // ---- the compact `affect` form -----------------------------------------

  /** A counter name that can be written in an `affect` list: non-empty,
      without ',' or ':', and without white space at either end. */
  predicate WritableName(name: string)
  {
    name != [] && FreeOf(name, IsComma) && FreeOf(name, IsColon) &&
    !IsNetWhiteSpace(name[0]) && !IsNetWhiteSpace(name[|name| - 1])
  }

  function AffectEntryText(c: CounterChange): string
  {
    c.counter + ":" + SignedDecimal(c.delta)
  }

  /** How an author writes a list of changes as `affect="like:+1,trust:-2"`. */
  function AffectText(changes: seq<CounterChange>): string
  {
    Join(seq(|changes|, i requires 0 <= i < |changes| => AffectEntryText(changes[i])), ',')
  }

  lemma FreeOfConcat(a: string, b: string, sep: char -> bool)
    ensures FreeOf(a + b, sep) <==> FreeOf(a, sep) && FreeOf(b, sep)
  {
    if FreeOf(a, sep) && FreeOf(b, sep) {
      forall i | 0 <= i < |a + b| ensures !sep((a + b)[i]) {
        if i >= |a| { assert (a + b)[i] == b[i - |a|]; }
      }
    }
    if FreeOf(a + b, sep) {
      forall i | 0 <= i < |a| ensures !sep(a[i]) { assert (a + b)[i] == a[i]; }
      forall i | 0 <= i < |b| ensures !sep(b[i]) { assert (a + b)[|a| + i] == b[i]; }
    }
  }

  lemma JoinTwo(a: string, b: string, sep: char)
    ensures Join([a, b], sep) == a + [sep] + b
  {
    assert [a, b][1..] == [b];
  }

  lemma SignedDecimalFree(n: int32)
    ensures FreeOf(SignedDecimal(n), IsColon) && FreeOf(SignedDecimal(n), IsComma)
  {
    var d := SignedDecimal(n);
    forall i | 0 <= i < |d| ensures d[i] != ':' && d[i] != ',' {
      if i > 0 { assert d[1..][i - 1] == d[i]; }
    }
  }

  lemma EntryPieces(name: string, d: string)
    requires name != [] && d != [] && FreeOf(name, IsColon) && FreeOf(d, IsColon)
    ensures SplitNonEmpty(name + ":" + d, IsColon) == [name, d]
  {
    JoinTwo(name, d, ':');
    SplitNonEmptyJoin([name, d], ':', IsColon);
  }

  /** An entry is its ':'-free pieces between runs of ':' (`a:b`, `a::b`,
      `:a:b:`, `like:`, `a:b:1`). It is kept exactly when there are two
      pieces and the second parses, and then it is the trimmed first piece
      with that delta. */
  lemma AffectEntryPieces(first: string, pieces: seq<string>, gaps: seq<string>, last: string)
    requires AllSep(first, IsColon) && AllSep(last, IsColon)
    requires |gaps| + 1 == |pieces|
    requires forall k :: 0 <= k < |pieces| ==> pieces[k] != [] && FreeOf(pieces[k], IsColon)
    requires forall k :: 0 <= k < |gaps| ==> gaps[k] != [] && AllSep(gaps[k], IsColon)
    ensures var e := AffectEntry(first + JoinWith(pieces, gaps) + last);
      && (|pieces| != 2 ==> e.None?)
      && (|pieces| == 2 ==> e == if ParseInt32(pieces[1]).Some?
            then Some(CounterChange(TrimNet(pieces[0]), ParseInt32(pieces[1]).value)) else None)
  {
    SplitNonEmptyRuns(first, pieces, gaps, last, IsColon);
  }

  /** `name:d` is kept exactly when `d` parses, as the trimmed name with
      that delta: `" like : 2 "` and `"like:2"` give like += 2, while
      `"like:abc"` is dropped. */
  lemma AffectEntryOfPair(name: string, d: string)
    requires name != [] && d != [] && FreeOf(name, IsColon) && FreeOf(d, IsColon)
    ensures AffectEntry(name + ":" + d) ==
      if ParseInt32(d).Some? then Some(CounterChange(TrimNet(name), ParseInt32(d).value)) else None
  {
    EntryPieces(name, d);
  }

  /** An entry with three pieces, such as `a:b:1`, is dropped. */
  lemma AffectEntryOfThree(a: string, b: string, c: string)
    requires a != [] && b != [] && c != []
    requires FreeOf(a, IsColon) && FreeOf(b, IsColon) && FreeOf(c, IsColon)
    ensures AffectEntry(a + ":" + b + ":" + c) == None
  {
    assert [a, b, c][1..] == [b, c] && [":", ":"][1..] == [":"];
    assert JoinWith([b, c], [":"]) == b + ":" + c;
    assert JoinWith([a, b, c], [":", ":"]) == a + ":" + (b + ":" + c);
    assert a + ":" + (b + ":" + c) == a + ":" + b + ":" + c;
    assert [] + (a + ":" + b + ":" + c) + [] == a + ":" + b + ":" + c;
    AffectEntryPieces([], [a, b, c], [":", ":"], []);
  }

  /** A name followed only by colons, such as `like:`, is dropped. */
  lemma AffectEntryOfName(name: string, last: string)
    requires name != [] && FreeOf(name, IsColon) && AllSep(last, IsColon)
    ensures AffectEntry(name + last) == None
  {
    assert [] + JoinWith([name], []) + last == name + last;
    AffectEntryPieces([], [name], [], last);
  }

  lemma EntryFreeOfComma(name: string, d: string)
    requires FreeOf(name, IsComma) && FreeOf(d, IsComma)
    ensures FreeOf(name + ":" + d, IsComma)
  {
    FreeOfConcat(name, ":", IsComma);
    FreeOfConcat(name + ":", d, IsComma);
  }

  lemma AffectEntryRoundTrip(c: CounterChange)
    requires WritableName(c.counter)
    ensures AffectEntryText(c) != [] && FreeOf(AffectEntryText(c), IsComma)
    ensures AffectEntry(AffectEntryText(c)) == Some(c)
  {
    var d := SignedDecimal(c.delta);
    SignedDecimalFree(c.delta);
    EntryPieces(c.counter, d);
    EntryFreeOfComma(c.counter, d);
    ParseSignedDecimal(c.delta);
    assert TrimNet(c.counter) == c.counter;
  }

  /** Entries that each parse to the matching change collect to exactly
      those changes. */
  lemma CollectEntries(parts: seq<string>, changes: seq<CounterChange>)
    requires |parts| == |changes|
    requires forall i :: 0 <= i < |parts| ==> AffectEntry(parts[i]) == Some(changes[i])
    ensures Collect(parts, AffectEntry) == changes
  {
    CollectAll(parts, AffectEntry);
  }

  /** Writing changes in the compact form and loading them gives them back,
      in order. */
  lemma AffectRoundTrip(changes: seq<CounterChange>)
    requires forall i :: 0 <= i < |changes| ==> WritableName(changes[i].counter)
    ensures AffectChanges(Some(AffectText(changes))) == changes
  {
    var parts := seq(|changes|, i requires 0 <= i < |changes| => AffectEntryText(changes[i]));
    forall i | 0 <= i < |changes|
      ensures parts[i] != [] && FreeOf(parts[i], IsComma) && AffectEntry(parts[i]) == Some(changes[i])
    {
      AffectEntryRoundTrip(changes[i]);
    }
    var text := Join(parts, ',');
    assert AffectText(changes) == text;
    SplitNonEmptyJoin(parts, ',', IsComma);
    if changes != [] {
      JoinNonEmpty(parts, ',');
      assert AffectParts(Some(text)) == parts;
    } else {
      assert AffectParts(Some(text)) == [];
    }
    CollectEntries(parts, changes);
  }

  lemma JoinNonEmpty(parts: seq<string>, sep: char)
    requires parts != [] && parts[0] != []
    ensures Join(parts, sep) != []
  {
  }

  lemma AffectPartsOfPair(a: string, b: string)
    requires a != [] && b != [] && FreeOf(a, IsComma) && FreeOf(b, IsComma)
    ensures AffectParts(Some(a + "," + b)) == [a, b]
  {
    JoinTwo(a, b, ',');
    SplitNonEmptyJoin([a, b], ',', IsComma);
  }

  lemma CollectPair<A, B>(x: A, y: A, f: A -> Option<B>)
    ensures Collect([x, y], f) == (if f(x).Some? then [f(x).value] else []) + (if f(y).Some? then [f(y).value] else [])
  {
    assert [x, y][..1] == [x];
    assert [x][..0] == [];
  }

  /** A malformed entry is skipped and the well-formed one after it still
      applies; `"bad,like:+2"` loads as the single change `like += 2`. */
  lemma AffectSkipsMalformed(bad: string, good: CounterChange)
    requires bad != [] && FreeOf(bad, IsComma) && AffectEntry(bad) == None
    requires WritableName(good.counter)
    ensures AffectChanges(Some(bad + "," + AffectEntryText(good))) == [good]
  {
    AffectEntryRoundTrip(good);
    AffectPartsOfPair(bad, AffectEntryText(good));
    CollectPair(bad, AffectEntryText(good), AffectEntry);
  }
}
