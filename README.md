# GalGE story core in Dafny

GalGE is a small visual-novel engine. A story is an XML document of
`<node>` elements. Each node carries a speaker, a line of text, a
background, music, characters on stage, choices (`<option>`), counter
changes (`<change>`) and counter triggers (`<counterTrigger>`). This
project models the engine's core and proves properties of it:

- **Story records** (`story_models.dfy`). These are the Story,
  StoryNode, CharacterState, StoryOption, CounterChange and
  CounterTrigger records, with the defaults their initialisers give.
- **The loader** (`story_loader.dfy`). It turns a parsed document into a
  resolved Story. Each node's own fields are read: its characters, its
  options with their `affect="name:+1,other:-2"` shorthand and their
  `<change>` children, its changes and its triggers. Then background,
  music, speaker and the character list are inherited from the previous
  resolved node. The pure functions say what a load yields. The methods
  are the loader's loops, each proved equal to its function.
- **The engine** (`story_engine.dfy`). The class `Engine` has the
  engine's fields: the story, the position, the counter table, and a
  trace of the notifications it fired. Its methods are Start, Next,
  ApplyOption, ApplyChanges, LoadFromFile, the node-activation sequence
  and the trigger check. Each method is proved against a state-machine
  function. Lemmas about those functions then give the engine's
  guarantees:
  - a node is announced before its changes apply;
  - the first trigger that fires wins, and a jump re-activates the
    target node;
  - the story-ended notification is sent when traversal passes the last
    node;
  - in the two end-to-end stories (a one-node story, and a choice that a
    trigger sends back) the engine announces the nodes and ends the
    story in the order the code gives.
- **Integer semantics** (`int32.dfy`). Counters are C# `int`.
  Additions wrap modulo 2^32 in an unchecked context. `int.TryParse`
  accepts surrounding white space, an optional sign and digits within
  range.
- **Text helpers** (`text.dfy`). These cover `String.Trim`, Python's
  `str.strip`, `String.Split` with `RemoveEmptyEntries`, and joining.
  Lemmas prove that splitting undoes joining.
- **The parsed document tree** (`xml_tree.dfy`). It has elements with
  a tag, attributes, text and children, plus `Attribute`,
  `Elements(tag)`, `Element(tag)` and document-order iteration.
- **The QuickView graph extractor** (`xml_view.dfy`). This is the
  Python tool that draws a story as a graph. It covers `find_id`,
  `label_for`, `collect_nodes` (first occurrence of each id wins, in
  document order), `next_node_id`, and `collect_edges`, whose rules
  are:
  - explicit target attributes;
  - inline gotos;
  - option children, with a default edge to the next node when a child
    names no target;
  - a `default::next` edge for a node with no other out-edge.

  The imperative `collect_edges` loop, with its `seen` set and
  `outgoing_count`, is proved equal to a functional definition. The
  rules are then proved about that definition.

The engine's notifications are a trace of `Event` values in the
engine's state. Each `NodeChanged` event carries the node and the
counter table at the moment it fired.

Trigger chains can cycle, because the source recurses without bound.
So the activation sequence takes a `fuel` bound and reports whether it
completed within it. Lemmas show that more fuel changes nothing once a
run has completed.

Generated node ids (C# `Guid.NewGuid()`) are a parameter `newGuid`
that maps a node's index to its id. The inline-goto regular expression
is a parameter `inline`.

Next after the end: the code increments the position again and fires
the story-ended notification once more on every further call.
`StoryEngine.NextPastEnd` states that behaviour.

## Model

| member | source | states |
|---|---|---|
| StoryModels.DefaultValues | Models/StoryModels.cs:6-65 | a fresh record holds the initialiser defaults: empty id and lists, null background, music, speaker and text, side "left", operator ">=", delta and value 0 |
| Int32.Wrap | StoryEngine.cs:72 | the wrapped value is congruent to the input modulo 2^32, and equals it when it is in the 32-bit range |
| Int32.Add | StoryEngine.cs:72 | `a + b` on C# `int` is congruent to the exact sum modulo 2^32, and is the exact sum whenever that fits in 32 bits |
| Int32.WrapAdd | StoryEngine.cs:66-74 | a chain of unchecked additions equals the wrapped exact total |
| Int32.ParseSignedDecimal | StoryLoader.cs:63 | `int.TryParse` reads every 32-bit value back from its signed decimal spelling (`+3`, `-12`) |
| Int32.ParseDigits | StoryLoader.cs:102 | a run of digits whose value fits parses to that value |
| Int32.ParseNatDigits | StoryLoader.cs:99-102 | the decimal spelling of any in-range natural, "0" among them, parses back to it |
| Int32.ParseInt32Numeral | StoryLoader.cs:102 | `int.TryParse` succeeds only when the text between the white space is an optional sign and at least one digit, and then yields the value they spell; every such numeral in the 32-bit range is accepted with that value |
| XmlTree.Attr | StoryLoader.cs:24-29 | an attribute read gives a value exactly when the element has that attribute, and that value is the attribute's |
| XmlTree.Tagged | StoryLoader.cs:34 | `Elements(tag)` keeps exactly the children with that tag, and no others |
| XmlTree.TaggedSingle | StoryLoader.cs:34 | one child is kept exactly when its tag matches |
| XmlTree.TaggedAppend | StoryLoader.cs:34 | the tagged children of a concatenation are those of the first part followed by those of the second, so document order and repeats are kept |
| XmlTree.FirstElement | StoryLoader.cs:30 | `Element(tag)` finds a child exactly when one has that tag, and what it returns is the first child with that tag |
| XmlTree.FirstIndex | StoryLoader.cs:30 | the index found has the tag and no earlier child has it; none is found only when no child has the tag |
| XmlTree.Iter | QuickView/XmlView.py:44 | `iter()` starts with the element itself |
| XmlTree.IterAllAppend | QuickView/XmlView.py:44 | iterating a list of siblings visits each sibling's whole subtree in turn |
| XmlTree.IterDescendants | QuickView/XmlView.py:44 | every element of a child's subtree is visited after the element itself |
| StoryLoader.CollectMembers | StoryLoader.cs:85-93 | a value is collected iff some input entry reads as it |
| StoryLoader.ChangeOf | StoryLoader.cs:87-92 | a `<change>` yields a change exactly when its counter is non-empty and its delta parses |
| StoryLoader.CharacterOf | StoryLoader.cs:36-42 | each field is its attribute when present; name defaults to "", side to "left", image and expression to null |
| StoryLoader.AffectEntry | StoryLoader.cs:62-66 | an entry without ':', or made only of ':', is dropped; a kept entry's counter holds no ':' and is trimmed of white space |
| StoryLoader.AffectEntryPieces | StoryLoader.cs:62-66 | for an entry made of ':'-free pieces between runs of ':', the entry is kept exactly when there are two pieces and the second parses, and then it is the trimmed first piece with the parsed delta |
| StoryLoader.AffectEntryOfPair | StoryLoader.cs:62-66 | `name:d` gives the trimmed name with delta `d` when `d` parses, and is dropped when it does not |
| StoryLoader.AffectEntryOfThree | StoryLoader.cs:62-63 | an entry of three pieces such as `a:b:1` is dropped |
| StoryLoader.AffectEntryOfName | StoryLoader.cs:62-63 | a name followed only by colons, such as `like:`, is dropped |
| StoryLoader.OptionOf | StoryLoader.cs:49-53 | the option text is its attribute or "(选项)", and the goto is the raw attribute or null |
| StoryLoader.TriggerOf | StoryLoader.cs:96-106 | a `<counterTrigger>` is kept exactly when its value, "0" when absent, parses |
| StoryLoader.CharactersOf | StoryLoader.cs:34-44 | one character per `<character>` child, character k read from child k |
| StoryLoader.OptionsOf | StoryLoader.cs:47-82 | one option per `<option>` child, option k read from child k |
| StoryLoader.ReadCharacters | StoryLoader.cs:34-44 | the character loop yields `CharactersOf` |
| StoryLoader.ReadChanges | StoryLoader.cs:71-79 | the `<change>` loop yields the collected valid changes |
| StoryLoader.ReadAffect | StoryLoader.cs:56-68 | the `affect` loop yields `AffectChanges` of the attribute, and nothing when it is null or empty |
| StoryLoader.ReadOption | StoryLoader.cs:49-81 | an option's text defaults to "(选项)"; its goto is the raw attribute; its changes are the affect entries followed by the `<change>` children |
| StoryLoader.ReadOptions | StoryLoader.cs:47-82 | the option loop yields `OptionsOf` |
| StoryLoader.ReadTriggers | StoryLoader.cs:96-106 | the trigger loop yields the triggers whose value parses, in order |
| StoryLoader.ReadNode | StoryLoader.cs:22-106 | a node's own fields are as authored, with the generated id when `id` is absent |
| StoryLoader.InheritFrom | StoryLoader.cs:109-128 | the inheritance step agrees with `Inherit` against the previous resolved node |
| StoryLoader.LoadFromFile | StoryLoader.cs:11-135 | the loader's loop yields `Load`: failure without a root, otherwise the nodes resolved in document order |
| StoryLoader.ResolveNodes | StoryLoader.cs:20-132 | exactly one resolved node per `<node>` element |
| StoryLoader.Inherit | StoryLoader.cs:109-128 | with no previous node the node is unchanged; otherwise id, text, options, changes and triggers are kept, each explicit background, music, non-empty speaker or non-empty character list is kept, and each missing one is taken from the previous node |
| StoryLoader.Load | StoryLoader.cs:11-135 | loading fails exactly when there is no root; otherwise there is one story node per `<node>`, and no `<node>` gives an empty story |
| StoryLoader.ResolvePrefix | StoryLoader.cs:109-131 | resolving a node depends only on the nodes before it: resolving a prefix gives the prefix of the result |
| StoryLoader.ResolvedNode | StoryLoader.cs:109-131 | node i is its authored form inherited against resolved node i-1, and the first node against nothing |
| StoryLoader.BackgroundRule | StoryLoader.cs:25-26 | the flag is set iff `bg` is written; a written value, even "", is kept; otherwise the background is inherited, and it is null on the first node |
| StoryLoader.MusicRule | StoryLoader.cs:27-28 | the same rule for music |
| StoryLoader.SpeakerRule | StoryLoader.cs:29 | a non-empty speaker is kept; a null or empty one takes the previous resolved speaker |
| StoryLoader.TextNeverInherited | StoryLoader.cs:30 | the text is the trimmed first `<text>` child or null, and is never inherited |
| StoryLoader.CharactersRule | StoryLoader.cs:115-127 | own characters are kept exactly; a node with none copies the previous resolved list, order and fields included |
| StoryLoader.OwnFieldsRule | StoryLoader.cs:24 | id, options, changes and triggers are never inherited; the id falls back to the generated one only when absent |
| StoryLoader.ChangesCollected | StoryLoader.cs:85-93 | a change is collected iff a `<change>` names that non-empty counter with a delta that parses to it |
| StoryLoader.NodeChangesRule | StoryLoader.cs:85-93 | a node's changes are exactly the valid `<change>` children |
| StoryLoader.TriggerRule | StoryLoader.cs:98-104 | a kept trigger's counter and goto are their attributes or "", its operator the attribute as written or ">=", and its value the parse of the attribute or of "0"; a missing value gives 0; a bare trigger is the default record |
| StoryLoader.BareElementsGiveDefaults | StoryLoader.cs:22-106 | bare elements load as the default records, except the option text "(选项)" and the generated node id; a bare trigger is kept with value 0 and a bare change is dropped |
| StoryLoader.OptionChangesOrder | StoryLoader.cs:56-79 | an option's changes are its valid affect entries first, then its valid `<change>` children |
| StoryLoader.AffectEntryRoundTrip | StoryLoader.cs:62-65 | `name:+d` written for a counter with a writable name reads back as that change |
| StoryLoader.AffectRoundTrip | StoryLoader.cs:56-68 | a comma-separated affect list written from changes reads back as the same changes, in order |
| StoryLoader.AffectSkipsMalformed | StoryLoader.cs:59-66 | a malformed entry is skipped and a well-formed one after it still applies |
| Text.Trim | StoryLoader.cs:65 | trimming never lengthens, leaves no white space at either end, and leaves a string without white space at its ends unchanged |
| Text.TrimSlice | StoryLoader.cs:65 | the trimmed string is one slice of the input, and every character outside that slice is white space |
| Text.TrimNet | StoryLoader.cs:65 | `String.Trim` leaves no .NET white space at either end |
| Text.Strip | QuickView/XmlView.py:21 | `str.strip` leaves no Python white space at either end |
| Text.TrimIdempotent | StoryLoader.cs:65 | trimming twice is trimming once |
| Text.SplitNonEmpty | StoryLoader.cs:59 | `Split(sep, RemoveEmptyEntries)` yields non-empty pieces free of the separator |
| Text.SplitNonEmptyNone | StoryLoader.cs:59 | there are no pieces exactly when every character is a separator |
| Text.SplitNonEmptyRuns | StoryLoader.cs:59 | the pieces written between runs of separators, of any length and mix, come back in order, whatever runs open or close the string |
| Text.SplitRejoin | StoryLoader.cs:59 | joining the split fields with the one separator character gives the input back |
| Text.SplitNonEmptyJoin | StoryLoader.cs:59 | splitting undoes joining non-empty, separator-free pieces |
| StoryEngine.CounterValue | StoryEngine.cs:82 | a missing counter reads as 0, a present one as its stored value |
| StoryEngine.EvaluateTrigger | StoryEngine.cs:101-112 | ">=", "<=", ">", "<", and "==" or "=" compare as written; any other operator compares as ">=" |
| StoryEngine.FindIndex | StoryEngine.cs:53 | `FindIndex` gives the first node with that id, or none when no node has it |
| StoryEngine.ChangesAppliedKeys | StoryEngine.cs:66-74 | after applying changes, a counter exists iff it existed before or some change names it |
| StoryEngine.ChangesAppliedValue | StoryEngine.cs:66-74 | each counter ends at its old value (0 if absent) plus the sum of its deltas, wrapped to 32 bits; a counter no change names keeps its value |
| StoryEngine.SumDeltasUnnamed | StoryEngine.cs:69-73 | a counter no change names receives no delta |
| StoryEngine.FirstRedirectSpec | StoryEngine.cs:76-99 | the redirect is the first trigger that holds and names a node that exists; none fires when there is none |
| StoryEngine.Activate | StoryEngine.cs:114-127 | activation only appends events, first announcing the current node with the counters before its changes; a run cut short by fuel stays on a node of the story |
| StoryEngine.CheckTriggers | StoryEngine.cs:76-99 | the trigger check only appends events; when no trigger fires it changes nothing and completes |
| StoryEngine.ActivateSteps | StoryEngine.cs:114-127 | activation announces the node with the old counters, applies its changes, and checks its triggers against the changed counters; without a redirect it ends on the node with the changed counters; with one, it activates the target next, announcing it with the changed counters, or stops there when fuel is out |
| StoryEngine.CheckTriggersStep | StoryEngine.cs:76-99 | with a redirect, the trigger check moves to its target and activates it, announcing it with the current counters, or stops there when fuel is out |
| StoryEngine.ActivateTrace | StoryEngine.cs:114-127 | activation appends only node-changed events, at most one per fuel step; the first is the current node with the counters before its changes |
| StoryEngine.CheckTriggersTrace | StoryEngine.cs:76-99 | the trigger check appends only node-changed events, and no more of them than the fuel |
| StoryEngine.ActivateSettles | StoryEngine.cs:114-127 | a completed activation leaves the position in range, the current node announced last, and none of its triggers firing |
| StoryEngine.CheckTriggersSettles | StoryEngine.cs:76-99 | the same for the trigger check |
| StoryEngine.ActivateMoreFuel | StoryEngine.cs:114-127 | once activation completes, more fuel gives the same result |
| StoryEngine.CheckTriggersMoreFuel | StoryEngine.cs:76-99 | the same for the trigger check |
| StoryEngine.StartAnnouncesFirstNode | StoryEngine.cs:25-30 | Start on a non-empty story first announces node 0 with the counters unchanged |
| StoryEngine.NextBeforeStartIsStart | StoryEngine.cs:35 | Next before Start is Start |
| StoryEngine.NextPastEnd | StoryEngine.cs:37-42 | Next past the last node fires story-ended and announces nothing; a further Next fires it again |
| StoryEngine.ApplyOptionCases | StoryEngine.cs:46-64 | the option's changes apply first; a goto naming a node jumps there and announces it; otherwise the engine does Next |
| StoryEngine.OneNodeStory | StoryEngine.cs:25-44 | a one-node story: Start announces the node once, Next then ends the story |
| StoryEngine.ChoiceLoopsBack | StoryEngine.cs:46-99 | an option with `like:+2` going to B, whose trigger `like >= 2` goes back to A: like becomes 2, B is announced, then A is announced again |
| StoryEngine.Engine.constructor | StoryEngine.cs:9-14 | a new engine has no story, position -1, no counters and no events |
| StoryEngine.Engine.CurrentNode | StoryEngine.cs:16 | the current node exists iff a story is loaded and the position is in range, and it is the node at the position |
| StoryEngine.Engine.LoadFromFile | StoryEngine.cs:18-23 | a successful load installs the story and resets the position to -1 and the counters to empty; a failed load changes nothing |
| StoryEngine.Engine.ApplyChanges | StoryEngine.cs:66-74 | the counter table becomes `ChangesApplied` of the old table |
| StoryEngine.Engine.RaiseNodeChanged | StoryEngine.cs:114-127 | the method reaches the state `Activate` gives from the old state |
| StoryEngine.Engine.CheckTriggersAndMaybeJump | StoryEngine.cs:76-99 | the method reaches the state `CheckTriggers` gives from the old state |
| StoryEngine.Engine.Start | StoryEngine.cs:25-30 | the method reaches the state `StartSpec` gives from the old state |
| StoryEngine.Engine.Next | StoryEngine.cs:32-44 | the method reaches the state `NextSpec` gives from the old state |
| StoryEngine.Engine.ApplyOption | StoryEngine.cs:46-64 | the method reaches the state `ApplyOptionSpec` gives from the old state |
| XmlView.FirstTruthy | QuickView/XmlView.py:18-22 | the first attribute in list order with a non-empty value, or none when no attribute has one |
| XmlView.FindId | QuickView/XmlView.py:17-22 | the id is the stripped value of the first truthy id attribute, and none when no id attribute is truthy |
| XmlView.Clip | QuickView/XmlView.py:30 | a string no longer than maxlen is unchanged; a longer one is its first maxlen characters plus "..." |
| XmlView.NewlinesToSpaces | QuickView/XmlView.py:33 | same length, no newline left, and every other character kept |
| XmlView.LabelFor | QuickView/XmlView.py:25-35 | the label is the clipped first truthy label attribute; else, for non-blank text, a label within maxlen+3 characters with no newline; else the fallback, or the tag when the fallback is empty |
| XmlView.Collected | QuickView/XmlView.py:42-57 | the table has distinct non-empty ids, orders 0,1,2,... and no more entries than elements |
| XmlView.CollectNodes | QuickView/XmlView.py:38-57 | the loop over `root.iter()` yields `NodesOf(root)`, a valid table |
| XmlView.CollectInOrder | QuickView/XmlView.py:44-56 | the loop over the elements yields `Collected` |
| XmlView.CollectedComplete | QuickView/XmlView.py:45-48 | every element with a non-empty id has that id in the table |
| XmlView.CollectedFirstWins | QuickView/XmlView.py:47-55 | each entry comes from the first element with that id, with its tag, label and element |
| XmlView.CollectedInDocumentOrder | QuickView/XmlView.py:44-56 | entries come in document order |
| XmlView.IndexOf | QuickView/XmlView.py:67 | `keys.index` gives the first position of the key, and fails iff the key is absent |
| XmlView.NextNodeId | QuickView/XmlView.py:60-72 | an unknown id has no next; a next is the key following an occurrence |
| XmlView.NextOfDistinct | QuickView/XmlView.py:60-72 | with distinct keys, the next of key i is key i+1, and there is none for the last |
| XmlView.ExtendFacts | QuickView/XmlView.py:95-98 | appending through `seen` keeps the old list as a prefix, adds exactly the new edges, and never duplicates |
| XmlView.LStripHash | QuickView/XmlView.py:94 | `lstrip("#")` removes exactly the leading '#' characters |
| XmlView.Targets | QuickView/XmlView.py:91-94 | every target is free of separators and does not start with '#' |
| XmlView.TargetsOfRuns | QuickView/XmlView.py:91-94 | names between runs of ',', ';', '/' and white space, in any mix and of any length (`a;b`, `a / b`, `#a,\tb`), are the targets, '#' stripped, in order |
| XmlView.ValueEdges | QuickView/XmlView.py:90-98 | the edges of an attribute value are one per non-empty piece, in order, with '#' stripped |
| XmlView.TargetsOfCommaList | QuickView/XmlView.py:91-94 | a comma list of plain names yields those names, '#' stripped, in order |
| XmlView.AttrEdges | QuickView/XmlView.py:88-99 | attribute edges leave the source, and none of them is labelled `default::next` |
| XmlView.OptionChildren | QuickView/XmlView.py:112 | option children are exactly the children with a listed tag or a target attribute |
| XmlView.ChildEdges | QuickView/XmlView.py:114-138 | a child without a target yields the default edge to the next node when there is one |
| XmlView.Candidates | QuickView/XmlView.py:87-164 | every candidate edge leaves the node, and none is labelled `default::next` |
| XmlView.StepNode | QuickView/XmlView.py:82-175 | one node's step keeps the edges so far, adds only edges leaving that node, and keeps them duplicate-free |
| XmlView.GraphEdgesOf | QuickView/XmlView.py:75-177 | the edge list has no duplicates, and every edge leaves a collected node |
| XmlView.GraphEdges | QuickView/XmlView.py:75-177 | `collect_edges` returns no edge twice, and every edge leaves a node of the table |
| XmlView.AddEdge | QuickView/XmlView.py:95-99 | `add_edge` appends the edge unless `seen` holds it, keeps `seen` equal to the list, and counts exactly what it appended |
| XmlView.CollectEdges | QuickView/XmlView.py:75-177 | the imperative loop with `seen` and `outgoing_count` yields `GraphEdges` |
| XmlView.AddFields | QuickView/XmlView.py:89-99 | the split-and-add loop extends the edges by the value's targets and counts the edges it added |
| XmlView.AddAttrTargets | QuickView/XmlView.py:88-99 | the attribute loop extends by `AttrEdges` and reports whether any target attribute was truthy |
| XmlView.AddInline | QuickView/XmlView.py:101-109 | the inline loop extends by the inline edges and counts them |
| XmlView.AddChild | QuickView/XmlView.py:115-138 | one child's loop extends by `ChildEdges` |
| XmlView.AddOptionChildren | QuickView/XmlView.py:113-164 | the option-children branch extends by `OptionEdges` |
| XmlView.DefaultNextRule | QuickView/XmlView.py:166-175 | a `default::next` edge leaves node i iff it has no other candidate edge and the target is its non-empty next id |
| XmlView.NextEdges | QuickView/XmlView.py:166-175 | every node except the last has an out-edge; the last never has a `default::next` edge |
| XmlView.ChildWithoutTarget | QuickView/XmlView.py:131-164 | an option child with no target yields the default child edge to the next node |
| XmlView.AttributeTargets | QuickView/XmlView.py:88-99 | every piece of a truthy target attribute becomes an edge labelled with that attribute |

## Left out

- Reading the file (`XDocument.Load` and the path) is not modelled. The
  loader receives the parsed root, or `None` when there is none.
- A malformed document, which makes `XDocument.Load` throw, is not
  modelled.
- `Guid.NewGuid()` is not modelled; it is the parameter `newGuid`.
- `int.TryParse` is modelled for the invariant culture with ASCII digits,
  an optional sign and surrounding white space. Culture-specific signs,
  thousands separators and non-ASCII digits are not modelled.
- CharacterState copies are values, so reference identity is not
  modelled. Because nothing can share a reference, independence of copies
  holds by construction.
- Notifications are an event trace, not delegates. A subscriber that
  calls back into the engine while a notification is firing is not
  modelled.
- StoryEngine.Engine.RaiseNodeChanged: trigger chains are bounded by
  `fuel`, and `completed` is false when the bound is hit. The source
  recurses without bound on a trigger cycle and then overflows the stack.
- StoryEngine.Engine.CheckTriggersAndMaybeJump: the same fuel bound.
- StoryEngine.Engine.Next: the position is an unbounded integer. The
  source's `int` position would overflow only after 2^31 calls past the
  end.
- The text of an XML element is the element's direct text only. Mixed
  content, which `XElement.Value` concatenates, is not modelled.
- QuickView's `INLINE_GOTO_RE` regular expression is not modelled. It is
  the parameter `inline`, which maps a node's text to its targets.
- QuickView's HTML and DOT output, `main` and the command-line arguments
  are not modelled.
- XmlView.FoldTag: `str.lower()` is modelled for the ASCII letters and
  for U+212A KELVIN SIGN, which lowers to 'k'. The other non-ASCII case
  mappings are not modelled; the tags they produce cannot equal a
  lower-case ASCII tag of the lists.
- XmlView.ValueEdges: `re.split(r"[,;/\s]+")` is modelled as a split on
  each separator character followed by dropping the empty pieces. Both
  give the same non-empty pieces.
- XmlView.TargetsOfRuns: the targets are stated for a value that starts
  and ends with a name. For a value that opens or closes with separators,
  only the general `Text.SplitNonEmptyRuns` and the shape of each target
  are stated, not how `str.strip` and the split combine at the ends.
- XmlView.LabelFor: for text it states only the length bound and that no
  newline remains, not the exact clipped string.
- The `maxlen` of `label_for` is a natural number. A negative slice
  bound, which Python allows, is not modelled.
