/** The playback state machine: a position in the story (-1 before the
    start), a table of named 32-bit counters, and the notifications it
    raises, kept here as a trace of events in the order they were raised.

    Trigger redirection can chain without end in the modelled code (two
    nodes whose triggers send play to each other); every operation takes
    `fuel`, the number of trigger redirections it may follow, and reports
    whether it finished within it. */
module StoryEngine {
  import opened Wrappers
  import opened Int32
  import opened XmlTree
  import opened StoryModels
  import opened StoryLoader

  /** `NodeChanged(node)` carries the counters a subscriber would read while
      handling it; `StoryEnded` carries nothing. */
  datatype Event = NodeChanged(node: StoryNode, counters: map<string, int32>) | StoryEnded

  /** The engine's mutable state as one value. */
  datatype Machine = Machine(position: int, counters: map<string, int32>, events: seq<Event>)

  /** The state after an operation, and whether it ran to its end rather than
      stopping for lack of fuel before a redirected activation. */
  datatype Run = Run(machine: Machine, completed: bool)

  function NodesOf(story: Option<Story>): seq<StoryNode>
  {
    if story.None? then [] else story.value.nodes
  }

  /** `Counters.TryGetValue`: an absent counter reads as 0. */
  function CounterValue(counters: map<string, int32>, name: string): (v: int32)
    ensures name !in counters ==> v == 0
    ensures name in counters ==> v == counters[name]
  {
    if name in counters then counters[name] else 0
  }

  /** `EvaluateTrigger`: the comparison named by `op`; `=` is a synonym of
      `==`, and any string other than the six recognised ones (including
      "") compares with `>=`. */
  function EvaluateTrigger(currentValue: int32, op: string, target: int32): (r: bool)
    ensures op == ">=" ==> (r <==> currentValue >= target)
    ensures op == "<=" ==> (r <==> currentValue <= target)
    ensures op == ">" ==> (r <==> currentValue > target)
    ensures op == "<" ==> (r <==> currentValue < target)
    ensures op == "==" || op == "=" ==> (r <==> currentValue == target)
    ensures op !in [">=", "<=", ">", "<", "==", "="] ==> (r <==> currentValue >= target)
  {
    match op
    case ">=" => currentValue >= target
    case "<=" => currentValue <= target
    case ">" => currentValue > target
    case "<" => currentValue < target
    case "==" => currentValue == target
    case "=" => currentValue == target
    case _ => currentValue >= target
  }

  /** `List.FindIndex(n => n.Id == id)`: the first node with that id. */
  function FindIndex(nodes: seq<StoryNode>, id: string): (r: Option<nat>)
    ensures r.Some? ==> r.value < |nodes| && nodes[r.value].id == id
    ensures r.Some? ==> forall j :: 0 <= j < r.value ==> nodes[j].id != id
    ensures r.None? ==> forall j :: 0 <= j < |nodes| ==> nodes[j].id != id
  {
    if nodes == [] then None
    else if nodes[0].id == id then Some(0)
    else
      var rest := FindIndex(nodes[1..], id);
      if rest.Some? then Some(rest.value + 1) else None
  }

  /** The counters after the `ApplyChanges` loop: each change first sets a
      missing counter to 0, then adds its delta with 32-bit wrap-around. */
  function ChangesApplied(counters: map<string, int32>, changes: seq<CounterChange>): map<string, int32>
  {
    if changes == [] then counters
    else
      var prev := ChangesApplied(counters, changes[..|changes| - 1]);
      var ch := changes[|changes| - 1];
      prev[ch.counter := Add(CounterValue(prev, ch.counter), ch.delta)]
  }

  predicate Named(changes: seq<CounterChange>, name: string)
  {
    exists i :: 0 <= i < |changes| && changes[i].counter == name
  }

  /** The exact total of the deltas the list holds for `name`. */
  function SumDeltas(changes: seq<CounterChange>, name: string): int
  {
    if changes == [] then 0
    else
      var ch := changes[|changes| - 1];
      SumDeltas(changes[..|changes| - 1], name) + (if ch.counter == name then ch.delta as int else 0)
  }

  /** After applying a list of changes a counter appears exactly when it
      was there before or the list names it, so no other key is added. */
  lemma {:induction false} ChangesAppliedKeys(counters: map<string, int32>, changes: seq<CounterChange>, name: string)
    ensures name in ChangesApplied(counters, changes) <==> name in counters || Named(changes, name)
  {
    if changes != [] {
      var init := changes[..|changes| - 1];
      var ch := changes[|changes| - 1];
      ChangesAppliedKeys(counters, init, name);
      if Named(changes, name) && !Named(init, name) {
        assert ch.counter == name;
      }
      if Named(init, name) {
        var i :| 0 <= i < |init| && init[i].counter == name;
        assert changes[i].counter == name;
      }
    }
  }

  /** After applying a list of changes every counter holds its old value (0
      if it was absent) plus the sum of its deltas, wrapped to 32 bits, so
      counters the list does not name keep their value. */
  lemma ChangesAppliedValue(counters: map<string, int32>, changes: seq<CounterChange>, name: string)
    ensures CounterValue(ChangesApplied(counters, changes), name) ==
      Wrap(CounterValue(counters, name) as int + SumDeltas(changes, name))
    ensures !Named(changes, name) ==> CounterValue(ChangesApplied(counters, changes), name) == CounterValue(counters, name)
  {
    ChangesAppliedWrap(counters, changes, name);
    SumDeltasUnnamed(changes, name);
  }

  lemma {:induction false} ChangesAppliedWrap(counters: map<string, int32>, changes: seq<CounterChange>, name: string)
    ensures CounterValue(ChangesApplied(counters, changes), name) ==
      Wrap(CounterValue(counters, name) as int + SumDeltas(changes, name))
  {
    var before := CounterValue(counters, name) as int;
    if changes == [] {
      assert Wrap(before) as int == before;
    } else {
      var init := changes[..|changes| - 1];
      var ch := changes[|changes| - 1];
      var prev := ChangesApplied(counters, init);
      ChangesAppliedWrap(counters, init, name);
      var hit := ch.counter == name;
      assert CounterValue(ChangesApplied(counters, changes), name) ==
        if hit then Add(CounterValue(prev, name), ch.delta) else CounterValue(prev, name);
      assert SumDeltas(changes, name) == SumDeltas(init, name) + if hit then ch.delta as int else 0;
      WrapStep(CounterValue(prev, name), before + SumDeltas(init, name), ch.delta, hit);
    }
  }

  /** One more change to a wrapped running total: adding its delta, when it
      names the counter, wraps the exact total. */
  lemma WrapStep(current: int32, total: int, d: int32, hit: bool)
    requires current == Wrap(total)
    ensures (if hit then Add(current, d) else current) == Wrap(total + if hit then d as int else 0)
  {
    if hit {
      WrapAdd(total, d as int);
    } else {
      assert total + 0 == total;
    }
  }

  /** A counter no change names gets no delta. */
  lemma {:induction false} SumDeltasUnnamed(changes: seq<CounterChange>, name: string)
    ensures !Named(changes, name) ==> SumDeltas(changes, name) == 0
  {
    if changes != [] && !Named(changes, name) {
      var init := changes[..|changes| - 1];
      assert !Named(init, name) by {
        forall i | 0 <= i < |init| ensures init[i].counter != name {
          assert init[i] == changes[i];
        }
      }
      SumDeltasUnnamed(init, name);
      assert changes[|changes| - 1].counter != name;
    }
  }

  /** Where trigger `t` sends play: somewhere only if its comparison holds
      against the counter (0 when absent) and its goto names a node. */
  function Redirect(nodes: seq<StoryNode>, t: CounterTrigger, counters: map<string, int32>): Option<nat>
  {
    if EvaluateTrigger(CounterValue(counters, t.counter), t.operator, t.value) && t.goto != ""
    then FindIndex(nodes, t.goto)
    else None
  }

  /** The loop of `CheckTriggersAndMaybeJump`: the first trigger, in list
      order, that redirects. */
  function FirstRedirect(nodes: seq<StoryNode>, triggers: seq<CounterTrigger>, counters: map<string, int32>): Option<nat>
  {
    if triggers == [] then None
    else if Redirect(nodes, triggers[0], counters).Some? then Redirect(nodes, triggers[0], counters)
    else FirstRedirect(nodes, triggers[1..], counters)
  }

  /** The jump taken is that of the first trigger whose comparison holds and
      whose goto names a node: the first node with that id. Triggers before
      it either do not hold or name no node, and with no such trigger there
      is no jump. */
  lemma {:induction false} FirstRedirectSpec(nodes: seq<StoryNode>, triggers: seq<CounterTrigger>, counters: map<string, int32>)
    ensures var r := FirstRedirect(nodes, triggers, counters);
      && (r.None? ==> forall k :: 0 <= k < |triggers| ==> Redirect(nodes, triggers[k], counters).None?)
      && (r.Some? ==> exists k :: (0 <= k < |triggers| && Redirect(nodes, triggers[k], counters) == r &&
            (forall j :: 0 <= j < k ==> Redirect(nodes, triggers[j], counters).None?)))
      && (r.Some? ==> r.value < |nodes|)
  {
    if triggers != [] {
      var rest := triggers[1..];
      FirstRedirectSpec(nodes, rest, counters);
      var r := FirstRedirect(nodes, triggers, counters);
      if Redirect(nodes, triggers[0], counters).Some? {
        assert Redirect(nodes, triggers[0], counters) == r;
      } else if r.Some? {
        var k :| 0 <= k < |rest| && Redirect(nodes, rest[k], counters) == r &&
            (forall j :: 0 <= j < k ==> Redirect(nodes, rest[j], counters).None?);
        assert triggers[k + 1] == rest[k];
        assert forall j :: 1 <= j < k + 1 ==> triggers[j] == rest[j - 1];
      } else {
        assert forall k :: 1 <= k < |triggers| ==> triggers[k] == rest[k - 1];
      }
    }
  }

  /** `RaiseNodeChanged`: at a valid position, announce the node (with the
      counters as they were), apply its changes, then check its triggers.
      Events are only ever appended, and a run cut short by fuel rests on a
      node of the story. */
  function Activate(nodes: seq<StoryNode>, m: Machine, fuel: nat): (r: Run)
    ensures m.events <= r.machine.events
    ensures 0 <= m.position < |nodes| ==>
      |r.machine.events| > |m.events| && r.machine.events[|m.events|] == NodeChanged(nodes[m.position], m.counters)
    ensures !r.completed ==> 0 <= r.machine.position < |nodes|
    decreases fuel, 1
  {
    if !(0 <= m.position < |nodes|) then Run(m, true)
    else
      var node := nodes[m.position];
      var announced := m.(events := m.events + [NodeChanged(node, m.counters)]);
      CheckTriggers(nodes, announced.(counters := ChangesApplied(announced.counters, node.changes)), fuel)
  }

  /** `CheckTriggersAndMaybeJump`: move to the first redirect target and
      activate it; a redirect found with no fuel left moves but stops. Events
      are only ever appended, and without a redirect nothing changes. */
  function CheckTriggers(nodes: seq<StoryNode>, m: Machine, fuel: nat): (r: Run)
    ensures m.events <= r.machine.events
    ensures !r.completed ==> 0 <= r.machine.position < |nodes|
    ensures 0 <= m.position < |nodes| && FirstRedirect(nodes, nodes[m.position].counterTriggers, m.counters).None? ==>
      r == Run(m, true)
    decreases fuel, 0
  {
    if !(0 <= m.position < |nodes|) then Run(m, true)
    else
      var target := FirstRedirect(nodes, nodes[m.position].counterTriggers, m.counters);
      FirstRedirectSpec(nodes, nodes[m.position].counterTriggers, m.counters);
      if target.None? then Run(m, true)
      else if fuel == 0 then Run(m.(position := target.value), false)
      else Activate(nodes, m.(position := target.value), fuel - 1)
  }

  /** One activation step: the node is announced with the counters as they
      were, its changes are applied, and its triggers are checked against
      the changed counters. Without a redirect activation ends there; with
      one, the target is announced next, with the changed counters. */
  lemma ActivateSteps(nodes: seq<StoryNode>, m: Machine, fuel: nat)
    requires 0 <= m.position < |nodes|
    ensures var node := nodes[m.position];
      var changed := ChangesApplied(m.counters, node.changes);
      var announced := m.events + [NodeChanged(node, m.counters)];
      var t := FirstRedirect(nodes, node.counterTriggers, changed);
      var r := Activate(nodes, m, fuel);
      && (t.None? ==> r == Run(Machine(m.position, changed, announced), true))
      && (t.Some? ==> t.value < |nodes|)
      && (t.Some? && fuel == 0 ==> r == Run(Machine(t.value, changed, announced), false))
      && (t.Some? && fuel > 0 ==>
            && r == Activate(nodes, Machine(t.value, changed, announced), fuel - 1)
            && |r.machine.events| > |announced| && announced <= r.machine.events
            && r.machine.events[|announced|] == NodeChanged(nodes[t.value], changed))
  {
    var node := nodes[m.position];
    var changed := ChangesApplied(m.counters, node.changes);
    var announced := m.events + [NodeChanged(node, m.counters)];
    var t := FirstRedirect(nodes, node.counterTriggers, changed);
    FirstRedirectSpec(nodes, node.counterTriggers, changed);
    if t.Some? && fuel > 0 {
      ActivateTrace(nodes, Machine(t.value, changed, announced), fuel - 1);
    }
  }

  /** The trigger check at a node of the story: with a redirect, play moves
      to its target, which is then activated, announcing it with the
      current counters. */
  lemma CheckTriggersStep(nodes: seq<StoryNode>, m: Machine, fuel: nat)
    requires 0 <= m.position < |nodes|
    ensures var t := FirstRedirect(nodes, nodes[m.position].counterTriggers, m.counters);
      var r := CheckTriggers(nodes, m, fuel);
      && (t.Some? ==> t.value < |nodes|)
      && (t.Some? && fuel == 0 ==> r == Run(m.(position := t.value), false))
      && (t.Some? && fuel > 0 ==>
            && r == Activate(nodes, m.(position := t.value), fuel - 1)
            && |r.machine.events| > |m.events|
            && r.machine.events[|m.events|] == NodeChanged(nodes[t.value], m.counters))
  {
    var t := FirstRedirect(nodes, nodes[m.position].counterTriggers, m.counters);
    FirstRedirectSpec(nodes, nodes[m.position].counterTriggers, m.counters);
    if t.Some? && fuel > 0 {
      ActivateTrace(nodes, m.(position := t.value), fuel - 1);
    }
  }

  /** `Start`: nothing without a story or nodes, else activate node 0. */
  function StartSpec(story: Option<Story>, m: Machine, fuel: nat): Run
  {
    if story.None? || story.value.nodes == [] then Run(m, true)
    else Activate(story.value.nodes, m.(position := 0), fuel)
  }

  /** `Next`: `Start` before the story began, else one step forward; past
      the last node it raises `StoryEnded`, and does so again on every
      further call. */
  function NextSpec(story: Option<Story>, m: Machine, fuel: nat): Run
  {
    if story.None? then Run(m, true)
    else if m.position < 0 then StartSpec(story, m, fuel)
    else if m.position + 1 >= |story.value.nodes| then
      Run(m.(position := m.position + 1, events := m.events + [StoryEnded]), true)
    else Activate(story.value.nodes, m.(position := m.position + 1), fuel)
  }

  /** `ApplyOption`: apply the option's changes, then jump to its goto if it
      names a node, else behave as `Next`. */
  function ApplyOptionSpec(story: Option<Story>, m: Machine, opt: StoryOption, fuel: nat): Run
  {
    var changed := m.(counters := ChangesApplied(m.counters, opt.changes));
    var target := if !IsNullOrEmpty(opt.goto) && story.Some? then FindIndex(story.value.nodes, opt.goto.value) else None;
    if target.Some? then Activate(story.value.nodes, changed.(position := target.value), fuel)
    else NextSpec(story, changed, fuel)
  }

  /** What an activation adds to the trace: only `NodeChanged` events, the
      first of which announces the activated node with the counters as they
      were before its changes; at most `fuel + 1` of them, and exactly that
      many when it stops for lack of fuel. Outside the story it does
      nothing. */
  lemma {:induction false} ActivateTrace(nodes: seq<StoryNode>, m: Machine, fuel: nat)
    ensures var r := Activate(nodes, m, fuel);
      && m.events <= r.machine.events
      && (forall i :: |m.events| <= i < |r.machine.events| ==> r.machine.events[i].NodeChanged?)
      && |r.machine.events| <= |m.events| + fuel + 1
      && (!r.completed ==> |r.machine.events| == |m.events| + fuel + 1)
      && (0 <= m.position < |nodes| ==>
            |r.machine.events| > |m.events| && r.machine.events[|m.events|] == NodeChanged(nodes[m.position], m.counters))
      && (!(0 <= m.position < |nodes|) ==> r == Run(m, true))
    decreases fuel, 1
  {
    if 0 <= m.position < |nodes| {
      var node := nodes[m.position];
      var announced := m.(events := m.events + [NodeChanged(node, m.counters)]);
      CheckTriggersTrace(nodes, announced.(counters := ChangesApplied(announced.counters, node.changes)), fuel);
    }
  }

  lemma {:induction false} CheckTriggersTrace(nodes: seq<StoryNode>, m: Machine, fuel: nat)
    ensures var r := CheckTriggers(nodes, m, fuel);
      && m.events <= r.machine.events
      && (forall i :: |m.events| <= i < |r.machine.events| ==> r.machine.events[i].NodeChanged?)
      && |r.machine.events| <= |m.events| + fuel
      && (!r.completed ==> |r.machine.events| == |m.events| + fuel)
    decreases fuel, 0
  {
    if 0 <= m.position < |nodes| {
      var target := FirstRedirect(nodes, nodes[m.position].counterTriggers, m.counters);
      if target.Some? && fuel > 0 {
        ActivateTrace(nodes, m.(position := target.value), fuel - 1);
      }
    }
  }

  /** The last event of a trace announces node `i`. */
  predicate Announced(nodes: seq<StoryNode>, events: seq<Event>, i: int)
  {
    0 <= i < |nodes| && events != [] && events[|events| - 1].NodeChanged? && events[|events| - 1].node == nodes[i]
  }

  /** Activation that starts inside the story stays inside it. When it
      completes, play rests on the node announced last and none of that
      node's triggers would redirect under the final counters. */
  lemma {:induction false} ActivateSettles(nodes: seq<StoryNode>, m: Machine, fuel: nat)
    requires 0 <= m.position < |nodes|
    ensures var r := Activate(nodes, m, fuel);
      && 0 <= r.machine.position < |nodes|
      && (r.completed ==> Announced(nodes, r.machine.events, r.machine.position))
      && (r.completed ==> FirstRedirect(nodes, nodes[r.machine.position].counterTriggers, r.machine.counters).None?)
    decreases fuel, 1
  {
    var node := nodes[m.position];
    var announced := m.(events := m.events + [NodeChanged(node, m.counters)]);
    CheckTriggersSettles(nodes, announced.(counters := ChangesApplied(announced.counters, node.changes)), fuel);
  }

  lemma {:induction false} CheckTriggersSettles(nodes: seq<StoryNode>, m: Machine, fuel: nat)
    requires Announced(nodes, m.events, m.position)
    ensures var r := CheckTriggers(nodes, m, fuel);
      && 0 <= r.machine.position < |nodes|
      && (r.completed ==> Announced(nodes, r.machine.events, r.machine.position))
      && (r.completed ==> FirstRedirect(nodes, nodes[r.machine.position].counterTriggers, r.machine.counters).None?)
    decreases fuel, 0
  {
    var target := FirstRedirect(nodes, nodes[m.position].counterTriggers, m.counters);
    FirstRedirectSpec(nodes, nodes[m.position].counterTriggers, m.counters);
    if target.Some? && fuel > 0 {
      ActivateSettles(nodes, m.(position := target.value), fuel - 1);
    }
  }

  /** A completed activation is the activation: more fuel changes nothing. */
  lemma {:induction false} ActivateMoreFuel(nodes: seq<StoryNode>, m: Machine, fuel: nat, more: nat)
    requires fuel <= more
    requires Activate(nodes, m, fuel).completed
    ensures Activate(nodes, m, more) == Activate(nodes, m, fuel)
    decreases fuel, 1
  {
    if 0 <= m.position < |nodes| {
      var node := nodes[m.position];
      var announced := m.(events := m.events + [NodeChanged(node, m.counters)]);
      CheckTriggersMoreFuel(nodes, announced.(counters := ChangesApplied(announced.counters, node.changes)), fuel, more);
    }
  }

  lemma {:induction false} CheckTriggersMoreFuel(nodes: seq<StoryNode>, m: Machine, fuel: nat, more: nat)
    requires fuel <= more
    requires CheckTriggers(nodes, m, fuel).completed
    ensures CheckTriggers(nodes, m, more) == CheckTriggers(nodes, m, fuel)
    decreases fuel, 0
  {
    if 0 <= m.position < |nodes| {
      var target := FirstRedirect(nodes, nodes[m.position].counterTriggers, m.counters);
      if target.Some? {
        ActivateMoreFuel(nodes, m.(position := target.value), fuel - 1, more - 1);
      }
    }
  }

  /** `Start` on a story with nodes announces node 0 first, with the
      counters as they stood. */
  lemma StartAnnouncesFirstNode(story: Option<Story>, m: Machine, fuel: nat)
    requires story.Some? && story.value.nodes != []
    ensures var r := StartSpec(story, m, fuel);
      |r.machine.events| > |m.events| && r.machine.events[|m.events|] == NodeChanged(story.value.nodes[0], m.counters)
  {
    ActivateTrace(story.value.nodes, m.(position := 0), fuel);
  }

  /** Before the start, `Next` is `Start`. */
  lemma NextBeforeStartIsStart(story: Option<Story>, m: Machine, fuel: nat)
    requires m.position < 0
    ensures NextSpec(story, m, fuel) == StartSpec(story, m, fuel)
  {
  }

  /** Stepping past the last node raises `StoryEnded` and nothing else, and
      nothing guards the next call: it steps again and raises it again. */
  lemma NextPastEnd(story: Option<Story>, m: Machine, fuel: nat)
    requires story.Some? && m.position >= 0 && m.position + 1 >= |story.value.nodes|
    ensures var r := NextSpec(story, m, fuel);
      && r == Run(Machine(m.position + 1, m.counters, m.events + [StoryEnded]), true)
      && NextSpec(story, r.machine, fuel) ==
           Run(Machine(m.position + 2, m.counters, m.events + [StoryEnded, StoryEnded]), true)
  {
  }

  /** An option's changes come first: when its goto names a node, that node
      is announced with the changed counters; otherwise the option is `Next`
      from the changed counters. */
  lemma {:induction false} ApplyOptionCases(story: Option<Story>, m: Machine, opt: StoryOption, fuel: nat)
    ensures var changed := m.(counters := ChangesApplied(m.counters, opt.changes));
      var target := if opt.goto.Some? && opt.goto.value != "" then FindIndex(NodesOf(story), opt.goto.value) else None;
      var r := ApplyOptionSpec(story, m, opt, fuel);
      && (target.None? ==> r == NextSpec(story, changed, fuel))
      && (target.Some? ==>
            (|r.machine.events| > |m.events| &&
             r.machine.events[|m.events|] == NodeChanged(NodesOf(story)[target.value], changed.counters)))
  {
    var changed := m.(counters := ChangesApplied(m.counters, opt.changes));
    if story.Some? && opt.goto.Some? && opt.goto.value != "" {
      var target := FindIndex(story.value.nodes, opt.goto.value);
      if target.Some? {
        ActivateTrace(story.value.nodes, changed.(position := target.value), fuel);
      }
    }
  }

  /** A one-node story whose node has no triggers: `Start` announces it
      once; each later `Next` raises `StoryEnded` and announces nothing. */
  lemma OneNodeStory(a: StoryNode, fuel: nat)
    requires a.counterTriggers == []
    ensures var story := Some(Story([a]));
      var started := StartSpec(story, Machine(-1, map[], []), fuel);
      var ended := NextSpec(story, started.machine, fuel);
      && started == Run(Machine(0, ChangesApplied(map[], a.changes), [NodeChanged(a, map[])]), true)
      && ended.machine.events == [NodeChanged(a, map[]), StoryEnded]
      && NextSpec(story, ended.machine, fuel).machine.events == [NodeChanged(a, map[]), StoryEnded, StoryEnded]
  {
    var story := Some(Story([a]));
    var settled := Machine(0, ChangesApplied(map[], a.changes), [NodeChanged(a, map[])]);
    assert [] + [NodeChanged(a, map[])] == settled.events;
    assert CheckTriggers([a], settled, fuel) == Run(settled, true);
    assert StartSpec(story, Machine(-1, map[], []), fuel) == Run(settled, true);
    assert NextSpec(story, settled, fuel) == Run(settled.(position := 1, events := settled.events + [StoryEnded]), true);
  }

  /** Two nodes A and B. Choosing, at A, an option that adds 2 to `like` and
      goes to B announces B; B's trigger `like >= 2` sends play back to A,
      which is announced again. With one unit of fuel this completes. */
  lemma ChoiceLoopsBack(a: StoryNode, b: StoryNode, like: string, fuel: nat)
    requires a.id != "" && b.id != "" && a.id != b.id
    requires a.changes == [] && a.counterTriggers == [] && b.changes == []
    requires b.counterTriggers == [CounterTrigger(like, ">=", 2, a.id)]
    requires fuel >= 1
    ensures var story := Some(Story([a, b]));
      var opt := StoryOption("go", Some(b.id), [CounterChange(like, 2)]);
      var started := StartSpec(story, Machine(-1, map[], []), fuel);
      var chosen := ApplyOptionSpec(story, started.machine, opt, fuel);
      && started == Run(Machine(0, map[], [NodeChanged(a, map[])]), true)
      && chosen == Run(Machine(0, map[like := 2],
                        [NodeChanged(a, map[]), NodeChanged(b, map[like := 2]), NodeChanged(a, map[like := 2])]), true)
  {
    var nodes := [a, b];
    assert FindIndex(nodes, b.id) == Some(1);
    assert FindIndex(nodes, a.id) == Some(0);
    var changes := [CounterChange(like, 2)];
    assert changes[..0] == [];
    assert ChangesApplied(map[], changes[..0]) == map[];
    assert CounterValue(map[], like) == 0;
    assert Add(0, 2) == 2;
    var counters := ChangesApplied(map[], changes);
    assert counters == map[like := 2];
    assert FirstRedirect(nodes, b.counterTriggers, counters) == Some(0);
    var atA := NodeChanged(a, map[]);
    var atB := NodeChanged(b, counters);
    var backAtA := NodeChanged(a, counters);
    var story := Some(Story(nodes));
    assert [] + [atA] == [atA];
    assert CheckTriggers(nodes, Machine(0, map[], [atA]), fuel) == Run(Machine(0, map[], [atA]), true);
    assert StartSpec(story, Machine(-1, map[], []), fuel) == Run(Machine(0, map[], [atA]), true);
    var last := Machine(0, counters, [atA, atB, backAtA]);
    assert Activate(nodes, Machine(0, counters, [atA, atB]), fuel - 1) == Run(last, true);
    assert CheckTriggers(nodes, Machine(1, counters, [atA, atB]), fuel) == Run(last, true);
    assert [atA] + [atB] == [atA, atB];
    assert Activate(nodes, Machine(1, counters, [atA]), fuel) == Run(last, true);
  }

  class Engine {
    var story: Option<Story>
    var position: int
    var counters: map<string, int32>
    var events: seq<Event>

    function State(): Machine
      reads this
    {
      Machine(position, counters, events)
    }

    /** `CurrentNode`: the node at the position, or null when there is no
        story or the position is outside it. */
    function CurrentNode(): (r: Option<StoryNode>)
      reads this
      ensures r.Some? <==> story.Some? && 0 <= position < |story.value.nodes|
      ensures r.Some? ==> r.value == story.value.nodes[position]
    {
      if story.Some? && 0 <= position < |story.value.nodes| then Some(story.value.nodes[position]) else None
    }

    constructor ()
      ensures story.None? && position == -1 && counters == map[] && events == []
    {
      story := None;
      position := -1;
      counters := map[];
      events := [];
    }

    /** `LoadFromFile`: on success the new story replaces the old one, the
        position goes back to -1 and every counter is forgotten; no event is
        raised. A document without a root fails and changes nothing. */
    method LoadFromFile(root: Option<Element>, newGuid: nat -> string) returns (r: Result<Story, LoadError>)
      modifies this
      ensures r == Load(root, newGuid)
      ensures r.Success? ==> story == Some(r.value) && position == -1 && counters == map[] && events == old(events)
      ensures r.Failure? ==> story == old(story) && position == old(position) && counters == old(counters) && events == old(events)
    {
      r := StoryLoader.LoadFromFile(root, newGuid);
      if r.Failure? {
        return;
      }
      story := Some(r.value);
      position := -1;
      counters := map[];
    }

    method ApplyChanges(changes: seq<CounterChange>)
      modifies this`counters
      ensures counters == ChangesApplied(old(counters), changes)
    {
      for i := 0 to |changes|
        invariant counters == ChangesApplied(old(counters), changes[..i])
      {
        assert changes[..i + 1][..i] == changes[..i];
        var ch := changes[i];
        if ch.counter !in counters {
          counters := counters[ch.counter := 0];
        }
        counters := counters[ch.counter := Add(counters[ch.counter], ch.delta)];
      }
      assert changes[..|changes|] == changes;
    }

    method RaiseNodeChanged(fuel: nat) returns (completed: bool)
      modifies this
      ensures story == old(story)
      ensures Run(State(), completed) == Activate(NodesOf(story), old(State()), fuel)
      decreases fuel, 1
    {
      var node := CurrentNode();
      if node.None? {
        return true;
      }
      events := events + [NodeChanged(node.value, counters)];
      ApplyChanges(node.value.changes);
      completed := CheckTriggersAndMaybeJump(fuel);
    }

    method CheckTriggersAndMaybeJump(fuel: nat) returns (completed: bool)
      modifies this
      ensures story == old(story)
      ensures Run(State(), completed) == CheckTriggers(NodesOf(story), old(State()), fuel)
      decreases fuel, 0
    {
      var node := CurrentNode();
      if node.None? {
        return true;
      }
      var triggers := node.value.counterTriggers;
      for i := 0 to |triggers|
        invariant FirstRedirect(NodesOf(story), triggers, counters) == FirstRedirect(NodesOf(story), triggers[i..], counters)
      {
        assert triggers[i..][1..] == triggers[i + 1..];
        var trig := triggers[i];
        var val := CounterValue(counters, trig.counter);
        if EvaluateTrigger(val, trig.operator, trig.value) {
          if trig.goto != "" && story.Some? {
            var idx := FindIndex(story.value.nodes, trig.goto);
            if idx.Some? {
              assert FirstRedirect(NodesOf(story), triggers, counters) == idx;
              position := idx.value;
              if fuel == 0 {
                return false;
              }
              completed := RaiseNodeChanged(fuel - 1);
              return;
            }
          }
        }
      }
      assert triggers[|triggers|..] == [];
      return true;
    }

    method Start(fuel: nat) returns (completed: bool)
      modifies this
      ensures story == old(story)
      ensures Run(State(), completed) == StartSpec(story, old(State()), fuel)
    {
      if story.None? || |story.value.nodes| == 0 {
        return true;
      }
      position := 0;
      completed := RaiseNodeChanged(fuel);
    }

    method Next(fuel: nat) returns (completed: bool)
      modifies this
      ensures story == old(story)
      ensures Run(State(), completed) == NextSpec(story, old(State()), fuel)
    {
      if story.None? {
        return true;
      }
      if position < 0 {
        completed := Start(fuel);
        return;
      }
      position := position + 1;
      if position >= |story.value.nodes| {
        events := events + [StoryEnded];
        return true;
      }
      completed := RaiseNodeChanged(fuel);
    }

    method ApplyOption(opt: StoryOption, fuel: nat) returns (completed: bool)
      modifies this
      ensures story == old(story)
      ensures Run(State(), completed) == ApplyOptionSpec(story, old(State()), opt, fuel)
    {
      ApplyChanges(opt.changes);
      if !IsNullOrEmpty(opt.goto) && story.Some? {
        var idx := FindIndex(story.value.nodes, opt.goto.value);
        if idx.Some? {
          position := idx.value;
          completed := RaiseNodeChanged(fuel);
          return;
        }
      }
      completed := Next(fuel);
    }
  }
}
