/** The story document: the records the loader builds and the engine reads.
    After loading nothing changes them, so they are values. */
module StoryModels {
  import opened Wrappers
  import opened Int32

  /** The ordered list of nodes of one story. */
  datatype Story = Story(nodes: seq<StoryNode>)

  /** One line of the story. `background` and `music` carry a flag telling
      whether the document named them (even as the empty string) or left them
      out; `None` stands for C#'s `null`. */
  datatype StoryNode = StoryNode(
    id: string,
    background: Option<string>,
    backgroundExplicitlySet: bool,
    music: Option<string>,
    musicExplicitlySet: bool,
    speaker: Option<string>,
    text: Option<string>,
    characters: seq<CharacterState>,
    options: seq<StoryOption>,
    changes: seq<CounterChange>,
    counterTriggers: seq<CounterTrigger>)

  /** A character on stage; `side` is "left" or "right" by convention. */
  datatype CharacterState = CharacterState(name: string, image: Option<string>, side: string, expression: Option<string>)

  /** A choice offered to the player. */
  datatype StoryOption = StoryOption(text: string, goto: Option<string>, changes: seq<CounterChange>)

  /** Adds `delta` to the counter named `counter`. */
  datatype CounterChange = CounterChange(counter: string, delta: int32)

  /** Jumps to `goto` when `counter <op> value` holds. */
  datatype CounterTrigger = CounterTrigger(counter: string, operator: string, value: int32, goto: string)

  // The values `new T()` gives, field by field as the property initialisers say.

  function NewStory(): Story { Story([]) }

  function NewStoryNode(): StoryNode
  {
    StoryNode("", None, false, None, false, None, None, [], [], [], [])
  }

  function NewCharacterState(): CharacterState { CharacterState("", None, "left", None) }

  function NewStoryOption(): StoryOption { StoryOption("", None, []) }

  function NewCounterChange(): CounterChange { CounterChange("", 0) }

  function NewCounterTrigger(): CounterTrigger { CounterTrigger("", ">=", 0, "") }

  /** What a freshly constructed record holds before anyone sets a field. */
  lemma DefaultValues()
    ensures NewStory().nodes == []
    ensures var n := NewStoryNode();
      && n.id == ""
      && !n.backgroundExplicitlySet && !n.musicExplicitlySet
      && n.background.None? && n.music.None? && n.speaker.None? && n.text.None?
      && n.characters == [] && n.options == [] && n.changes == [] && n.counterTriggers == []
    ensures var c := NewCharacterState();
      c.name == "" && c.side == "left" && c.image.None? && c.expression.None?
    ensures var o := NewStoryOption();
      o.text == "" && o.goto.None? && o.changes == []
    ensures NewCounterChange().counter == "" && NewCounterChange().delta == 0
    ensures var t := NewCounterTrigger();
      t.counter == "" && t.operator == ">=" && t.value == 0 && t.goto == ""
  {
  }
}
