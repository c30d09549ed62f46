/**
 * `Command`: the input being typed, its parsed parts and the action the
 * last event asked for.
 *
 * `State` and the functions over it are the specification: `KeyStep` and
 * `EventStep` say what one event does. The class `Command` holds the same
 * three fields and updates them in place; its methods are proved to follow
 * the specification and to keep the parts equal to the parse of the text.
 */
module Commands {
  import opened Wrappers
  import opened Events
  import Invocations
  import Parts
  import Actions

  datatype State = State(raw: string, parts: Parts.CommandParts, action: Actions.Action)

  /** The cached parts are those of the visible text. */
  predicate Consistent(st: State) {
    st.parts == Parts.From(st.raw)
  }

  /** `Command::new`: empty text, nothing parsed, no action yet. */
  function Initial(): (st: State)
    ensures Consistent(st)
  {
    State("", Parts.New(), Actions.Unparsed)
  }

  /**
   * `Command::from`: a whole command given at once, outside the editor. A
   * ':' anywhere in it counts as pressing enter.
   */
  function FromText(raw: string): (st: State)
    ensures Consistent(st) && st.raw == raw
    ensures st.action.Verb? || st.action.OpenSelection? <==> ':' in raw
    ensures st.action.Verb? || st.action.VerbEdit? <==> st.parts.verbInvocation.Some?
  {
    var parts := Parts.From(raw);
    State(raw, parts, Actions.From(parts, ':' in raw))
  }

  /** A '?' opens the help when it would be the first character or part of the verb. */
  predicate OpensHelp(st: State, c: char) {
    c == '?' && (st.raw == [] || st.parts.verbInvocation.Some?)
  }

  /** A character key that is added to the text. */
  predicate IsTyped(st: State, c: char) {
    c != '\t' && c != '\n' && !OpensHelp(st, c)
  }

  /** The state once the text has become `raw` by typing or erasing. */
  function Edited(raw: string): (st: State)
    ensures Consistent(st) && st.raw == raw
  {
    var parts := Parts.From(raw);
    State(raw, parts, Actions.From(parts, false))
  }

  /** `Command::add_key`. */
  function KeyStep(st: State, key: Key): (t: State)
    ensures || t.raw == st.raw
            || (key.Char? && IsTyped(st, key.c) && t.raw == st.raw + [key.c])
            || (key.Backspace? && st.raw != [] && t.raw == st.raw[..|st.raw| - 1])
    ensures t.raw == st.raw ==> t.parts == st.parts
    ensures Consistent(st) ==> Consistent(t)
  {
    match key
    case Char(c) =>
      if c == '\t' then st.(action := Actions.Next)
      else if c == '\n' then st.(action := Actions.From(st.parts, true))
      else if OpensHelp(st, c) then st.(action := Actions.Help)
      else Edited(st.raw + [c])
    case Alt(c) =>
      if c == '\r' || c == '\n' then st.(action := Actions.AltOpenSelection) else st
    case Ctrl(c) =>
      if c == 'q' then st.(action := Actions.Quit)
      else if c == 'u' then st.(action := Actions.ScrollPage(-1))
      else if c == 'd' then st.(action := Actions.ScrollPage(1))
      else st
    case Up => st.(action := Actions.MoveSelection(-1))
    case Down => st.(action := Actions.MoveSelection(1))
    case F(n) => if n == 5 then st.(action := Actions.Refresh) else st
    case PageUp => st.(action := Actions.ScrollPage(-1))
    case PageDown => st.(action := Actions.ScrollPage(1))
    case Esc => st.(action := Actions.Back)
    case Backspace =>
      if st.raw == [] then st.(action := Actions.Back) else Edited(st.raw[..|st.raw| - 1])
    case Other => st
  }

  /** `Command::add_event`. */
  function EventStep(st: State, event: Event): (t: State)
    ensures event.Click? ==> t == st.(action := Actions.Click(event.x, event.y))
    ensures event.DoubleClick? ==> t == st.(action := Actions.DoubleClick(event.x, event.y))
    ensures Consistent(st) ==> Consistent(t)
  {
    match event
    case Click(x, y) => st.(action := Actions.Click(x, y))
    case DoubleClick(x, y) => st.(action := Actions.DoubleClick(x, y))
    case Key(key) => KeyStep(st, key)
  }

  /** The state after a sequence of events. */
  function Run(st: State, events: seq<Event>): State
    decreases |events|
  {
    if events == [] then st else Run(EventStep(st, events[0]), events[1..])
  }

  /** Every state the editor reaches keeps its parts equal to the parse of its text. */
  lemma {:induction false} RunKeepsConsistent(st: State, events: seq<Event>)
    requires Consistent(st)
    ensures Consistent(Run(st, events))
    decreases |events|
  {
    if events != [] {
      RunKeepsConsistent(EventStep(st, events[0]), events[1..]);
    }
  }

  /** Typing a character and erasing it gives back the text and its parts. */
  lemma BackspaceUndoesTyping(st: State, c: char)
    requires Consistent(st) && IsTyped(st, c)
    ensures var t := KeyStep(KeyStep(st, Char(c)), Backspace);
      t.raw == st.raw && t.parts == st.parts && t.action == Actions.From(st.parts, false)
  {
    assert (st.raw + [c])[..|st.raw|] == st.raw;
  }

  /** A typed character is appended, and the parts and action follow the new text. */
  lemma TypingAppends(st: State, c: char)
    requires IsTyped(st, c)
    ensures KeyStep(st, Char(c)).raw == st.raw + [c] != st.raw
    ensures KeyStep(st, Char(c)) == Edited(st.raw + [c])
  {
  }

  /** Backspace on a non-empty text removes its last character and re-parses it. */
  lemma BackspaceErases(st: State)
    requires st.raw != []
    ensures KeyStep(st, Backspace).raw == st.raw[..|st.raw| - 1] != st.raw
    ensures KeyStep(st, Backspace) == Edited(st.raw[..|st.raw| - 1])
  {
  }

  /** Backspace on an empty text goes back and changes nothing else. */
  lemma BackspaceOnEmptyGoesBack(st: State)
    requires st.raw == []
    ensures KeyStep(st, Backspace) == st.(action := Actions.Back)
  {
  }

  /**
   * A '?' is typed exactly when the text is not empty and no verb has been
   * started; otherwise it opens the help and leaves the text alone.
   */
  lemma QuestionMark(st: State)
    requires Consistent(st)
    ensures var t := KeyStep(st, Char('?'));
      if st.raw == [] || Parts.From(st.raw).verbInvocation.Some? then
        t == st.(action := Actions.Help)
      else
        t.raw == st.raw + ['?'] && t.action == Actions.From(Parts.From(t.raw), false)
  {
  }

  /** Tab and enter are never typed; enter commits what the text holds. */
  lemma TabAndEnterAreNotTyped(st: State)
    requires Consistent(st)
    ensures KeyStep(st, Char('\t')) == st.(action := Actions.Next)
    ensures var t := KeyStep(st, Char('\n'));
      t.raw == st.raw && t.parts == st.parts
      && (t.action.Verb? || t.action.OpenSelection?)
      && t.action == Actions.From(Parts.From(st.raw), true)
  {
  }

  /** The keys the editor does not handle leave the state as it was. */
  predicate Ignored(key: Key) {
    || key.Other?
    || (key.Alt? && key.c != '\r' && key.c != '\n')
    || (key.Ctrl? && key.c != 'q' && key.c != 'u' && key.c != 'd')
    || (key.F? && key.n != 5)
  }

  lemma IgnoredKeysChangeNothing(st: State, key: Key)
    requires Ignored(key)
    ensures KeyStep(st, key) == st
  {
  }

  /**
   * Apart from the ignored keys, the state after a key depends only on the
   * text before it, not on the action that came before.
   */
  lemma KeyStepForgetsHistory(st1: State, st2: State, key: Key)
    requires Consistent(st1) && Consistent(st2) && st1.raw == st2.raw
    requires !Ignored(key)
    ensures KeyStep(st1, key) == KeyStep(st2, key)
  {
  }

  /** Typing 'a' on an empty input edits the fuzzy pattern "a". */
  lemma ExampleTypeA()
    ensures KeyStep(Initial(), Char('a')) == State("a", Parts.CommandParts(Some("a"), None, None), Actions.FuzzyPatternEdit("a"))
  {
    assert "a" + Parts.TailText(None) == "a";
    Parts.PlainPatternHasNoFlags("a", None);
    assert IsTyped(Initial(), 'a');
    assert Initial().raw + ['a'] == "a";
    assert KeyStep(Initial(), Char('a')) == Edited("a");
  }

  /**
   * Typing 'a', then '/', then erasing the '/': a fuzzy pattern, a regex
   * without flags, and the same fuzzy pattern again.
   */
  lemma ExampleRegexRoundTrip()
    ensures var s1 := KeyStep(Initial(), Char('a'));
      var s2 := KeyStep(s1, Char('/'));
      && s2.action == Actions.RegexEdit("a", "")
      && KeyStep(s2, Backspace) == s1
  {
    ExampleTypeA();
    var s1 := KeyStep(Initial(), Char('a'));
    assert Parts.Lead(false) + "a" + "/" + "" + Parts.TailText(None) == s1.raw + ['/'];
    Parts.ExplicitFlagsWin(false, "a", "", None);
    BackspaceUndoesTyping(s1, '/');
  }

  /** A '?' typed first opens the help and is not added to the text. */
  lemma ExampleQuestionMarkFirst()
    ensures KeyStep(Initial(), Char('?')) == Initial().(action := Actions.Help)
  {
  }

  /** A '?' typed after a plain pattern becomes part of the pattern. */
  lemma QuestionMarkExtendsPattern(st: State)
    requires Consistent(st) && Parts.IsToken(st.raw)
    ensures KeyStep(st, Char('?')).action == Actions.FuzzyPatternEdit(st.raw + ['?'])
  {
    var p := st.raw;
    assert p + Parts.TailText(None) == p;
    Parts.PlainPatternHasNoFlags(p, None);
    var q := p + ['?'];
    assert Parts.IsToken(q) by {
      assert forall i :: 0 <= i < |p| ==> q[i] == p[i];
    }
    assert q + Parts.TailText(None) == q;
    Parts.PlainPatternHasNoFlags(q, None);
  }

  /** A space only starts the verb of a command given whole. */
  lemma ExampleFromTextSpace()
    ensures FromText("a b").action == Actions.VerbEdit(Invocations.Parse("b"))
  {
    assert "a" + Parts.TailText(Some(Parts.Tail(" ", "b"))) == "a b";
    Parts.PlainPatternHasNoFlags("a", Some(Parts.Tail(" ", "b")));
    assert ':' !in "a b";
  }

  /** A ':' commits the verb of a command given whole. */
  lemma ExampleFromTextColon()
    ensures FromText(":q").action == Actions.Verb(Invocations.Parse("q"))
    ensures FromText("abc:verb arg").action == Actions.Verb(Invocations.Parse("verb arg"))
  {
    Parts.ExampleVerbOnly();
    assert ":q"[0] == ':';
    Parts.ExamplePatternAndVerb();
    assert "abc:verb arg"[3] == ':';
  }

  /** The editor: the visible text, its parts and the last action, updated in place. */
  class Command {
    var raw: string                  // what is visible in the input
    var parts: Parts.CommandParts    // the parsed parts of the visible input
    var action: Actions.Action       // what the last event asked for

    ghost predicate Valid()
      reads this
    {
      parts == Parts.From(raw)
    }

    function Snapshot(): State
      reads this
    {
      State(raw, parts, action)
    }

    constructor ()
      ensures Valid() && Snapshot() == Initial()
    {
      raw := "";
      parts := Parts.New();
      action := Actions.Unparsed;
    }

    constructor From(raw: string)
      ensures Valid() && Snapshot() == FromText(raw)
    {
      var parts := Parts.From(raw);
      this.raw := raw;
      this.parts := parts;
      this.action := Actions.From(parts, ':' in raw);
    }

    method AddEvent(event: Event)
      requires Valid()
      modifies this
      ensures Valid()
      ensures Snapshot() == EventStep(old(Snapshot()), event)
    {
      match event
      case Click(x, y) =>
        action := Actions.Click(x, y);
      case DoubleClick(x, y) =>
        action := Actions.DoubleClick(x, y);
      case Key(key) =>
        AddKey(key);
    }

    method AddKey(key: Key)
      requires Valid()
      modifies this
      ensures Valid()
      ensures Snapshot() == KeyStep(old(Snapshot()), key)
    {
      match key
      case Char(c) =>
        if c == '\t' {
          action := Actions.Next;
        } else if c == '\n' {
          action := Actions.From(parts, true);
        } else if c == '?' && (raw == [] || parts.verbInvocation.Some?) {
          action := Actions.Help;
        } else {
          raw := raw + [c];
          parts := Parts.From(raw);
          action := Actions.From(parts, false);
        }
      case Alt(c) =>
        if c == '\r' || c == '\n' {
          action := Actions.AltOpenSelection;
        }
      case Ctrl(c) =>
        if c == 'q' {
          action := Actions.Quit;
        } else if c == 'u' {
          action := Actions.ScrollPage(-1);
        } else if c == 'd' {
          action := Actions.ScrollPage(1);
        }
      case Up =>
        action := Actions.MoveSelection(-1);
      case Down =>
        action := Actions.MoveSelection(1);
      case F(n) =>
        if n == 5 {
          action := Actions.Refresh;
        }
      case PageUp =>
        action := Actions.ScrollPage(-1);
      case PageDown =>
        action := Actions.ScrollPage(1);
      case Esc =>
        action := Actions.Back;
      case Backspace =>
        if raw == [] {
          action := Actions.Back;
        } else {
          raw := raw[..|raw| - 1];
          parts := Parts.From(raw);
          action := Actions.From(parts, false);
        }
      case Other =>
    }
  }
}
