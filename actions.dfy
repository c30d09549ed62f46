/**
 * `Action`: what the user asks for, derived from the parsed input and from
 * whether the input was finished (enter was pressed).
 */
module Actions {
  import opened Wrappers
  import opened Events
  import Invocations
  import Parts

  type i32 = x: int | -0x8000_0000 <= x < 0x8000_0000

  datatype Action =
    | MoveSelection(lines: i32)          // up (negative) or down (positive) in the list
    | ScrollPage(pages: i32)             // in pages, not lines
    | OpenSelection                      // open the selected line
    | AltOpenSelection                   // open the selected line the alternate way
    | VerbEdit(invocation: Invocations.VerbInvocation)  // a verb invocation being typed
    | Verb(invocation: Invocations.VerbInvocation)      // a verb invocation, after enter
    | FuzzyPatternEdit(pattern: string)  // a fuzzy pattern being typed
    | RegexEdit(core: string, flags: string)  // a regex being typed
    | Back                               // back to the previous state, or clear the pattern
    | Next                               // go to the next matching entry
    | Refresh
    | Help
    | Quit
    | Click(x: u16, y: u16)              // a mouse click
    | DoubleClick(x: u16, y: u16)        // always after a click at the same position
    | Unparsed

  /** The actions that stand for the typed input itself. */
  predicate IsInputAction(a: Action) {
    a.Verb? || a.VerbEdit? || a.OpenSelection? || a.RegexEdit? || a.FuzzyPatternEdit?
  }

  /**
   * `Action::from`: the first rule that applies wins. A verb invocation
   * makes a verb (committed when finished); else a finished input opens the
   * selection; else a pattern with flags is a regex, and any other pattern,
   * or none, is a fuzzy pattern.
   */
  function From(cp: Parts.CommandParts, finished: bool): (a: Action)
    ensures IsInputAction(a)
    ensures a.Verb? <==> cp.verbInvocation.Some? && finished
    ensures a.VerbEdit? <==> cp.verbInvocation.Some? && !finished
    ensures a.Verb? || a.VerbEdit? ==> a.invocation == cp.verbInvocation.value
    ensures a.OpenSelection? <==> cp.verbInvocation.None? && finished
    ensures a.RegexEdit? <==>
              cp.verbInvocation.None? && !finished && cp.pattern.Some? && cp.regexFlags.Some?
    ensures a.RegexEdit? ==> a.core == cp.pattern.value && a.flags == cp.regexFlags.value
    ensures a.FuzzyPatternEdit? ==>
              a.pattern == (match cp.pattern case None => "" case Some(p) => p)
  {
    match cp.verbInvocation
    case Some(invocation) =>
      if finished then Verb(invocation) else VerbEdit(invocation)
    case None =>
      if finished then
        OpenSelection
      else
        match cp.pattern
        case Some(pattern) =>
          (match cp.regexFlags
           case Some(flags) => RegexEdit(pattern, flags)
           case None => FuzzyPatternEdit(pattern))
        case None => FuzzyPatternEdit("")
  }

  /** A regex is edited only when the text holds a '/'. */
  lemma RegexNeedsSlash(s: string, finished: bool)
    requires From(Parts.From(s), finished).RegexEdit?
    ensures '/' in s
  {
    var c := Parts.Scan(s).value;
    Parts.ScanSound(s);
    var lead := if c.slashBefore then "/" else "";
    assert s == lead + c.pattern + Parts.FlagsText(c.regexFlags) + Parts.TailText(c.tail);
    if c.slashBefore {
      assert s[0] == '/';
    } else {
      assert s[|c.pattern|] == '/';
    }
  }

  /**
   * A fuzzy pattern is what the text starts with: it is never taken from
   * after a slash or a separator.
   */
  lemma FuzzyPatternIsPrefix(s: string, finished: bool)
    requires From(Parts.From(s), finished).FuzzyPatternEdit?
    ensures From(Parts.From(s), finished).pattern <= s
  {
    if Parts.Scan(s).Some? {
      var c := Parts.Scan(s).value;
      Parts.ScanSound(s);
      if c.pattern != [] {
        assert s == c.pattern + (Parts.FlagsText(c.regexFlags) + Parts.TailText(c.tail));
      }
    }
  }

  /**
   * A verb invocation is parsed from the text that follows a separator
   * character ('\s' or ':') typed after the pattern and flags.
   */
  lemma InvocationFollowsSeparator(s: string, finished: bool)
    requires From(Parts.From(s), finished).Verb? || From(Parts.From(s), finished).VerbEdit?
    ensures exists k :: 0 < k <= |s| && Parts.In(Parts.SeparatorChars, s[k - 1])
                        && From(Parts.From(s), finished).invocation == Invocations.Parse(s[k..])
  {
    Parts.InvocationFollowsSeparator(s);
  }
}
