/**
 * `CommandParts`: the split of the raw input into a pattern, regex flags and
 * a verb invocation.
 *
 * The source splits the text with one anchored regular expression,
 *
 *     ^ (/)? ([^\s/:]+)? (?:/(\w*))? (?:[\s:]+(.*))? $
 *
 * matched with leftmost-first priority (greedy groups prefer to match, and
 * to match as much as they can). Here that expression is given twice:
 *
 *  - declaratively, as the set of ways `Matches(s, c)` in which a text `s`
 *    can be cut into the groups `c`, with the priority order `Preferred`;
 *  - operationally, as the single-pass scanner `Scan`.
 *
 * The lemmas show that `Scan` finds a cut exactly when the expression
 * matches, and that the cut it finds is the one the priority order selects.
 */
module Parts {
  import opened Wrappers
  import Invocations

  // ----- Character classes -----

  /** `\s`: the characters with the Unicode White_Space property. */
  predicate IsSpace(c: char) {
    || ('\t' <= c <= '\r')  // tab, line feed, vertical tab, form feed, carriage return
    || c == ' ' || c == '\U{85}' || c == '\U{A0}' || c == '\U{1680}'
    || ('\U{2000}' <= c <= '\U{200A}')
    || c == '\U{2028}' || c == '\U{2029}' || c == '\U{202F}' || c == '\U{205F}'
    || c == '\U{3000}'
  }

  /** `\w`, restricted to ASCII: letters, digits and the underscore. */
  predicate IsWord(c: char) {
    ('0' <= c <= '9') || ('A' <= c <= 'Z') || ('a' <= c <= 'z') || c == '_'
  }

  /** The three character classes of the expression. */
  datatype CharClass =
    | PatternChars    // [^\s/:]
    | WordChars       // \w
    | SeparatorChars  // [\s:]

  predicate In(cls: CharClass, c: char) {
    match cls
    case PatternChars => !IsSpace(c) && c != '/' && c != ':'
    case WordChars => IsWord(c)
    case SeparatorChars => IsSpace(c) || c == ':'
  }

  predicate AllIn(cls: CharClass, s: string) {
    forall i :: 0 <= i < |s| ==> In(cls, s[i])
  }

  /** A pattern token: a non-empty run of pattern characters. */
  predicate IsToken(p: string) {
    p != [] && AllIn(PatternChars, p)
  }

  /** The end of the longest run of `cls` characters that starts at `i`. */
  function RunEnd(s: string, i: nat, cls: CharClass): (j: nat)
    requires i <= |s|
    ensures i <= j <= |s|
    ensures forall k :: i <= k < j ==> In(cls, s[k])
    ensures j < |s| ==> !In(cls, s[j])
    decreases |s| - i
  {
    if i < |s| && In(cls, s[i]) then RunEnd(s, i + 1, cls) else i
  }

  /** A run that ends at `j` and cannot be extended is the run `RunEnd` finds. */
  lemma RunEndAt(s: string, i: nat, j: nat, cls: CharClass)
    requires i <= j <= |s|
    requires forall k :: i <= k < j ==> In(cls, s[k])
    requires j < |s| ==> !In(cls, s[j])
    ensures RunEnd(s, i, cls) == j
  {
  }

  // ----- The expression, declaratively -----

  /** The separator and the verb text of `(?:[\s:]+(.*))`. */
  datatype Tail = Tail(separator: string, verb: string)

  /**
   * One way of cutting a text into the groups of the expression. An absent
   * pattern group is the empty pattern (the group needs one character).
   */
  datatype Captures = Captures(
    slashBefore: bool,
    pattern: string,
    regexFlags: Option<string>,
    tail: Option<Tail>)

  function TailText(tail: Option<Tail>): string {
    match tail
    case None => ""
    case Some(t) => t.separator + t.verb
  }

  function FlagsText(flags: Option<string>): string {
    match flags
    case None => ""
    case Some(f) => "/" + f
  }

  /** The text covered by the leading slash, the pattern and the flags. */
  function HeadText(c: Captures): string {
    (if c.slashBefore then "/" else "") + c.pattern + FlagsText(c.regexFlags)
  }

  /** The text a cut covers, group after group. */
  function Text(c: Captures): string {
    HeadText(c) + TailText(c.tail)
  }

  /** `(?:[\s:]+(.*))`: a non-empty separator run, then anything but '\n'. */
  predicate TailMatches(tail: Option<Tail>) {
    tail.Some? ==>
      && tail.value.separator != []
      && AllIn(SeparatorChars, tail.value.separator)
      && '\n' !in tail.value.verb
  }

  /** Every group holds only characters of its class. */
  predicate WellFormed(c: Captures) {
    && AllIn(PatternChars, c.pattern)
    && (c.regexFlags.Some? ==> AllIn(WordChars, c.regexFlags.value))
    && TailMatches(c.tail)
  }

  /** The anchored expression matches `s` with the groups `c`. */
  predicate Matches(s: string, c: Captures) {
    WellFormed(c) && Text(c) == s
  }

  /** A tail whose separator is the whole run of separator characters. */
  predicate CanonicalTail(tail: Option<Tail>) {
    && TailMatches(tail)
    && (tail.Some? && tail.value.verb != [] ==> !In(SeparatorChars, tail.value.verb[0]))
  }

  /**
   * The cuts the scanner produces: the separator run is maximal, and a
   * leading '/' is always taken by the first group rather than read as the
   * start of an empty pattern's flags.
   */
  predicate Canonical(c: Captures) {
    && WellFormed(c)
    && CanonicalTail(c.tail)
    && (c.slashBefore || c.pattern != [] || c.regexFlags.None?)
  }

  function FlagsRank(c: Captures): nat {
    match c.regexFlags
    case None => 0
    case Some(f) => 1 + |f|
  }

  function TailRank(c: Captures): nat {
    match c.tail
    case None => 0
    case Some(t) => 1 + |t.separator|
  }

  /**
   * Leftmost-first priority: the groups decide in order, an optional group
   * prefers to match, and a repetition prefers more characters.
   */
  predicate Preferred(a: Captures, b: Captures) {
    || (a.slashBefore && !b.slashBefore)
    || (a.slashBefore == b.slashBefore && |a.pattern| > |b.pattern|)
    || (a.slashBefore == b.slashBefore && |a.pattern| == |b.pattern|
        && FlagsRank(a) > FlagsRank(b))
    || (a.slashBefore == b.slashBefore && |a.pattern| == |b.pattern|
        && FlagsRank(a) == FlagsRank(b) && TailRank(a) > TailRank(b))
  }

  // ----- The expression, as a scanner -----

  /**
   * Matches `(?:[\s:]+(.*))?$` against the text left after the flags:
   * `Some(None)` when nothing is left, `None` when the expression fails.
   */
  function ScanTail(rest: string): (r: Option<Option<Tail>>)
    ensures r.Some? ==> CanonicalTail(r.value) && TailText(r.value) == rest
  {
    if rest == [] then
      Some(None)
    else if !In(SeparatorChars, rest[0]) then
      None
    else
      var verbStart := RunEnd(rest, 0, SeparatorChars);
      assert rest == rest[..verbStart] + rest[verbStart..];
      if '\n' in rest[verbStart..] then None
      else Some(Some(Tail(rest[..verbStart], rest[verbStart..])))
  }

  lemma ScanTailText(tail: Option<Tail>)
    requires CanonicalTail(tail)
    ensures ScanTail(TailText(tail)) == Some(tail)
  {
    if tail.Some? {
      var t := tail.value;
      var rest := TailText(tail);
      assert rest[..|t.separator|] == t.separator && rest[|t.separator|..] == t.verb;
      assert rest[0] == t.separator[0];
      assert |t.separator| < |rest| ==> rest[|t.separator|] == t.verb[0];
      RunEndAt(rest, 0, |t.separator|, SeparatorChars);
    }
  }

  /** Matches the expression against `s`; `None` when it does not match. */
  function Scan(s: string): (r: Option<Captures>)
    ensures r.Some? ==> Canonical(r.value)
  {
    var slash := |s| > 0 && s[0] == '/';
    var start := if slash then 1 else 0;
    var patternEnd := RunEnd(s, start, PatternChars);
    var hasFlags := patternEnd < |s| && s[patternEnd] == '/';
    var flagsEnd := if hasFlags then RunEnd(s, patternEnd + 1, WordChars) else patternEnd;
    var flags := if hasFlags then Some(s[patternEnd + 1..flagsEnd]) else None;
    match ScanTail(s[flagsEnd..])
    case None => None
    case Some(tail) => Some(Captures(slash, s[start..patternEnd], flags, tail))
  }

  /** A sequence is the concatenation of its pieces cut at `a <= b <= c`. */
  lemma Cut<T>(s: seq<T>, a: nat, b: nat, c: nat)
    requires a <= b <= c <= |s|
    ensures s == s[..a] + s[a..b] + s[b..c] + s[c..]
  {
    assert s[..c] == s[..a] + s[a..b] + s[b..c];
    assert s == s[..c] + s[c..];
  }

  /** What the scanner finds is a match of the expression on `s`. */
  lemma ScanSound(s: string)
    requires Scan(s).Some?
    ensures Matches(s, Scan(s).value)
  {
    var c := Scan(s).value;
    var slash := |s| > 0 && s[0] == '/';
    var start := if slash then 1 else 0;
    var patternEnd := RunEnd(s, start, PatternChars);
    var hasFlags := patternEnd < |s| && s[patternEnd] == '/';
    var flagsEnd := if hasFlags then RunEnd(s, patternEnd + 1, WordChars) else patternEnd;
    assert TailText(c.tail) == s[flagsEnd..];
    assert (if slash then "/" else "") == s[..start] by {
      if slash { assert s[..1] == [s[0]]; }
    }
    assert c.pattern == s[start..patternEnd];
    assert FlagsText(c.regexFlags) == s[patternEnd..flagsEnd] by {
      if hasFlags {
        assert s[patternEnd..flagsEnd] == [s[patternEnd]] + s[patternEnd + 1..flagsEnd];
      }
    }
    Cut(s, start, patternEnd, flagsEnd);
  }

  /**
   * The slash, pattern and flags groups of a cut are well formed, and a
   * leading '/' belongs to the first group.
   */
  predicate CanonicalHead(c: Captures) {
    && AllIn(PatternChars, c.pattern)
    && (c.regexFlags.Some? ==> AllIn(WordChars, c.regexFlags.value))
    && (c.slashBefore || c.pattern != [] || c.regexFlags.None?)
  }

  /** The character after the head cannot extend its last group. */
  predicate StopsHead(c: Captures, rest: string) {
    rest != [] ==>
      if c.regexFlags.Some? then !In(WordChars, rest[0])
      else !In(PatternChars, rest[0]) && rest[0] != '/'
  }

  /** The first character of a canonical head decides the leading slash. */
  lemma LeadingSlashOfHead(c: Captures, rest: string)
    requires CanonicalHead(c) && StopsHead(c, rest)
    ensures var s := HeadText(c) + rest; (|s| > 0 && s[0] == '/') == c.slashBefore
  {
    var s := HeadText(c) + rest;
    if !c.slashBefore && |s| > 0 {
      if c.pattern != [] {
        assert s[0] == c.pattern[0];
      } else {
        assert c.regexFlags.None?;
        assert s == rest;
      }
    }
  }

  /** Where the groups of a head lie in the text it starts. */
  lemma HeadLayout(c: Captures, rest: string)
    ensures var s := HeadText(c) + rest;
      var start := if c.slashBefore then 1 else 0;
      var patternEnd := start + |c.pattern|;
      var flagsEnd := patternEnd + |FlagsText(c.regexFlags)|;
      && flagsEnd <= |s|
      && s[start..patternEnd] == c.pattern
      && s[patternEnd..flagsEnd] == FlagsText(c.regexFlags)
      && s[flagsEnd..] == rest
  {
    var lead := if c.slashBefore then "/" else "";
    assert HeadText(c) + rest == lead + c.pattern + FlagsText(c.regexFlags) + rest;
  }

  /**
   * The scanner reads the head groups of a text without looking past them:
   * what follows is left to the tail.
   */
  lemma ScanHead(c: Captures, rest: string)
    requires CanonicalHead(c) && StopsHead(c, rest)
    ensures Scan(HeadText(c) + rest) ==
      match ScanTail(rest)
      case None => None
      case Some(tail) => Some(c.(tail := tail))
  {
    var s := HeadText(c) + rest;
    var start := if c.slashBefore then 1 else 0;
    var patternEnd := start + |c.pattern|;
    var flagsEnd := patternEnd + |FlagsText(c.regexFlags)|;
    LeadingSlashOfHead(c, rest);
    HeadLayout(c, rest);
    if c.regexFlags.Some? {
      assert s[patternEnd] == s[patternEnd..flagsEnd][0] == '/';
      assert s[patternEnd + 1..flagsEnd] == c.regexFlags.value;
      assert flagsEnd < |s| ==> s[flagsEnd] == rest[0];
      RunEndAt(s, start, patternEnd, PatternChars);
      RunEndAt(s, patternEnd + 1, flagsEnd, WordChars);
    } else {
      assert patternEnd < |s| ==> s[patternEnd] == rest[0];
      RunEndAt(s, start, patternEnd, PatternChars);
    }
  }

  /** Round trip: scanning the text of a canonical cut gives that cut back. */
  lemma ScanText(c: Captures)
    requires Canonical(c)
    ensures Scan(Text(c)) == Some(c)
  {
    var rest := TailText(c.tail);
    if rest != [] {
      assert rest[0] == c.tail.value.separator[0];
    }
    ScanHead(c, rest);
    ScanTailText(c.tail);
  }

  /**
   * Rewrites a match into the canonical one: the leading '/' goes to the
   * first group and the separator absorbs the whole separator run.
   */
  function Normalize(c: Captures): Captures
    requires WellFormed(c)
  {
    ExtendSeparator(SlashFirst(c))
  }

  /** An empty pattern's flags that start the text are read as a leading '/' and a pattern. */
  function SlashFirst(c: Captures): Captures {
    if !c.slashBefore && c.pattern == [] && c.regexFlags.Some? then
      Captures(true, c.regexFlags.value, None, c.tail)
    else
      c
  }

  /** The separator takes in every separator character that starts the verb. */
  function ExtendSeparator(c: Captures): Captures {
    match c.tail
    case None => c
    case Some(t) =>
      var k := RunEnd(t.verb, 0, SeparatorChars);
      c.(tail := Some(Tail(t.separator + t.verb[..k], t.verb[k..])))
  }

  lemma SlashFirstPreferred(c: Captures)
    requires WellFormed(c)
    ensures var c1 := SlashFirst(c);
      && WellFormed(c1) && Text(c1) == Text(c) && c1.tail == c.tail
      && (c1.slashBefore || c1.pattern != [] || c1.regexFlags.None?)
      && (c1 == c || (c1.slashBefore && !c.slashBefore))
  {
    if !c.slashBefore && c.pattern == [] && c.regexFlags.Some? {
      var w := c.regexFlags.value;
      assert AllIn(PatternChars, w) by {
        assert forall i :: 0 <= i < |w| ==> In(WordChars, w[i]);
      }
      assert HeadText(SlashFirst(c)) == "/" + w == HeadText(c);
    }
  }

  /** Moving the start of the verb into the separator keeps the text. */
  lemma MoveIntoSeparator(separator: string, verb: string, k: nat)
    requires k <= |verb|
    ensures (separator + verb[..k]) + verb[k..] == separator + verb
    ensures k == 0 ==> separator + verb[..k] == separator && verb[k..] == verb
  {
    assert verb == verb[..k] + verb[k..];
  }

  lemma ExtendSeparatorPreferred(c: Captures)
    requires WellFormed(c)
    ensures var n := ExtendSeparator(c);
      && WellFormed(n) && CanonicalTail(n.tail) && Text(n) == Text(c)
      && n.slashBefore == c.slashBefore && n.pattern == c.pattern
      && n.regexFlags == c.regexFlags
      && (n == c || TailRank(n) > TailRank(c))
  {
    if c.tail.Some? {
      var t := c.tail.value;
      var k := RunEnd(t.verb, 0, SeparatorChars);
      MoveIntoSeparator(t.separator, t.verb, k);
      var n := ExtendSeparator(c);
      assert TailText(n.tail) == TailText(c.tail);
      assert HeadText(n) == HeadText(c);
    }
  }

  lemma NormalizeCanonical(c: Captures)
    requires WellFormed(c)
    ensures Canonical(Normalize(c))
    ensures Text(Normalize(c)) == Text(c)
    ensures Normalize(c) == c || Preferred(Normalize(c), c)
  {
    SlashFirstPreferred(c);
    ExtendSeparatorPreferred(SlashFirst(c));
  }

  /**
   * The expression is matched with leftmost-first priority: whenever it
   * matches, the scanner succeeds, and its cut is preferred to every other.
   */
  lemma ScanIsLeftmostFirst(s: string, c: Captures)
    requires Matches(s, c)
    ensures Scan(s).Some?
    ensures Scan(s).value == c || Preferred(Scan(s).value, c)
  {
    NormalizeCanonical(c);
    ScanText(Normalize(c));
  }

  /** The scanner fails exactly when the anchored expression does not match. */
  lemma ScanFailsIffNoMatch(s: string)
    ensures Scan(s).None? <==> forall c :: !Matches(s, c)
  {
    if Scan(s).Some? {
      ScanSound(s);
    } else {
      forall c | Matches(s, c) ensures false {
        ScanIsLeftmostFirst(s, c);
      }
    }
  }

  // ----- CommandParts -----

  datatype CommandParts = CommandParts(
    pattern: Option<string>,                            // a fuzzy pattern or the core of a regex
    regexFlags: Option<string>,                         // Some("") when a regex was asked for without flags
    verbInvocation: Option<Invocations.VerbInvocation>) // present once a separator was typed

  /** `CommandParts::new`: nothing parsed. */
  function New(): (cp: CommandParts)
    ensures cp.pattern.None? && cp.regexFlags.None? && cp.verbInvocation.None?
  {
    CommandParts(None, None, None)
  }

  /** The empty text parses to nothing: `New` is the parse of "". */
  lemma EmptyTextHasNoParts()
    ensures From("") == New()
  {
    assert TailText(None) == "";
  }

  /**
   * `CommandParts::from`: the parts of `raw`. A pattern is kept only when
   * the pattern group matched; the flags come from an explicit `/flags`
   * suffix, else are empty when the text started with '/'. When the
   * expression does not match at all, every part is absent.
   */
  function From(raw: string): (cp: CommandParts)
    ensures cp.regexFlags.Some? ==> cp.pattern.Some?
    ensures cp.pattern.Some? ==> IsToken(cp.pattern.value)
    ensures Scan(raw).None? ==> cp == New()
  {
    match Scan(raw)
    case None => New()
    case Some(c) =>
      CommandParts(
        if c.pattern == [] then None else Some(c.pattern),
        if c.pattern == [] then None
        else if c.regexFlags.Some? then c.regexFlags
        else if c.slashBefore then Some("")
        else None,
        match c.tail
        case None => None
        case Some(t) => Some(Invocations.Parse(t.verb)))
  }

  /** The invocation parsed from a tail, if there is one. */
  function InvocationOf(tail: Option<Tail>): Option<Invocations.VerbInvocation> {
    match tail
    case None => None
    case Some(t) => Some(Invocations.Parse(t.verb))
  }

  /** In the text of a cut, a separator character comes just before the verb. */
  lemma SeparatorBeforeVerb(s: string, head: string, t: Tail)
    requires s == head + (t.separator + t.verb)
    requires t.separator != [] && AllIn(SeparatorChars, t.separator)
    ensures var k := |head| + |t.separator|;
      0 < k <= |s| && In(SeparatorChars, s[k - 1]) && s[k..] == t.verb
  {
    var k := |head| + |t.separator|;
    assert s[k - 1] == t.separator[|t.separator| - 1];
  }

  /**
   * The verb invocation is parsed from the text that follows a separator
   * character ('\s' or ':').
   */
  lemma InvocationFollowsSeparator(s: string)
    requires From(s).verbInvocation.Some?
    ensures exists k :: 0 < k <= |s| && In(SeparatorChars, s[k - 1])
                        && From(s).verbInvocation.value == Invocations.Parse(s[k..])
  {
    var c := Scan(s).value;
    var t := c.tail.value;
    ScanSound(s);
    SeparatorBeforeVerb(s, HeadText(c), t);
    var k := |HeadText(c)| + |t.separator|;
    assert From(s).verbInvocation.value == Invocations.Parse(s[k..]);
  }

  // ----- The parts of typed texts -----

  function Lead(slashBefore: bool): string {
    if slashBefore then "/" else ""
  }

  /** A pattern typed without any slash is a fuzzy pattern: no flags. */
  lemma PlainPatternHasNoFlags(p: string, tail: Option<Tail>)
    requires IsToken(p) && CanonicalTail(tail)
    ensures From(p + TailText(tail)) == CommandParts(Some(p), None, InvocationOf(tail))
  {
    var c := Captures(false, p, None, tail);
    assert Text(c) == p + TailText(tail);
    ScanText(c);
  }

  /** A leading '/' asks for a regex even when no flags follow the pattern. */
  lemma LeadingSlashAsksForRegex(p: string, tail: Option<Tail>)
    requires IsToken(p) && CanonicalTail(tail)
    ensures From("/" + p + TailText(tail)) == CommandParts(Some(p), Some(""), InvocationOf(tail))
  {
    var c := Captures(true, p, None, tail);
    assert Text(c) == "/" + p + TailText(tail);
    ScanText(c);
  }

  /** Flags after a '/' following the pattern are the regex flags, leading '/' or not. */
  lemma ExplicitFlagsWin(slashBefore: bool, p: string, flags: string, tail: Option<Tail>)
    requires IsToken(p) && AllIn(WordChars, flags) && CanonicalTail(tail)
    ensures From(Lead(slashBefore) + p + "/" + flags + TailText(tail))
            == CommandParts(Some(p), Some(flags), InvocationOf(tail))
  {
    var c := Captures(slashBefore, p, Some(flags), tail);
    assert Text(c) == Lead(slashBefore) + p + "/" + flags + TailText(tail);
    ScanText(c);
  }

  /**
   * Without a pattern there are no flags, whatever slash was typed; the text
   * after the separator run is still the verb invocation.
   */
  lemma InvocationWithoutPattern(slashBefore: bool, t: Tail)
    requires CanonicalTail(Some(t))
    ensures From(Lead(slashBefore) + t.separator + t.verb)
            == CommandParts(None, None, Some(Invocations.Parse(t.verb)))
  {
    var c := Captures(slashBefore, "", None, Some(t));
    assert Text(c) == Lead(slashBefore) + t.separator + t.verb;
    ScanText(c);
  }

  /**
   * A character after the flags that is neither a word character nor a
   * separator makes the expression fail, and every part is absent.
   */
  lemma JunkAfterFlagsFails(slashBefore: bool, p: string, flags: string, x: char, rest: string)
    requires AllIn(PatternChars, p) && (slashBefore || p != [])
    requires AllIn(WordChars, flags)
    requires !In(WordChars, x) && !In(SeparatorChars, x)
    ensures From(Lead(slashBefore) + p + "/" + flags + [x] + rest) == New()
  {
    var c := Captures(slashBefore, p, Some(flags), None);
    assert HeadText(c) + ([x] + rest) == Lead(slashBefore) + p + "/" + flags + [x] + rest;
    ScanHead(c, [x] + rest);
  }

  /**
   * The verb text may not hold a line feed, which `.` does not match: the
   * expression fails and every part is absent.
   */
  lemma LineFeedInVerbFails(c: Captures, separator: string, verb: string)
    requires CanonicalHead(c)
    requires separator != [] && AllIn(SeparatorChars, separator)
    requires '\n' in verb && !In(SeparatorChars, verb[0])
    ensures From(HeadText(c) + separator + verb) == New()
  {
    var rest := separator + verb;
    assert rest[0] == separator[0];
    assert rest[..|separator|] == separator && rest[|separator|..] == verb;
    assert rest[|separator|] == verb[0];
    RunEndAt(rest, 0, |separator|, SeparatorChars);
    assert HeadText(c) + rest == HeadText(c) + separator + verb;
    ScanHead(c, rest);
  }

  // The parts of some typical inputs.

  lemma ExampleFuzzy()
    ensures From("foo") == CommandParts(Some("foo"), None, None)
  {
    assert "foo" + TailText(None) == "foo";
    PlainPatternHasNoFlags("foo", None);
  }

  lemma ExampleFlags()
    ensures From("foo/i") == CommandParts(Some("foo"), Some("i"), None)
  {
    assert Lead(false) + "foo" + "/" + "i" + TailText(None) == "foo/i";
    ExplicitFlagsWin(false, "foo", "i", None);
  }

  lemma ExampleSlashAndFlags()
    ensures From("/re/gi") == CommandParts(Some("re"), Some("gi"), None)
  {
    assert Lead(true) + "re" + "/" + "gi" + TailText(None) == "/re/gi";
    ExplicitFlagsWin(true, "re", "gi", None);
  }

  lemma ExamplePatternAndVerb()
    ensures From("abc:verb arg")
            == CommandParts(Some("abc"), None, Some(Invocations.Parse("verb arg")))
  {
    assert "abc" + TailText(Some(Tail(":", "verb arg"))) == "abc:verb arg";
    PlainPatternHasNoFlags("abc", Some(Tail(":", "verb arg")));
  }

  lemma ExampleVerbOnly()
    ensures From(":q") == CommandParts(None, None, Some(Invocations.Parse("q")))
  {
    assert Lead(false) + ":" + "q" == ":q";
    InvocationWithoutPattern(false, Tail(":", "q"));
  }

  lemma ExampleJunkAfterSlash()
    ensures From("a/-") == New()
  {
    assert Lead(false) + "a" + "/" + "" + ['-'] + "" == "a/-";
    JunkAfterFlagsFails(false, "a", "", '-', "");
  }

  lemma ExampleTwoSlashes()
    ensures From("a/b/c") == New()
  {
    assert Lead(false) + "a" + "/" + "b" + ['/'] + "c" == "a/b/c";
    JunkAfterFlagsFails(false, "a", "b", '/', "c");
  }

  lemma ExampleLineFeedInVerb()
    ensures From("a:b\nc") == New()
  {
    var c := Captures(false, "a", None, None);
    assert HeadText(c) + ":" + "b\nc" == "a:b\nc";
    assert "b\nc"[1] == '\n';
    LineFeedInVerbFails(c, ":", "b\nc");
  }
}
