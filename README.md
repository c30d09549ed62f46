# broot's command input, in Dafny

This project models `src/commands.rs` of broot, the terminal file manager.
That file turns what the user types into a `Command`. A `Command` has three
fields: the visible text (`raw`), the parsed parts of that text
(`CommandParts`), and the action the last event asked for (`Action`).

- `parts.dfy` (module `Parts`) models `CommandParts::from`. It splits the
  text with one anchored regular expression:
  `^(/)?([^\s/:]+)?(?:/(\w*))?(?:[\s:]+(.*))?$`. The expression is given
  twice. `Matches` describes it declaratively: every way of cutting the
  text into the groups, with `Preferred` as the leftmost-first priority
  order of the regex engine. `Scan` is a single-pass scanner. The lemmas
  prove three things:
  - `Scan` succeeds exactly when the expression matches.
  - The cut `Scan` returns is the one the priority order selects.
  - `Scan` and `Text` (the text a cut covers) are inverse on canonical cuts.

  `From` then builds the parts the way the source does. A pattern is kept
  only when the pattern group matched. The flags come from an explicit
  `/flags` suffix, or are empty when the text started with `/`. All parts are
  absent when the expression does not match.
- `actions.dfy` (module `Actions`) models `Action::from`. It is a
  priority-ordered choice among verb, open selection, regex and fuzzy
  pattern. Lemmas tie the chosen action back to the text.
- `commands.dfy` (module `Commands`) models `Command`.
  - `State`, `KeyStep` and `EventStep` specify `add_key` and `add_event` as
    functions on states.
  - The class `Command` holds the same three fields and updates them in
    place. Its methods are proved to follow `KeyStep` and `EventStep`.
  - The methods also keep the class invariant `parts == Parts.From(raw)`.
- `events.dfy` and `invocations.dfy` stand in for the external types. Those
  are the application's `Event`, the terminal library's key event, and the
  verb invocation.
- `wrappers.dfy` holds `Option`.

The source uses a regex engine that is not a backtracking one, but its
leftmost-first semantics choose the same captures as a backtracking match.
That priority order is what `Preferred` states.

Every group of the expression is optional, yet the match can fail:
`Regex::captures` returns nothing for `a/-`, for `a/b/c` and for a line feed
in the verb text, and `CommandParts::from` then leaves every part absent
(`Parts.JunkAfterFlagsFails`, `Parts.LineFeedInVerbFails`).

## Model

| member | source | states |
|---|---|---|
| `Parts.RunEnd` | src/commands.rs:60-62 | a greedy repetition of one character class ends at the first character outside the class, and every character before it is in the class |
| `Parts.ScanTail` | src/commands.rs:62-63 | the tail group either covers the rest of the text as a maximal separator run followed by text without a line feed, or the match fails |
| `Parts.Scan` | src/commands.rs:56-66 | every cut the scanner returns is canonical: each group holds only its own class, the separator run is maximal, and a leading '/' belongs to the first group |
| `Parts.ScanSound` | src/commands.rs:56-66 | a cut found by the scanner is a match of the anchored expression on the whole text |
| `Parts.ScanHead` | src/commands.rs:59-61 | the slash, pattern and flags groups are read without looking past the character that stops them; the rest is left to the tail group |
| `Parts.ScanText` | src/commands.rs:56-66 | scanning the text of a canonical cut gives that cut back (round trip) |
| `Parts.SlashFirstPreferred` | src/commands.rs:59-61 | a match that leaves the slash group empty and reads '/flags' as its first group is covered, with the same text, by a match whose leading '/' is taken by the first group, which leftmost-first priority prefers |
| `Parts.ExtendSeparatorPreferred` | src/commands.rs:62-63 | a match whose separator run stops before a separator character is covered, with the same text, by a match with a longer separator run, which greedy priority prefers |
| `Parts.NormalizeCanonical` | src/commands.rs:56-66 | every match has a canonical match with the same text that is equal to it or preferred over it |
| `Parts.ScanIsLeftmostFirst` | src/commands.rs:56-66 | whenever the expression matches, the scanner succeeds, and its cut is the match preferred by leftmost-first priority over every other match |
| `Parts.ScanFailsIffNoMatch` | src/commands.rs:68 | the scanner fails if and only if no cut of the text matches the expression |
| `Parts.New` | src/commands.rs:46-52 | nothing parsed: every part absent |
| `Parts.EmptyTextHasNoParts` | src/commands.rs:46-52 | the empty text parses to `New`, the parts with every part absent |
| `Parts.From` | src/commands.rs:53-82 | flags are present only with a pattern; a pattern is a non-empty run of characters other than whitespace, '/' and ':'; a text the expression does not match has every part absent |
| `Parts.InvocationFollowsSeparator` | src/commands.rs:77-79 | a verb invocation is parsed from the text that follows a whitespace or ':' character |
| `Parts.PlainPatternHasNoFlags` | src/commands.rs:69-76 | a pattern typed without any '/' gives that pattern, no flags, and the invocation of the text after the separator run |
| `Parts.LeadingSlashAsksForRegex` | src/commands.rs:73-74 | a leading '/' with a pattern and no flags suffix gives empty flags |
| `Parts.ExplicitFlagsWin` | src/commands.rs:71-72 | a '/flags' suffix after the pattern gives those flags, whether or not the text starts with '/' |
| `Parts.InvocationWithoutPattern` | src/commands.rs:69-79 | with no pattern there are no flags even after a leading '/', and the text after the separator run is still the invocation |
| `Parts.JunkAfterFlagsFails` | src/commands.rs:61-68 | a character after the flags that is neither a word character nor a separator makes the match fail and leaves every part absent |
| `Parts.LineFeedInVerbFails` | src/commands.rs:62-68 | a line feed in the verb text makes the match fail and leaves every part absent |
| `Parts.ExampleFuzzy` | src/commands.rs:69-70 | "foo" gives pattern "foo" with no flags and no invocation |
| `Parts.ExampleFlags` | src/commands.rs:71-72 | "foo/i" gives pattern "foo" with flags "i" |
| `Parts.ExampleSlashAndFlags` | src/commands.rs:71-74 | "/re/gi" gives pattern "re" with flags "gi", not "" |
| `Parts.ExamplePatternAndVerb` | src/commands.rs:77-79 | "abc:verb arg" gives pattern "abc" and the invocation of "verb arg" |
| `Parts.ExampleVerbOnly` | src/commands.rs:77-79 | ":q" gives no pattern and the invocation of "q" |
| `Parts.ExampleJunkAfterSlash` | src/commands.rs:68 | "a/-" leaves every part absent |
| `Parts.ExampleTwoSlashes` | src/commands.rs:68 | "a/b/c" leaves every part absent |
| `Parts.ExampleLineFeedInVerb` | src/commands.rs:68 | "a:b\nc" leaves every part absent |
| `Actions.From` | src/commands.rs:86-105 | the action is always a verb, a verb edit, open selection, a regex edit or a fuzzy pattern edit; verb exactly when an invocation is present and the input is finished; verb edit exactly when it is present and unfinished; open selection exactly when there is no invocation and the input is finished; a regex edit exactly when it is unfinished with a pattern and flags, carrying both; otherwise the fuzzy pattern, or "" |
| `Actions.RegexNeedsSlash` | src/commands.rs:95-98 | a regex is edited only when the text holds a '/' |
| `Actions.FuzzyPatternIsPrefix` | src/commands.rs:99-103 | a fuzzy pattern being edited is a prefix of the text |
| `Actions.InvocationFollowsSeparator` | src/commands.rs:87-92 | a verb or verb edit carries the invocation of the text after a whitespace or ':' character |
| `Commands.Initial` | src/commands.rs:109-114 | the empty command is consistent: the empty text parses to no parts |
| `Commands.FromText` | src/commands.rs:126-130 | a whole command is consistent; its action is a verb or open selection exactly when the text holds a ':'; it is a verb or verb edit exactly when an invocation was parsed |
| `Commands.Edited` | src/commands.rs:181-183 | after the text changes, the parts are those of the new text |
| `Commands.KeyStep` | src/commands.rs:146-199 | only a typed character (appended) and backspace on a non-empty text (last character removed) change the text; when the text is unchanged, so are the parts; the parts stay equal to the parse of the text |
| `Commands.EventStep` | src/commands.rs:132-144 | clicks and double clicks set only the action, with their coordinates; every event keeps the parts equal to the parse of the text |
| `Commands.RunKeepsConsistent` | src/commands.rs:132-199 | after any sequence of events from a consistent state, the parts are still the parse of the text |
| `Commands.BackspaceUndoesTyping` | src/commands.rs:180-196 | typing a character and then backspace restores the text and the parts, and derives the unfinished action of the old text |
| `Commands.TypingAppends` | src/commands.rs:180-184 | a typed character is appended, so the text does change, and the parts and unfinished action become those of the new text |
| `Commands.BackspaceErases` | src/commands.rs:188-196 | backspace on a non-empty text removes its last character, so the text does change, and the parts and unfinished action become those of the shorter text |
| `Commands.BackspaceOnEmptyGoesBack` | src/commands.rs:188-191 | backspace on an empty text sets Back and changes nothing else |
| `Commands.QuestionMark` | src/commands.rs:175-184 | '?' opens the help without being typed when the text is empty or holds an invocation; otherwise it is appended and the action is re-derived |
| `Commands.QuestionMarkExtendsPattern` | src/commands.rs:180-184 | '?' typed after a plain pattern becomes part of the fuzzy pattern |
| `Commands.TabAndEnterAreNotTyped` | src/commands.rs:148-153 | tab sets Next and enter re-derives the action as finished (a verb or open selection); neither changes the text |
| `Commands.IgnoredKeysChangeNothing` | src/commands.rs:197 | keys the editor does not handle leave the whole state unchanged |
| `Commands.KeyStepForgetsHistory` | src/commands.rs:146-199 | for every handled key, the next state depends on the text only, not on the previous action |
| `Commands.ExampleTypeA` | src/commands.rs:180-184 | typing 'a' on the empty command edits the fuzzy pattern "a" |
| `Commands.ExampleRegexRoundTrip` | src/commands.rs:180-196 | typing '/' after "a" edits a regex "a" with no flags, and backspace returns exactly to the previous state |
| `Commands.ExampleQuestionMarkFirst` | src/commands.rs:175-179 | '?' on the empty command opens the help and leaves the text empty |
| `Commands.ExampleFromTextSpace` | src/commands.rs:126-130 | "a b" given whole is a verb edit of "b" |
| `Commands.ExampleFromTextColon` | src/commands.rs:126-130 | ":q" and "abc:verb arg" given whole are verbs of "q" and "verb arg" |
| `Commands.Command.constructor` | src/commands.rs:109-115 | a new command is valid and is the empty state |
| `Commands.Command.From` | src/commands.rs:126-130 | a command built from a whole text is valid and is `FromText` of it |
| `Commands.Command.AddEvent` | src/commands.rs:132-144 | handling an event in place keeps the class invariant and gives the state `EventStep` specifies |
| `Commands.Command.AddKey` | src/commands.rs:146-199 | handling a key in place keeps the class invariant and gives the state `KeyStep` specifies |

## Left out

- `\w` outside ASCII: the model's word characters are ASCII letters, digits
  and '_'. The regex engine also accepts Unicode letters, marks and digits,
  and reproducing its tables is out of scope. `\s` is modelled exactly: the
  25 characters with the Unicode White_Space property.
- The one-time construction of the compiled regex (`lazy_static`) and its
  thread safety. The expression is a pure function here.
- The grammar of verb invocations (`VerbInvocation::from`). That parser is
  not part of this model. An invocation is identified with the text it is
  parsed from, and no lemma depends on what it contains.
- The terminal library's key type. Only the keys the editor matches are kept
  (`Char`, `Alt`, `Ctrl`, `Up`, `Down`, `F`, `PageUp`, `PageDown`, `Esc`,
  `Backspace`). Every other key is `Other`, which the editor ignores as the
  source does.
- The `Debug` and `Clone` derives and the clones of invocations and strings.
  They have no behaviour of their own.
