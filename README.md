# Weekend Text Editor — a verified model of its core

This project models the core of the Weekend Text Editor, a small Swing text editor:

- **Finder.** The find engine. It keeps a remembered `position` and the search settings (pattern, case sensitivity, direction). It searches forward with `indexOf` and backward with `lastIndexOf` over the document text. When the search ignores case, it upper-cases both the text and the pattern.
- **Replacer.** The replace engine. It has its own copy of those find rules, plus `replace` and `replaceAll`. Both are driven by whether the current selection matches the pattern.
- **Editor.** The editor component:
  - the "changed" flag, kept by a document listener that fires once;
  - undo and redo over an `UndoManager`;
  - the font settings (monospaced or serif, and a size that steps between 6 and 64).
- **LastFiles.** The bounded list of recently opened files, kept most-recent first. It is saved as the properties `File1` … `FileN`.
- **Proper.** The application's property store. It covers:
  - string and integer properties with defaults;
  - component bounds;
  - the main frame's placement rule;
  - the properties file name.
- **Loc.** Localised messages, with a default derived from the key.

The Swing behaviour the engines rely on is stated as explicit assumptions in `TextPane`:

- `setText` on the plain-text pane stores the text with each `"\r\n"` and each lone `'\r'` read as `'\n'`;
- `select` clamps its arguments;
- `getSelectedText` is null when mark equals dot;
- `replaceSelection` leaves the caret just after the inserted text.

The `java.lang` behaviour is defined in `JavaLang`:

- `indexOf` treats a negative `from` as 0;
- `lastIndexOf`;
- `trim` strips characters up to `' '`;
- ASCII upper- and lower-casing;
- `equalsIgnoreCase`;
- `Integer.parseInt` and `Integer.toString`;
- 32-bit wrap-around.

## How the model is organised

- **`JavaLang`:** the library behaviour above, each part with a reference property: the first or last occurrence, the trimmed form, and the decimal round trip.
- **`TextPane`:** the text pane as a class `Pane` (text, mark, dot) over a value `View`, and the status bar as a class `StatusBar` holding a `Message`.
- **`Search`:** the find rules shared by both engines, written as functions on a `State` (view, position, status message) and a `Query` (pattern, case):
  - `ForwardOutcome`/`BackOutcome` give the found, not-found and skipped cases;
  - `BackOutcome` also has a thrown case;
  - `FindForward`/`FindBack` give the resulting state.
- **`Finder`** and **`Replacer`:** the two engine classes. Each method is proved to leave `Snapshot() == F(old(Snapshot()))` for the matching `Search` or `Replacer` function. The properties of those functions are proved as lemmas.
- **`Replacer`** also defines the replace loop as functions:
  - the forward loop terminates, by a decreasing measure;
  - the backward loop runs on fuel, through the generic `Iteration.While`;
  - with a non-empty replacer, a forward `replaceAll` is proved to give a reference "replace every occurrence" function `ReplaceEvery`;
  - a backward `replaceAll` of `"a"` by `"aa"` is proved never to stop;
  - a forward `replaceAll` with an empty replacer is proved to skip matches.
- **`Editor`:**
  - the history is `Doc(text, History(done, undone))`, specified through `Edited`, `Undone` and `Redone`;
  - the listener is `Watch(changed, listening)` through `Notified`;
  - the font size is stepped by `StepFontSize`;
  - the class `Editor` is proved against these functions.
- **`LastFiles`:** the move-to-front list as functions, with a class whose methods (including the load and save loops) are proved against them.
- **`Proper`:** the store as a `map<string, string>`, the bounds and frame rules as functions, and the class `Properties`.
- **`Loc`:** a resource bundle as an optional map.

### Where the code and its description differ (the model follows the code)

- **The dirty flag after a save.** `setText` installs a change listener, and the listener detaches itself after the first document event (Editor.java:205-227). A save calls `setChanged(false)` (Filer.java:167) but installs no new listener. So edits made after saving an already-edited file never set the flag again until the next `setText`. `Editor.EditsAfterSave` states exactly when the flag is set again.
- **The replacer text.** The `replacer` field is read from the property `Replacer` once, in the constructor (Replacer.java:28). Later, `replace` and `replaceAll` only re-read the case setting (Replacer.java:78-80, 103-105). The text the dialog shows as the replacement is never used, and the stale field is what gets stored back as `Replacer`.
- **When the position is reset.** Only `Filer.newFile` resets the engines' positions (Filer.java:61-64); opening a file does not.
- **Backward search at the start of the text.** With the dot at 0 and a selection, `findBack` calls `content.substring(0, -1)`. That call throws `StringIndexOutOfBoundsException`, which the `BadLocationException` handler does not catch. It is modelled as the outcome `Thrown` (`Search.BackThrowsIff`).

## Model

| member | source | states |
|---|---|---|
| JavaLang.Wrap | src/game/weekend/texteditor/Editor.java:322 | Java `int` addition: the result is congruent to the sum modulo 2^32 and equals it when the sum fits in 32 bits |
| JavaLang.IndexOf | src/game/weekend/texteditor/Finder.java:98 | `indexOf` returns -1 or an index at or after `min(from, len)` at which the pattern fits in the text |
| JavaLang.IndexOfSpec | src/game/weekend/texteditor/Finder.java:98 | `indexOf` returns the first occurrence at or after `from` (a negative `from` counts as 0), and -1 exactly when there is none |
| JavaLang.LastIndexOf | src/game/weekend/texteditor/Finder.java:118 | `lastIndexOf` returns -1 or an index at most `from` at which the pattern fits |
| JavaLang.LastIndexOfSpec | src/game/weekend/texteditor/Finder.java:118 | `lastIndexOf` returns the last occurrence at or before `from`, and -1 exactly when there is none |
| JavaLang.PrefixOccurrences | src/game/weekend/texteditor/Finder.java:118 | an occurrence in `content.substring(0, n)` is exactly an occurrence in the content that ends by n |
| JavaLang.SameFromIff | src/game/weekend/texteditor/Finder.java:98 | the character-by-character comparison matches exactly when the pattern's suffix equals the text's slice |
| JavaLang.OccursAt | src/game/weekend/texteditor/Finder.java:98 | the pattern occurs in the text at k; `IndexOfSpec` and `LastIndexOfSpec` state the search results in its terms |
| JavaLang.SameFrom | src/game/weekend/texteditor/Finder.java:98 | the comparison of pattern and text from offset j, which `SameFromIff` ties to slice equality |
| JavaLang.StripLeadingSpec | src/game/weekend/texteditor/Finder.java:90 | stripping from the front removes exactly the leading characters `<= ' '` and leaves a suffix of the input |
| JavaLang.StripTrailingSpec | src/game/weekend/texteditor/Finder.java:90 | stripping from the back removes exactly the trailing characters `<= ' '` and leaves a prefix of the input |
| JavaLang.TrimEmptyIffBlank | src/game/weekend/texteditor/Finder.java:90 | `trim()` is empty exactly when every character is `<= ' '` |
| JavaLang.Trim | src/game/weekend/texteditor/Finder.java:90 | `trim()`: `StripLeadingSpec` and `StripTrailingSpec` state what it removes, and `TrimEmptyIffBlank` states when it is empty |
| JavaLang.Blank | src/game/weekend/texteditor/Finder.java:90 | every character is `<= ' '`, which by `TrimEmptyIffBlank` is exactly when `trim()` is empty |
| JavaLang.ToUpperCase | src/game/weekend/texteditor/Finder.java:132 | upper-casing keeps the length |
| JavaLang.ToLowerCase | src/game/weekend/texteditor/Proper.java:34 | lower-casing keeps the length |
| JavaLang.UpperChar | src/game/weekend/texteditor/Finder.java:132 | ASCII upper-casing of one character (only a–z change); `Loc.GetDefString` and `JavaLang.EqualsIgnoreCaseIffSameUpper` state its effect |
| JavaLang.LowerChar | src/game/weekend/texteditor/Proper.java:34 | ASCII lower-casing of one character; `Proper.FileName` states that the result has no upper-case letter |
| JavaLang.CharsEqualIgnoreCase | src/game/weekend/texteditor/Replacer.java:144 | the per-character test of `equalsIgnoreCase`: equal, the same upper case, or the same lower case of the upper case |
| JavaLang.EqualsIgnoreCase | src/game/weekend/texteditor/Replacer.java:144 | `equalsIgnoreCase`: the same length and the per-character test; `EqualsIgnoreCaseIffSameUpper` ties it to equality after upper-casing |
| JavaLang.EqualsIgnoreCaseIffSameUpper | src/game/weekend/texteditor/Replacer.java:141-144 | `equalsIgnoreCase` holds exactly when both upper-cased strings are equal, so the selection test agrees with the upper-cased find |
| JavaLang.UpperCaseKeepsBlank | src/game/weekend/texteditor/Finder.java:89-90 | upper-casing the pattern does not change whether it trims to empty |
| JavaLang.NatToString | src/game/weekend/texteditor/Proper.java:65 | the decimal form of a natural number is a non-empty string of digits |
| JavaLang.ParseInt | src/game/weekend/texteditor/Proper.java:76 | `parseInt` succeeds only on an optional sign followed by at least one digit |
| JavaLang.IsDigit | src/game/weekend/texteditor/Proper.java:76 | the digits `parseInt` accepts, here only the ASCII digits 0–9 |
| JavaLang.DigitsValue | src/game/weekend/texteditor/Proper.java:76 | the decimal value of a digit string; `DigitsValueOfNatToString` states that it inverts `NatToString` |
| JavaLang.IntToString | src/game/weekend/texteditor/Proper.java:65 | `"" + n`: a minus sign for a negative n, then the digits; `ParseIntToString` and `IntToStringInjective` state its partner properties |
| JavaLang.DigitsValueOfNatToString | src/game/weekend/texteditor/Proper.java:65 | the digits written for n read back as n |
| JavaLang.ParseIntToString | src/game/weekend/texteditor/Proper.java:64-77 | an int stored with `setProperty(name, int)` reads back as the same int |
| JavaLang.IntToStringInjective | src/game/weekend/texteditor/Proper.java:65 | distinct ints are stored as distinct strings |
| TextPane.AfterSelect | src/game/weekend/texteditor/Finder.java:169 | `select(a, b)` keeps the text, leaves mark <= dot within it, and selects exactly [a, b] when 0 <= a <= b <= len |
| TextPane.SelectedText | src/game/weekend/texteditor/Replacer.java:136-138 | `getSelectedText()` is null exactly when mark equals dot, otherwise the selected span |
| TextPane.AfterReplaceSelection | src/game/weekend/texteditor/Replacer.java:86 | `replaceSelection(r)` replaces the selected span by r, so the length changes by `|r|` minus the span |
| TextPane.Pane.constructor | src/game/weekend/texteditor/Editor.java:39 | a new pane is empty with the caret at 0 |
| TextPane.NormalizeBreaks | src/game/weekend/texteditor/Editor.java:162 | the text the default plain-text kit stores for `pane.setText(t)` on the `new JEditorPane()` of Editor.java:39: no `'\r'` is left, it is never longer than t, and a text without `'\r'` is kept as it is |
| TextPane.NormalizeBreaksExample | src/game/weekend/texteditor/Editor.java:162 | `"a\r\nb"` is stored as `"a\nb"` (length 3), and `"a\rb\n"` as `"a\nb\n"` |
| TextPane.Pane.SetText | src/game/weekend/texteditor/Editor.java:162-163 | `setText(t)` then `setCaretPosition(0)`: the text is `NormalizeBreaks(t)` and the caret is at 0 |
| TextPane.Pane.Select | src/game/weekend/texteditor/Finder.java:169 | the caret becomes `AfterSelect` of the old view |
| TextPane.Pane.ReplaceSelection | src/game/weekend/texteditor/Replacer.java:86 | the view becomes `AfterReplaceSelection` of the old view |
| TextPane.Pane.Change | src/game/weekend/texteditor/Editor.java:205-227 | a document change the listeners see: the text is the new text and the caret stays within it |
| TextPane.StatusBar.constructor | src/game/weekend/texteditor/StatusBar.java:31 | the status bar starts cleared |
| TextPane.StatusBar.ShowMessage | src/game/weekend/texteditor/StatusBar.java:69-71 | the status bar shows exactly the message given |
| TextPane.Pane.GetSelectedText | src/game/weekend/texteditor/Replacer.java:136 | the pane's `getSelectedText()`: `SelectedText` of its view, absent exactly when mark equals dot |
| TextPane.Message.Text | src/game/weekend/texteditor/Finder.java:171 | the status text: "" when cleared, otherwise `Loc.get("unable_to_find")`, a space and the pattern in quotes; `Loc.Get` states what the first part is |
| Search.Fold | src/game/weekend/texteditor/Finder.java:130-151 | `getPattern`/`getContent` keep the length of the text they fold |
| Search.Enabled | src/game/weekend/texteditor/Finder.java:90 | the find does anything at all; `TrimGuard` states that this is the source's trim guard and `EnabledIffNotBlank` that it does not depend on the case |
| Search.MatchIn | src/game/weekend/texteditor/Finder.java:98 | the folded pattern occurs in the folded text at k |
| Search.MatchAt | src/game/weekend/texteditor/Finder.java:98 | a match in the pane's text; `ForwardOutcomeSpec` and `BackOutcomeSpec` state which match a find reports |
| Search.ForwardResume | src/game/weekend/texteditor/Finder.java:92-96 | where a forward find resumes: the mark, or one past the position when it is already at the mark; see `ResetResumesAtMark` and `ForwardAdvances` |
| Search.BackResume | src/game/weekend/texteditor/Finder.java:114-116 | where a backward find resumes: the dot, one less with a selection; `BackThrowsIff` states when it is negative and `BackRetreats` that finds move backward |
| Search.Apply | src/game/weekend/texteditor/Finder.java:159-172 | `showResult` for each outcome; `ForwardFoundSelects`, `BackFoundSelects`, `NotFoundKeepsCaret` and `BackThrowsIff` state the resulting state |
| Search.TrimGuard | src/game/weekend/texteditor/Finder.java:90 | the guard `pattern.trim().length() > 0` on the folded pattern holds exactly when the query is enabled |
| Search.EnabledPatternNotEmpty | src/game/weekend/texteditor/Finder.java:90 | an enabled query has a non-empty pattern |
| Search.EnabledIffNotBlank | src/game/weekend/texteditor/Finder.java:89-90 | a find does anything exactly when the pattern is not all characters `<= ' '`, whatever the case setting |
| Search.ForwardOutcome | src/game/weekend/texteditor/Finder.java:86-103 | a forward find is skipped exactly when the pattern is blank, and never throws |
| Search.ForwardOutcomeSpec | src/game/weekend/texteditor/Finder.java:92-98 | a forward find reports the first match at or after the resume index (the mark, or one past it when the position is already at the mark); "not found" means there is no match from there on |
| Search.BackOutcome | src/game/weekend/texteditor/Finder.java:108-123 | a backward find is skipped exactly when the pattern is blank, and throws exactly when it is enabled and the resume index is negative |
| Search.BackOutcomeSpec | src/game/weekend/texteditor/Finder.java:114-118 | a backward find reports the last match ending by the resume index (the dot, one less with a selection); "not found" means there is no such match |
| Search.FindForward | src/game/weekend/texteditor/Finder.java:86-103 | a forward find keeps the view valid |
| Search.FindBack | src/game/weekend/texteditor/Finder.java:108-123 | a backward find keeps the view valid |
| Search.BlankPatternDoesNothing | src/game/weekend/texteditor/Finder.java:90 | with a blank pattern neither find changes anything, including the position and the status |
| Search.MatchSelectsExactly | src/game/weekend/texteditor/Finder.java:169 | selecting a match selects exactly the matched span, since `select` clamps nothing there |
| Search.ForwardFoundSelects | src/game/weekend/texteditor/Finder.java:159-169 | a successful forward find selects the match, remembers it as the position and clears the status |
| Search.NotFoundKeepsCaret | src/game/weekend/texteditor/Finder.java:170-171 | a failed find leaves the caret, keeps the resume index as position and posts "unable to find" with the pattern |
| Search.ResetResumesAtMark | src/game/weekend/texteditor/Finder.java:34-36 | after `resetPosition` a forward find resumes at the mark, the same as from any position other than the mark |
| Search.ForwardAdvances | src/game/weekend/texteditor/Finder.java:93-94 | repeating a successful forward find finds a strictly later match |
| Search.BackFoundSelects | src/game/weekend/texteditor/Finder.java:159-169 | a successful backward find selects the match, remembers it and clears the status |
| Search.BackRetreats | src/game/weekend/texteditor/Finder.java:114-116 | repeating a successful backward find finds a strictly earlier match |
| Search.BackThrowsIff | src/game/weekend/texteditor/Finder.java:114-118 | a backward find throws exactly when the pattern is not blank, the dot is 0 and the mark is not; the position is then -1 |
| Search.CaseInsensitiveExample | src/game/weekend/texteditor/Finder.java:144-151 | ignoring case, a fresh forward find of "aBc" in "xxABCxx" selects [2, 5] |
| Search.ExampleFolds | src/game/weekend/texteditor/Finder.java:130-136 | ignoring case, the pattern "aBc" folds to "ABC" and the text to "XXABCXX" |
| Finder.Finder.constructor | src/game/weekend/texteditor/Finder.java:23-29 | the pattern and case are read from the properties Pattern and CaseSensitive; the direction is down and no position is remembered |
| Finder.Finder.ResetPosition | src/game/weekend/texteditor/Finder.java:34-36 | the position becomes -1 and nothing else changes |
| Finder.Finder.ShowResult | src/game/weekend/texteditor/Finder.java:159-172 | the view, position and status become those of the found or not-found outcome |
| Finder.Finder.FindForward | src/game/weekend/texteditor/Finder.java:86-103 | the engine's state becomes `Search.FindForward` of the old state |
| Finder.Finder.FindBack | src/game/weekend/texteditor/Finder.java:108-123 | the engine's state becomes `Search.FindBack` of the old state, and it reports a throw exactly in the `Thrown` case |
| Finder.Finder.Find | src/game/weekend/texteditor/Finder.java:54-70 | the dialog's pattern and case are stored and persisted as Pattern and CaseSensitive, then one find is made in the chosen direction |
| Replacer.SelectionMatches | src/game/weekend/texteditor/Replacer.java:135-146 | `selectionMatchPattern` on a view; `SelectionMatchesIffMatchAt` ties it to the find rules and `FoundSelectionMatches` shows that a find establishes it |
| Replacer.Raises | src/game/weekend/texteditor/Replacer.java:91-95 | only the backward find can throw; `ReplaceAllRun` states when `replaceAll` ends by throwing |
| Replacer.Measure | src/game/weekend/texteditor/Replacer.java:117-127 | the text after the selection start, which `ForwardRoundShrinks` proves each forward round reduces |
| Replacer.BackStep | src/game/weekend/texteditor/Replacer.java:119-126 | one backward round, which `BackStepIs` states is a replacement followed by `findBack` |
| Replacer.Matching | src/game/weekend/texteditor/Replacer.java:117 | the loop condition, which `BackStepIs` states is `SelectionMatches` |
| Replacer.ReplaceFrom | src/game/weekend/texteditor/Replacer.java:117-127 | the reference "replace every case-folded occurrence, scanning left to right from i"; `ReplaceFromAt`, `ReplaceFromCopy`, `ReplaceFromSkip`, `ReplaceFromNone` and `ReplaceFromShift` state its laws |
| Replacer.ReplaceEvery | src/game/weekend/texteditor/Replacer.java:100-128 | the reference on the whole text; `FreshReplaceAllReplacesEvery` proves a forward `replaceAll` equal to it and `EmptyReplacerSkips` shows where they differ |
| Replacer.Promised | src/game/weekend/texteditor/Replacer.java:117-127 | the text the forward loop is to leave, which `ForwardLoopKeepsPromise` and `RoundKeepsPromise` establish |
| Replacer.Resumes | src/game/weekend/texteditor/Replacer.java:117-127 | the loop invariant that the next forward find resumes at the caret; `RoundKeepsPromise` shows that each round keeps it |
| Replacer.Diverging | src/game/weekend/texteditor/Replacer.java:117-127 | the states of the counterexample; `DivergingRound` and `BackReplaceAllDiverges` state that one follows the next forever |
| Replacer.SelectionMatchesIffMatchAt | src/game/weekend/texteditor/Replacer.java:135-146 | the selection matches exactly when it is non-empty, has the pattern's length and is a match of the find rules at its start |
| Replacer.FoundSelectionMatches | src/game/weekend/texteditor/Replacer.java:83 | after a successful find, the selection matches the pattern |
| Replacer.FindIn | src/game/weekend/texteditor/Replacer.java:91-95 | a find in either direction keeps the view valid |
| Replacer.Replaced | src/game/weekend/texteditor/Replacer.java:119 | replacing the selection leaves a valid view with no selection |
| Replacer.ReplacedSelection | src/game/weekend/texteditor/Replacer.java:119 | on a matching selection, the span is replaced and the caret sits right after the replacement |
| Replacer.ReplaceSelected | src/game/weekend/texteditor/Replacer.java:84-88 | `replace` on a matching selection replaces the span and then selects `[start, start + |pattern|]`, clamped to the new text |
| Replacer.ReplaceStep | src/game/weekend/texteditor/Replacer.java:75-97 | one `replace` keeps the view valid |
| Replacer.ReplaceWithoutMatchFinds | src/game/weekend/texteditor/Replacer.java:89-96 | `replace` without a matching selection is a find in the chosen direction and leaves the text unchanged |
| Replacer.ForwardRoundShrinks | src/game/weekend/texteditor/Replacer.java:117-125 | each forward round of `replaceAll` lowers a measure: the text after the resume index shrinks, or the resume index advances |
| Replacer.ForwardLoop | src/game/weekend/texteditor/Replacer.java:117-127 | the forward loop of `replaceAll` terminates, leaving a selection that does not match |
| Replacer.BackStepIs | src/game/weekend/texteditor/Replacer.java:119-126 | one backward round is "replace the selection, then find backward" |
| Replacer.BackLoop | src/game/weekend/texteditor/Replacer.java:117-127 | the backward loop never throws, and its fuel-bounded run finishes exactly when the selection no longer matches |
| Replacer.LoopFindBackNeverRaises | src/game/weekend/texteditor/Replacer.java:119-126 | the backward find after a replacement never throws, since the selection is then empty |
| Replacer.ReplaceAllRun | src/game/weekend/texteditor/Replacer.java:100-128 | `replaceAll` throws exactly when the selection does not match and the first backward find throws; going down it always finishes; when it finishes, the selection does not match |
| Replacer.ReplaceAllFromMatch | src/game/weekend/texteditor/Replacer.java:108-117 | starting on a matching selection, `replaceAll` runs the loop in the chosen direction |
| Replacer.ReplaceFromAt | src/game/weekend/texteditor/Replacer.java:117-127 | the reference replacement emits the replacer at a match and continues after it |
| Replacer.ReplaceFromCopy | src/game/weekend/texteditor/Replacer.java:117-127 | the reference replacement copies a character where there is no match |
| Replacer.ReplaceFromShift | src/game/weekend/texteditor/Replacer.java:117-127 | the reference replacement of a suffix does not depend on the text before it |
| Replacer.ReplaceFromSkip | src/game/weekend/texteditor/Replacer.java:117-127 | over a stretch without matches the reference replacement copies the text |
| Replacer.ReplaceFromNone | src/game/weekend/texteditor/Replacer.java:117-127 | with no match from i on, the reference replacement copies the rest |
| Replacer.ReferenceAtMatch | src/game/weekend/texteditor/Replacer.java:117-127 | at a match, the reference replacement is the replacer followed by the replacement of the text after the match |
| Replacer.ForwardLoopKeepsPromise | src/game/weekend/texteditor/Replacer.java:117-127 | the forward loop's final text equals the reference applied to the part not yet searched |
| Replacer.RoundKeepsPromise | src/game/weekend/texteditor/Replacer.java:118-124 | a forward round keeps that promised final text and the resume condition |
| Replacer.ReplacedAtMatch | src/game/weekend/texteditor/Replacer.java:119 | after a replacement the caret sits just after the replacer, so the next forward find resumes there |
| Replacer.FindAfterInsertKeepsPromise | src/game/weekend/texteditor/Replacer.java:122-124 | the find after a replacement searches only the text after the replacer, so the promised text is preserved |
| Replacer.PromisedAtMatch | src/game/weekend/texteditor/Replacer.java:117-119 | on a matching selection, the promised text begins with the text before the match and then the replacer |
| Replacer.PromisedAfterFound | src/game/weekend/texteditor/Replacer.java:122-124 | after a successful find, the promised text is the text up to the match and then the reference from it |
| Replacer.PromisedAfterNotFound | src/game/weekend/texteditor/Replacer.java:122-124 | after a failed find, the promised text is the text as it stands |
| Replacer.ForwardLoopReplacesEvery | src/game/weekend/texteditor/Replacer.java:117-127 | from a matching selection, with a non-empty replacer, the forward loop replaces every match from the selection on |
| Replacer.ReferenceUpToFind | src/game/weekend/texteditor/Replacer.java:110-112 | the text skipped by a forward find contains no match, so the reference copies it |
| Replacer.ReplaceAllForwardReplacesEvery | src/game/weekend/texteditor/Replacer.java:100-128 | a forward `replaceAll` with a non-empty replacer and no selection replaces every case-folded match from the mark on, like the reference |
| Replacer.FreshReplaceAllReplacesEvery | src/game/weekend/texteditor/Replacer.java:100-128 | with the caret at 0 and a fresh position, a forward `replaceAll` with a non-empty replacer yields `ReplaceEvery` of the whole text |
| Replacer.Repeat | src/game/weekend/texteditor/Replacer.java:117-127 | the repeated-character text of the counterexample has the length asked for |
| Replacer.DivergingSelectionMatches | src/game/weekend/texteditor/Replacer.java:135-146 | in the counterexample every state's selection matches "a" |
| Replacer.DivergingReplaced | src/game/weekend/texteditor/Replacer.java:119 | replacing the selected "a" by "aa" grows the text by one and puts the caret at its end |
| Replacer.RepeatBackOutcome | src/game/weekend/texteditor/Replacer.java:191-195 | a backward find of "a" from the end of k+1 copies of 'a' finds the last one |
| Replacer.DivergingRound | src/game/weekend/texteditor/Replacer.java:117-127 | one backward round maps counterexample state n to state n+1 |
| Replacer.DivergingSteps | src/game/weekend/texteditor/Replacer.java:117-127 | every counterexample state matches and is stepped to the next |
| Replacer.BackLoopDiverges | src/game/weekend/texteditor/Replacer.java:117-127 | backward replacement of "a" by "aa" exhausts any fuel without finishing |
| Replacer.BackReplaceAllDiverges | src/game/weekend/texteditor/Replacer.java:100-128 | a backward `replaceAll` of "a" by "aa" never stops, growing the text by one character each round |
| Replacer.EmptyFirstFind | src/game/weekend/texteditor/Replacer.java:163-180 | on "aa" with the caret at 0 and a fresh position, the first find selects [0, 1] and sets the position to 0 |
| Replacer.EmptySecondFind | src/game/weekend/texteditor/Replacer.java:117-127 | replacing that selection by "" leaves "a" with the caret at 0; since the position equals the mark, the next find resumes at 1 and fails |
| Replacer.EmptyReplacerSkips | src/game/weekend/texteditor/Replacer.java:100-128 | a forward `replaceAll` of "a" by "" on "aa" from a fresh position leaves "a", where replacing every occurrence would leave "" |
| Replacer.EmptyReferenceRemovesBoth | src/game/weekend/texteditor/Replacer.java:100-128 | replacing every "a" in "aa" by "" gives "" |
| Replacer.Replacer.constructor | src/game/weekend/texteditor/Replacer.java:23-30 | pattern, replacer and case are read from the properties Pattern, Replacer and CaseSensitive; no position is remembered |
| Replacer.Replacer.ResetPosition | src/game/weekend/texteditor/Replacer.java:35-37 | the position becomes -1 and nothing else changes |
| Replacer.Replacer.ShowResult | src/game/weekend/texteditor/Replacer.java:236-250 | the view, position and status become those of the found or not-found outcome |
| Replacer.Replacer.FindForward | src/game/weekend/texteditor/Replacer.java:163-180 | the engine's state becomes `Search.FindForward` of the old state |
| Replacer.Replacer.FindBack | src/game/weekend/texteditor/Replacer.java:185-200 | the engine's state becomes `Search.FindBack` of the old state, and it reports a throw exactly in the `Thrown` case |
| Replacer.Replacer.FindInDirection | src/game/weekend/texteditor/Replacer.java:91-95 | a find in the given direction: the state becomes `FindIn` of the old state |
| Replacer.Replacer.SelectionMatchPattern | src/game/weekend/texteditor/Replacer.java:135-146 | it returns true exactly when the selection matches the pattern, case-folded when case is ignored |
| Replacer.Replacer.Find | src/game/weekend/texteditor/Replacer.java:56-72 | the dialog's pattern and case are stored and persisted, then one find is made in the chosen direction |
| Replacer.Replacer.Replace | src/game/weekend/texteditor/Replacer.java:75-97 | stores the stale replacer and the dialog's case; the state becomes `ReplaceStep`; it throws only on the find path; the direction changes only on the find path |
| Replacer.Replacer.ReplaceRound | src/game/weekend/texteditor/Replacer.java:118-126 | one loop round: replace the selection, then find in the chosen direction |
| Replacer.Replacer.LoopForward | src/game/weekend/texteditor/Replacer.java:117-127 | the forward loop leaves the state `ForwardLoop` of the old state, and the direction down when a round ran |
| Replacer.Replacer.BackRound | src/game/weekend/texteditor/Replacer.java:118-126 | one backward round while the selection matches: `findBack` does not throw, the state is one more `BackStep` round from the loop's start, every round so far matched, and the direction is up |
| Replacer.Replacer.LoopBackward | src/game/weekend/texteditor/Replacer.java:117-127 | the backward loop, run on fuel, leaves the state and ending of `BackLoop`, and the direction up when a round ran |
| Replacer.Replacer.ReplaceAll | src/game/weekend/texteditor/Replacer.java:100-128 | stores the stale replacer and the dialog's case; the state and ending are those of `ReplaceAllRun`; the direction is the dialog's whenever a find or a round ran |
| Editor.Fresh | src/game/weekend/texteditor/Editor.java:166-173 | after `setText` there is nothing to undo or redo, and the history accounts for the text |
| Editor.CanUndo | src/game/weekend/texteditor/Editor.java:255 | `canUndo()`; `UndoneSpec` states that undo acts exactly then |
| Editor.CanRedo | src/game/weekend/texteditor/Editor.java:263 | `canRedo()`; `RedoneSpec` states that redo acts exactly then |
| Editor.Coherent | src/game/weekend/texteditor/Editor.java:166-173 | the history accounts for the text; `EditedSpec`, `UndoneSpec` and `RedoneSpec` prove that every operation keeps it |
| Editor.Edited | src/game/weekend/texteditor/Editor.java:173 | the edit the UndoManager records; `EditedSpec` and `UndoRevertsEdit` state its effect |
| Editor.Undone | src/game/weekend/texteditor/Editor.java:254-257 | `undo` guarded by `canUndo`; `UndoneSpec`, `UndoRedoRoundTrip` and `UndoAllRestores` state its effect |
| Editor.Redone | src/game/weekend/texteditor/Editor.java:262-265 | `redo` guarded by `canRedo`; `RedoneSpec` and `RedoUndoRoundTrip` state its effect |
| Editor.EditedAll | src/game/weekend/texteditor/Editor.java:173 | a series of edits, used by `UndoAllRestores` |
| Editor.UndoneTimes | src/game/weekend/texteditor/Editor.java:254-257 | a series of undos, used by `UndoAllRestores` |
| Editor.EditedSpec | src/game/weekend/texteditor/Editor.java:173 | an edit sets the text, makes undo possible, discards redo, is recorded as the latest edit, keeps the history within 100 edits and keeps it coherent |
| Editor.EditedCoherent | src/game/weekend/texteditor/Editor.java:173 | an edit keeps the history coherent |
| Editor.UndoneSpec | src/game/weekend/texteditor/Editor.java:254-257 | `undo` keeps the history coherent, moves one edit onto the redo stack when it can, and otherwise does nothing |
| Editor.RedoneSpec | src/game/weekend/texteditor/Editor.java:262-265 | `redo` keeps the history coherent, moves one edit back when it can, and otherwise does nothing |
| Editor.UndoRevertsEdit | src/game/weekend/texteditor/Editor.java:254-257 | undo after an edit restores the text; below the limit it restores the history too, with the edit now redoable |
| Editor.UndoRedoRoundTrip | src/game/weekend/texteditor/Editor.java:254-265 | redo after undo restores the document and its history |
| Editor.RedoUndoRoundTrip | src/game/weekend/texteditor/Editor.java:254-265 | undo after redo restores the document and its history |
| Editor.UndoAllRestores | src/game/weekend/texteditor/Editor.java:254-257 | within the limit, undoing n edits n times restores the original text and undo stack |
| Editor.FreshUndoRedoIdle | src/game/weekend/texteditor/Editor.java:254-265 | right after `setText`, undo and redo do nothing |
| Editor.Notified | src/game/weekend/texteditor/Editor.java:210-226 | a document event sets the flag when the listener is attached, and always leaves it detached |
| Editor.WithChanged | src/game/weekend/texteditor/Editor.java:247-249 | `setChanged(b)` sets only the flag |
| Editor.Armed | src/game/weekend/texteditor/Editor.java:205-229 | after `setText`, a fresh listener is attached and the flag is false; `EditsAfterSetText` states what edits then do |
| Editor.NotifiedTimes | src/game/weekend/texteditor/Editor.java:210-226 | n document events; `EditsAfterSetText`, `EditsNeverClear` and `DetachedIgnoresEdits` state the result |
| Editor.EditsAfterSetText | src/game/weekend/texteditor/Editor.java:205-229 | after `setText`, the flag is false until the first edit and true from then on, and the listener is gone after it fires |
| Editor.EditsNeverClear | src/game/weekend/texteditor/Editor.java:210-226 | edits never clear the flag |
| Editor.DetachedIgnoresEdits | src/game/weekend/texteditor/Editor.java:213 | once the listener has detached, edits change nothing |
| Editor.EditsAfterSave | src/game/weekend/texteditor/Editor.java:205-249 | after `setText`, k edits, `setChanged(false)` and n edits, the flag is set exactly when k = 0 and n > 0 |
| Editor.StepFontSize | src/game/weekend/texteditor/Editor.java:315-322 | `changeFontSize` does nothing at a limit, and a unit step from a size in [6, 64] stays in [6, 64] |
| Editor.FontFor | src/game/weekend/texteditor/Editor.java:303-306 | a plain Monospaced or Serif font of the size; the font methods state that the pane gets it |
| Editor.AtLimit | src/game/weekend/texteditor/Editor.java:316-320 | the early returns of `changeFontSize`; `StepFontSize` states that the size is then kept |
| Editor.StepsFontSize | src/game/weekend/texteditor/Editor.java:315-328 | a series of `changeFontSize` calls; `UnitStepsStayInRange` states that unit steps stay in [6, 64] |
| Editor.UnitStepsStayInRange | src/game/weekend/texteditor/Editor.java:315-322 | any series of unit steps from a size in [6, 64] stays in [6, 64] |
| Editor.UnitStepOutsideRange | src/game/weekend/texteditor/Editor.java:315-322 | a unit step from a size outside [6, 64] is clamped there or moves towards the range |
| Editor.Editor.constructor | src/game/weekend/texteditor/Editor.java:38-53 | the font size comes from FontSize (default 12), the font choice from MonoFont (default TRUE), which is stored back; the font is set |
| Editor.Editor.SetText | src/game/weekend/texteditor/Editor.java:161-230 | the text is set to t with its line breaks read as `'\n'` (`NormalizeBreaks`) and the caret at 0, the history is fresh, the listener is armed and the flag is false |
| Editor.Editor.DocumentChanged | src/game/weekend/texteditor/Editor.java:210-226 | the flag and the listener become `Notified` of the old ones |
| Editor.Editor.UserEdit | src/game/weekend/texteditor/Editor.java:173 | a typed edit: the document becomes `Edited` and the listener is notified |
| Editor.Editor.IsChanged | src/game/weekend/texteditor/Editor.java:238-240 | it returns the flag |
| Editor.Editor.SetChanged | src/game/weekend/texteditor/Editor.java:247-249 | it sets the flag and nothing else |
| Editor.Editor.Undo | src/game/weekend/texteditor/Editor.java:254-257 | the document becomes `Undone`; the listener is notified only when there was something to undo |
| Editor.Editor.Redo | src/game/weekend/texteditor/Editor.java:262-265 | the document becomes `Redone`; the listener is notified only when there was something to redo |
| Editor.Editor.SetMonoFont | src/game/weekend/texteditor/Editor.java:301-308 | the font family follows the choice at the current size, and the choice is persisted as MonoFont |
| Editor.Editor.ChangeFontSize | src/game/weekend/texteditor/Editor.java:315-328 | the size becomes `StepFontSize`; at a limit nothing else changes; otherwise the font is set and FontSize is persisted |
| Editor.Editor.SetFontSize | src/game/weekend/texteditor/Editor.java:335-342 | the size and font are set and FontSize is persisted |
| LastFiles.FirstIndex | src/game/weekend/texteditor/LastFiles.java:50 | `indexOf`: the first position holding the value, or -1 exactly when it is absent |
| LastFiles.WithoutFirst | src/game/weekend/texteditor/LastFiles.java:50-53 | `list.remove(list.indexOf(v))` when v is present; `WithoutFirstIsOthers` states that it removes v entirely |
| LastFiles.MoveToFront | src/game/weekend/texteditor/LastFiles.java:48-60 | `put`; `PutIsMoveToFront`, `PutBoundedFront`, `PutNoDuplicates` and `PutIdempotent` state its properties |
| LastFiles.NoDuplicates | src/game/weekend/texteditor/LastFiles.java:48-60 | no name twice, the invariant that `PutNoDuplicates` shows `put` keeps |
| LastFiles.Take | src/game/weekend/texteditor/LastFiles.java:57-59 | the first n entries, the cut in the reference of `PutIsMoveToFront`; see `TakeKeeps` |
| LastFiles.RemoveAt | src/game/weekend/texteditor/LastFiles.java:52 | removing at an index shortens the list by one |
| LastFiles.Others | src/game/weekend/texteditor/LastFiles.java:50-53 | the list without the value holds exactly the other entries |
| LastFiles.WithoutFirstIsOthers | src/game/weekend/texteditor/LastFiles.java:50-53 | in a list without duplicates, removing the first occurrence removes the value entirely |
| LastFiles.OthersAbsent | src/game/weekend/texteditor/LastFiles.java:51 | removing an absent value changes nothing |
| LastFiles.OthersNoDuplicates | src/game/weekend/texteditor/LastFiles.java:52 | removing a value keeps the list free of duplicates |
| LastFiles.OthersLength | src/game/weekend/texteditor/LastFiles.java:50-53 | removing a value shortens the list by one exactly when the value was in it |
| LastFiles.PutIsMoveToFront | src/game/weekend/texteditor/LastFiles.java:48-60 | `put` moves the value to the front and keeps the other entries in order, cut to maxSize |
| LastFiles.PutBoundedFront | src/game/weekend/texteditor/LastFiles.java:54-59 | after `put` the list holds at most maxSize entries, the new one first |
| LastFiles.TakeKeeps | src/game/weekend/texteditor/LastFiles.java:57-59 | dropping the last entry keeps the list free of duplicates and adds nothing |
| LastFiles.PutNoDuplicates | src/game/weekend/texteditor/LastFiles.java:48-60 | `put` keeps the list free of duplicates and adds only the new value |
| LastFiles.PutIdempotent | src/game/weekend/texteditor/LastFiles.java:48-60 | putting the same file twice is the same as putting it once |
| LastFiles.RemoveIsOthers | src/game/weekend/texteditor/LastFiles.java:65-68 | `remove` of a present value removes exactly that value |
| LastFiles.FileKeysDistinct | src/game/weekend/texteditor/LastFiles.java:88 | the keys File1, File2, … are pairwise distinct |
| LastFiles.FileKey | src/game/weekend/texteditor/LastFiles.java:36 | the key "File" + i; `FileKeysDistinct` states that distinct i give distinct keys |
| LastFiles.Entry | src/game/weekend/texteditor/LastFiles.java:87-93 | the name saved as File k: the k-th name, or "" past the end of the list; see `WrittenLookup` |
| LastFiles.Written | src/game/weekend/texteditor/LastFiles.java:85-95 | the store after File1 … Filen are written; `WrittenLookup`, `WrittenKeepsOthers` and `LoadWritten` state its contents |
| LastFiles.Saved | src/game/weekend/texteditor/LastFiles.java:85-95 | the store after `save`; `SaveLoadRoundTrip` states that loading it gives the list back |
| LastFiles.IsWrittenKey | src/game/weekend/texteditor/LastFiles.java:88 | the keys `save` writes, which `WrittenKeepsOthers` excludes |
| LastFiles.Loaded | src/game/weekend/texteditor/LastFiles.java:35-40 | loading reads at most maxSize names and keeps only the non-empty ones |
| LastFiles.WrittenLookup | src/game/weekend/texteditor/LastFiles.java:85-95 | after saving, File k holds the k-th name, or "" past the end of the list |
| LastFiles.WrittenKeepsOthers | src/game/weekend/texteditor/LastFiles.java:85-95 | saving changes no property other than File1 … FileN |
| LastFiles.LoadWritten | src/game/weekend/texteditor/LastFiles.java:29-41 | loading m names from a store saved with N >= m gives the first m entries of the list |
| LastFiles.SaveLoadRoundTrip | src/game/weekend/texteditor/LastFiles.java:29-95 | a list of non-empty names saved by `save` is loaded back unchanged at the next launch |
| LastFiles.LastFiles.constructor | src/game/weekend/texteditor/LastFiles.java:29-41 | the loop leaves the list read from File1 … File maxSize |
| LastFiles.LastFiles.Put | src/game/weekend/texteditor/LastFiles.java:48-60 | the list becomes the move-to-front of the old one and stays within maxSize |
| LastFiles.LastFiles.Remove | src/game/weekend/texteditor/LastFiles.java:65-68 | removes the first occurrence; it throws (index -1) exactly when the value is absent, and then changes nothing |
| LastFiles.LastFiles.GetList | src/game/weekend/texteditor/LastFiles.java:76-78 | the list itself, whose contents `Put`, `Remove` and the constructor state |
| LastFiles.LastFiles.Save | src/game/weekend/texteditor/LastFiles.java:85-95 | both loops leave the store with File1 … File maxSize written from the list, padded with "" |
| Loc.ReplaceChar | src/game/weekend/texteditor/Loc.java:29 | `replace('_', ' ')` changes exactly the matching characters |
| Loc.GetDefString | src/game/weekend/texteditor/Loc.java:28-30 | the default message is the key with its first letter upper-cased and the other underscores replaced by spaces |
| Loc.Get | src/game/weekend/texteditor/Loc.java:18-26 | the bundle's message when it has the key, and otherwise the default message |
| Loc.HasKey | src/game/weekend/texteditor/Loc.java:19-23 | a bundle was loaded and holds the key; `Get` returns its message exactly then |
| Proper.Lookup | src/game/weekend/texteditor/Proper.java:96-98 | `getProperty(name, def)` gives the stored value, or def when there is none |
| Proper.LookupIntAbsent | src/game/weekend/texteditor/Proper.java:75-77 | an absent integer property reads as its default |
| Proper.LookupIntStored | src/game/weekend/texteditor/Proper.java:64-77 | an integer property stored with `setProperty` reads back as the same value |
| Proper.LookupInt | src/game/weekend/texteditor/Proper.java:75-77 | the integer property, or its default; `LookupIntAbsent` and `LookupIntStored` state its results |
| Proper.Properties.GetProperty | src/game/weekend/texteditor/Proper.java:96-98 | `Lookup` on the current store |
| Proper.Properties.GetIntProperty | src/game/weekend/texteditor/Proper.java:75-77 | `LookupInt` on the current store |
| Proper.FileName | src/game/weekend/texteditor/Proper.java:34 | the file name is the lower-cased name followed by ".properties" |
| Proper.FlagRoundTrip | src/game/weekend/texteditor/Editor.java:52 | a flag stored as "TRUE"/"FALSE" reads back under the `equalsIgnoreCase("TRUE")` test |
| Proper.FlagDefault | src/game/weekend/texteditor/Editor.java:52 | absent flags take their defaults, and the test ignores case |
| Proper.FlagText | src/game/weekend/texteditor/Editor.java:307 | "TRUE" or "FALSE"; `FlagRoundTrip` states that it reads back |
| Proper.IsTrue | src/game/weekend/texteditor/Editor.java:52 | `equalsIgnoreCase("TRUE")`; see `FlagRoundTrip` and `FlagDefault` |
| Proper.Key | src/game/weekend/texteditor/Proper.java:106-108 | the class name followed by a suffix; `KeysDistinct` states that the suffixes give distinct keys |
| Proper.WithBounds | src/game/weekend/texteditor/Proper.java:105-113 | the store after `saveBounds(Component)`; see `BoundsRoundTrip` |
| Proper.RestoreBounds | src/game/weekend/texteditor/Proper.java:126-134 | the bounds `setBounds(Component, …)` gives once `setSize` has run, and also what `setBounds(JFrame)` reads (Proper.java:160-164); `BoundsRoundTrip` and `BoundsDefault` state its results |
| Proper.RestoreLocation | src/game/weekend/texteditor/Proper.java:128-130 | what `setLocation` receives, before `_W` and `_H` are read; None when `_X` or `_Y` is not an int, and then nothing moves |
| Proper.LocationBeforeSize | src/game/weekend/texteditor/Proper.java:128-133 | full bounds imply the location was set to their (x, y); a bad location means no bounds; a good location with no bounds means exactly that `_W` or `_H` did not parse, so the component is left moved but not resized |
| Proper.MovedBeforeBadSize | src/game/weekend/texteditor/Proper.java:128-133 | with `_X` = "10", `_Y` = "20" and `_W` = "abc", the component is moved to (10, 20) and the size read then fails |
| Proper.FrameDefaults | src/game/weekend/texteditor/Proper.java:152-158 | (40, 40), the screen width less 80 wide and the screen height less 120 high, in int arithmetic; see `FrameFirstLaunch` |
| Proper.OnScreen | src/game/weekend/texteditor/Proper.java:171 | saved bounds are kept only when they are on screen; see `FrameRoundTrip` |
| Proper.FramePlacement | src/game/weekend/texteditor/Proper.java:151-179 | where `setBounds(JFrame)` puts the frame; `FrameRoundTrip` and `FrameFirstLaunch` state its results |
| Proper.WithFrameBounds | src/game/weekend/texteditor/Proper.java:141-144 | the store after `saveBounds(JFrame)`; see `FrameBoundsReadBack` |
| Proper.KeysDistinct | src/game/weekend/texteditor/Proper.java:105-113 | the keys `_X`, `_Y`, `_W`, `_H` and `_STATE` of a component are pairwise distinct |
| Proper.BoundsRoundTrip | src/game/weekend/texteditor/Proper.java:105-134 | bounds saved by `saveBounds` are restored by `setBounds` |
| Proper.BoundsDefault | src/game/weekend/texteditor/Proper.java:126-134 | a component never saved is placed at the given defaults |
| Proper.FrameBoundsReadBack | src/game/weekend/texteditor/Proper.java:141-144 | the frame's saved bounds and state read back unchanged |
| Proper.FrameRoundTrip | src/game/weekend/texteditor/Proper.java:151-179 | a saved frame reopens at the defaults when maximized, at its saved bounds when they are on screen, and otherwise at the defaults |
| Proper.FrameFirstLaunch | src/game/weekend/texteditor/Proper.java:151-179 | on first launch the frame is placed at (40, 40), the screen width less 80 wide and the screen height less 120 high, and not maximized |
| Proper.Properties.constructor | src/game/weekend/texteditor/Proper.java:181-182 | the store starts empty and the file name is "application.properties" |
| Proper.Properties.Read | src/game/weekend/texteditor/Proper.java:33-42 | the file name is set from the name; what the file held is loaded over the store, and nothing is loaded when reading fails |
| Proper.Properties.SetProperty | src/game/weekend/texteditor/Proper.java:85-87 | the property is set to the value |
| Proper.Properties.SetIntProperty | src/game/weekend/texteditor/Proper.java:64-66 | the property is set to the decimal form of the value |
| Proper.Properties.SaveBounds | src/game/weekend/texteditor/Proper.java:105-113 | the four bounds properties are written |
| Proper.Properties.SetBounds | src/game/weekend/texteditor/Proper.java:126-134 | the location passed to `setLocation` is `RestoreLocation` and the final bounds are `RestoreBounds`; full bounds start at that location; each of the four coordinates that is absent takes its default |
| Proper.Properties.SaveFrameBounds | src/game/weekend/texteditor/Proper.java:141-144 | the bounds and the extended state are written |
| Proper.Properties.SetFrameBounds | src/game/weekend/texteditor/Proper.java:151-179 | the placement is `FramePlacement`; bounds that are not maximized and not the defaults are on screen |
| Iteration.While | src/game/weekend/texteditor/Replacer.java:117 | a fuel-bounded `while` stops exactly when its condition fails on the last state |
| Iteration.Rounds | src/game/weekend/texteditor/Replacer.java:117 | n rounds of a loop body; `RoundsFirst` and `WhileRuns` relate it to `While` |
| Iteration.HoldsUpTo | src/game/weekend/texteditor/Replacer.java:117 | the loop condition held before each of the first k rounds; see `WhileRuns` |
| Iteration.WhileRuns | src/game/weekend/texteditor/Replacer.java:117 | a loop whose condition holds for k rounds and fails after them (or that has exactly k fuel) ends after k rounds |
| Iteration.WhileAlong | src/game/weekend/texteditor/Replacer.java:117 | a loop whose condition holds forever along a path uses up all its fuel |

## Left out

- Input and output of the properties file: the streams that `Proper.read` and `Proper.save` use (Proper.java:35-55) are outside the model. `Read` takes what was loaded as a parameter, and `save` only writes the store.
- Scrolling a found match into view (`modelToView2D`, `scrollRectToVisible`) changes no modelled state, so it is left out.
- The status bar's timer that clears a message after a delay (StatusBar.java:74-82) and its two other sections are left out. A message is shown until the next one.
- Case folding is ASCII-only. Java's full Unicode upper-casing, including characters whose upper case has a different length, is not modelled.
- Text positions count Unicode scalar values (Dafny's `char`), while Java's string indices, `pattern.length()` and caret offsets count UTF-16 code units. For well-formed text the matches and spans correspond one to one, but their numeric positions differ after any character outside the Basic Multilingual Plane, and a lone surrogate cannot be represented.
- The `UndoManager` is modelled as two stacks of whole-text edits with its default limit of 100. Compound and significant edits are not modelled.
- The Act menu's enabling of Undo, Redo and the other items (Act.java) is left out.
- Dialog frames, look and feel, and focus handling are left out: FinderFrame.java, ReplacerFrame.java, LaF.java, and `whatFocus`. The dialog's fields reach the engines as parameters.
- WeekendTextEditor.java, Filer.java, Messenger.java, Mes.java and GBL.java are not part of this model. They are the application shell and file handling.
  - The facts taken from them are stated in the notes above: `new LastFiles(5)`, the `resetPosition` calls, and `setChanged(false)` on save.
  - WeekendTextEditor.java:77 calls a `Finder` constructor without the look-and-feel argument that Finder.java declares. The model follows Finder.java.
- Editor's other actions are left out: the key bindings, drag and drop, the popup menu, and cut/copy/paste/select-all.
  - How Swing moves the caret after a typed edit, an undo or a redo is not modelled beyond keeping the caret within the text (`TextPane.Pane.Change`).
- Replacer.BackLoop: the backward `replaceAll` loop runs on a fuel bound, because it need not terminate. A run that exhausts the fuel ends as `OutOfFuel`.
- Replacer.ReplaceAllForwardReplacesEvery: proved only for a non-empty replacer, with no selection and a remembered position other than the mark (`FreshReplaceAllReplacesEvery` covers the usual fresh start). An empty replacer is shown instead to skip matches (`EmptyReplacerSkips`).
- Finder.Finder.FindForward: positions are unbounded integers, so the 32-bit wrap of `++position` is not modelled. It cannot arise, since a position is at most the text length.
- LastFiles.LastFiles.constructor: `maxSize` is a `nat`. A negative size, which the Java constructor accepts, is left out; with it, `put` would throw at `list.remove(maxSize)`.
- LastFiles.LastFiles.constructor: requires maxSize below `Integer.MAX_VALUE`. At that value the Java loop `i <= maxSize` would overflow and never end. The application uses 5.
- Editor.Editor.constructor: requires that FontSize parses as an int. The source would throw `NumberFormatException` there.
  - It also starts with an empty history, where the source has no undo manager until the first `setText`. An undo before that would throw `NullPointerException`.
- JavaLang.ParseInt: accepts only the ASCII digits 0–9 (`JavaLang.IsDigit`). `Integer.parseInt` also accepts other Unicode decimal digits, such as "١٢" for 12; for such a stored FontSize the model gives no value where Java gives the number.
- Loc.Get: requires a non-empty key when the bundle lacks it. The source would throw `StringIndexOutOfBoundsException` on an empty key.
- Edits made by the Replacer go through the pane only. They are not connected to Editor's listener and history.
