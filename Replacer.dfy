/** The replace engine (class Replacer): the find rules of Search with its
    own `position`, a test whether the selection is the pattern, a single
    replace, and the replace-all loop. */
module Replacer {
  import opened JavaLang
  import opened TextPane
  import opened Search
  import Proper
  import opened Iteration

  // ---------------------------------------------------------------------
  // selectionMatchPattern, replace and the loop, on values
  // ---------------------------------------------------------------------

  /** selectionMatchPattern: there is a selection, and it equals the raw
      pattern (ignoring case when the search is case-insensitive). */
  predicate SelectionMatches(v: View, q: Query)
    requires v.Valid()
  {
    match SelectedText(v)
    case None => false
    case Some(t) => if q.caseSensitive then t == q.pattern else EqualsIgnoreCase(t, q.pattern)
  }

  /** The selection matches exactly when it is non-empty, as long as the
      pattern, and the find rules see a match at its start. */
  lemma SelectionMatchesIffMatchAt(v: View, q: Query)
    requires v.Valid()
    ensures SelectionMatches(v, q) <==>
      v.mark != v.dot && v.SelectionEnd() - v.SelectionStart() == |q.pattern| &&
      MatchAt(v, q, v.SelectionStart())
  {
    var a, b := v.SelectionStart(), v.SelectionEnd();
    if v.mark != v.dot && b - a == |q.pattern| {
      var t := v.text[a..b];
      var c := Fold(v.text, q.caseSensitive);
      assert c[a..a + |q.pattern|] == Fold(t, q.caseSensitive);
      SameFromIff(c, Fold(q.pattern, q.caseSensitive), a, 0);
      if !q.caseSensitive {
        EqualsIgnoreCaseIffSameUpper(t, q.pattern);
      }
    }
  }

  /** A successful find leaves a selection that matches the pattern. */
  lemma FoundSelectionMatches(s: State, q: Query, down: bool)
    requires s.Valid()
    requires if down then ForwardOutcome(s, q).Found? else BackOutcome(s, q).Found?
    ensures SelectionMatches(FindIn(s, q, down).view, q)
  {
    EnabledPatternNotEmpty(q);
    if down {
      ForwardOutcomeSpec(s, q);
      ForwardFoundSelects(s, q);
    } else {
      BackOutcomeSpec(s, q);
      BackFoundSelects(s, q);
    }
    SelectionMatchesIffMatchAt(FindIn(s, q, down).view, q);
  }

  /** One find in the chosen direction. */
  function FindIn(s: State, q: Query, down: bool): (r: State)
    requires s.Valid()
    ensures r.Valid()
  {
    if down then FindForward(s, q) else FindBack(s, q)
  }

  /** The find in the chosen direction raises (only findBack can). */
  predicate Raises(s: State, q: Query, down: bool)
    requires s.Valid()
  {
    !down && BackOutcome(s, q).Thrown?
  }

  /** `pane.replaceSelection(replacer)`; position and status stay. */
  function Replaced(s: State, r: string): (t: State)
    requires s.Valid()
    ensures t.Valid() && t.view.mark == t.view.dot
  {
    State(AfterReplaceSelection(s.view, r), s.position, s.message)
  }

  /** The replacing branch of replace(): the selection becomes the replacer,
      then `[start, start + |pattern|)` is selected, clamped to the new text:
      the pattern's length, not the replacer's. */
  function ReplaceSelected(s: State, q: Query, r: string): (t: State)
    requires s.Valid()
    ensures t.Valid()
    ensures t.view.text ==
      s.view.text[..s.view.SelectionStart()] + r + s.view.text[s.view.SelectionEnd()..]
    ensures t.view.mark == s.view.SelectionStart()
    ensures t.view.dot == Min(s.view.SelectionStart() + |q.pattern|, |t.view.text|)
    ensures t.position == s.position && t.message == s.message
  {
    var start := s.view.SelectionStart();
    State(AfterSelect(Replaced(s, r).view, start, start + |q.pattern|), s.position, s.message)
  }

  /** replace(): replace a matching selection, otherwise one find. */
  function ReplaceStep(s: State, q: Query, r: string, down: bool): (t: State)
    requires s.Valid()
    ensures t.Valid()
  {
    if SelectionMatches(s.view, q) then ReplaceSelected(s, q, r) else FindIn(s, q, down)
  }

  /** replace() on a selection that does not match leaves the text alone and
      moves the caret only as one find does; it raises exactly when that
      find does. */
  lemma ReplaceWithoutMatchFinds(s: State, q: Query, r: string, down: bool)
    requires s.Valid() && !SelectionMatches(s.view, q)
    ensures ReplaceStep(s, q, r, down) == FindIn(s, q, down)
    ensures ReplaceStep(s, q, r, down).view.text == s.view.text
  {
  }

  /** The distance from the selection start to the end of the text. */
  function Measure(s: State): nat
    requires s.Valid()
  {
    |s.view.text| - s.view.SelectionStart()
  }

  /** One forward round of replaceAll (replace the matching selection, then
      find forward) strictly decreases the measure: the next search starts at
      or after the end of the inserted text, whatever the replacer holds. */
  lemma ForwardRoundShrinks(s: State, q: Query, r: string)
    requires s.Valid() && SelectionMatches(s.view, q)
    ensures Measure(FindForward(Replaced(s, r), q)) < Measure(s)
  {
    var s1 := Replaced(s, r);
    var o := ForwardOutcome(s1, q);
    if o.Found? {
      EnabledPatternNotEmpty(q);
      ForwardOutcomeSpec(s1, q);
      ForwardFoundSelects(s1, q);
    }
  }

  /** The forward loop of replaceAll: while the selection matches, replace it
      and find forward. It ends with no matching selection. */
  function ForwardLoop(s: State, q: Query, r: string): (t: State)
    requires s.Valid()
    ensures t.Valid() && !SelectionMatches(t.view, q)
    decreases Measure(s)
  {
    if !SelectionMatches(s.view, q) then s
    else
      ForwardRoundShrinks(s, q, r);
      ForwardLoop(FindForward(Replaced(s, r), q), q, r)
  }

  /** How replaceAll ends: the loop stops, the first findBack raises, or (in
      the backward direction, which need not stop) the fuel runs out. */
  datatype LoopEnd = Finished | Raised | OutOfFuel

  datatype Run = Run(state: State, end: LoopEnd)

  /** A find state whose caret lies within the text. */
  type ValidState = s: State | s.Valid() witness State(View([], 0, 0), -1, Cleared)

  /** One round of the backward loop: replace the selection, then findBack. */
  function BackStep(q: Query, r: string): ValidState -> ValidState
  {
    (s: ValidState) => FindBack(Replaced(s, r), q)
  }

  /** The loop's condition: the selection matches the pattern. */
  function Matching(q: Query): ValidState -> bool
  {
    (s: ValidState) => SelectionMatches(s.view, q)
  }

  lemma BackStepIs(q: Query, r: string, s: ValidState)
    ensures BackStep(q, r)(s) == FindBack(Replaced(s, r), q)
    ensures Matching(q)(s) == SelectionMatches(s.view, q)
  {
  }

  /** The backward loop of replaceAll, bounded by `fuel` rounds. */
  function BackLoop(s: State, q: Query, r: string, fuel: nat): (run: Run)
    requires s.Valid()
    ensures run.state.Valid() && run.end != Raised
    ensures run.end == Finished <==> !SelectionMatches(run.state.view, q)
  {
    var e := While<ValidState>(BackStep(q, r), Matching(q), s, fuel);
    Run(e.last, if e.done then Finished else OutOfFuel)
  }

  /** Inside the loop findBack cannot raise: after replaceSelection there is
      no selection, so it resumes at the dot. */
  lemma LoopFindBackNeverRaises(s: State, q: Query, r: string)
    requires s.Valid()
    ensures !BackOutcome(Replaced(s, r), q).Thrown?
  {
    BackThrowsIff(Replaced(s, r), q);
  }

  /** replaceAll: one find first when the selection does not match, then the
      loop in the chosen direction. */
  function ReplaceAllRun(s: State, q: Query, r: string, down: bool, fuel: nat): (run: Run)
    requires s.Valid()
    ensures run.state.Valid()
    ensures run.end == Raised <==> !SelectionMatches(s.view, q) && Raises(s, q, down)
    ensures down ==> run.end != OutOfFuel
    ensures run.end == Finished ==> !SelectionMatches(run.state.view, q)
  {
    var matched := SelectionMatches(s.view, q);
    if !matched && Raises(s, q, down) then Run(FindIn(s, q, down), Raised)
    else
      var s0 := if matched then s else FindIn(s, q, down);
      if down then Run(ForwardLoop(s0, q, r), Finished) else BackLoop(s0, q, r, fuel)
  }

  // ---------------------------------------------------------------------
  // Forward replaceAll against a reference replacement
  // ---------------------------------------------------------------------

  /** The reference: scanning t from i, every non-overlapping occurrence of
      fp in ft (the text and the pattern as the find rules compare them) is
      replaced by r, leftmost first; every other character of t is kept. */
  function ReplaceFrom(t: string, ft: string, fp: string, r: string, i: nat): string
    requires |fp| > 0 && |ft| == |t| && i <= |t|
    decreases |t| - i
  {
    if i + |fp| > |t| then t[i..]
    else if OccursAt(ft, fp, i) then r + ReplaceFrom(t, ft, fp, r, i + |fp|)
    else [t[i]] + ReplaceFrom(t, ft, fp, r, i + 1)
  }

  /** The reference on the whole text, with the folding of the query. */
  function ReplaceEvery(t: string, q: Query, r: string): string
    requires |q.pattern| > 0
  {
    ReplaceFrom(t, Fold(t, q.caseSensitive), Fold(q.pattern, q.caseSensitive), r, 0)
  }

  /** Folding works character by character. */
  lemma FoldAppend(a: string, b: string, cs: bool)
    ensures Fold(a + b, cs) == Fold(a, cs) + Fold(b, cs)
  {
    assert forall i :: 0 <= i < |a + b| ==> Fold(a + b, cs)[i] == (Fold(a, cs) + Fold(b, cs))[i];
  }

  /** Occurrences in a suffix are the occurrences past the prefix. */
  lemma OccursShift(a: string, b: string, p: string, k: int)
    requires k >= 0
    ensures OccursAt(a + b, p, |a| + k) <==> OccursAt(b, p, k)
  {
    if k + |p| <= |b| {
      SameFromIff(a + b, p, |a| + k, 0);
      SameFromIff(b, p, k, 0);
      assert (a + b)[|a| + k..|a| + k + |p|] == b[k..k + |p|];
    }
  }

  /** A match is replaced and the scan resumes after it. */
  lemma ReplaceFromAt(t: string, ft: string, fp: string, r: string, i: nat)
    requires |fp| > 0 && |ft| == |t| && i <= |t| && OccursAt(ft, fp, i)
    ensures ReplaceFrom(t, ft, fp, r, i) == r + ReplaceFrom(t, ft, fp, r, i + |fp|)
  {
  }

  /** A character where no match starts is copied. */
  lemma ReplaceFromCopy(t: string, ft: string, fp: string, r: string, i: nat)
    requires |fp| > 0 && |ft| == |t| && i < |t| && !OccursAt(ft, fp, i)
    ensures ReplaceFrom(t, ft, fp, r, i) == [t[i]] + ReplaceFrom(t, ft, fp, r, i + 1)
  {
    if i + |fp| > |t| {
      assert t[i..] == [t[i]] + t[i + 1..];
    }
  }

  lemma ShiftTail(a: string, fa: string, b: string, fb: string, fp: string, r: string, i: nat)
    requires |fp| > 0 && |fa| == |a| && |fb| == |b| && i <= |b| && i + |fp| > |b|
    ensures ReplaceFrom(a + b, fa + fb, fp, r, |a| + i) == ReplaceFrom(b, fb, fp, r, i)
  {
    assert (a + b)[|a| + i..] == b[i..];
  }

  lemma ShiftMatch(a: string, fa: string, b: string, fb: string, fp: string, r: string, i: nat)
    requires |fp| > 0 && |fa| == |a| && |fb| == |b| && i + |fp| <= |b| && OccursAt(fb, fp, i)
    requires ReplaceFrom(a + b, fa + fb, fp, r, |a| + (i + |fp|)) == ReplaceFrom(b, fb, fp, r, i + |fp|)
    ensures ReplaceFrom(a + b, fa + fb, fp, r, |a| + i) == ReplaceFrom(b, fb, fp, r, i)
  {
    OccursShift(fa, fb, fp, i);
  }

  lemma ShiftCopy(a: string, fa: string, b: string, fb: string, fp: string, r: string, i: nat)
    requires |fp| > 0 && |fa| == |a| && |fb| == |b| && i + |fp| <= |b| && !OccursAt(fb, fp, i)
    requires ReplaceFrom(a + b, fa + fb, fp, r, |a| + (i + 1)) == ReplaceFrom(b, fb, fp, r, i + 1)
    ensures ReplaceFrom(a + b, fa + fb, fp, r, |a| + i) == ReplaceFrom(b, fb, fp, r, i)
  {
    OccursShift(fa, fb, fp, i);
    assert (a + b)[|a| + i] == b[i];
  }

  /** The reference does not depend on what precedes the scan. */
  lemma {:induction false} ReplaceFromShift(a: string, fa: string, b: string, fb: string, fp: string, r: string, i: nat)
    requires |fp| > 0 && |fa| == |a| && |fb| == |b| && i <= |b|
    ensures ReplaceFrom(a + b, fa + fb, fp, r, |a| + i) == ReplaceFrom(b, fb, fp, r, i)
    decreases |b| - i
  {
    if i + |fp| > |b| {
      ShiftTail(a, fa, b, fb, fp, r, i);
    } else if OccursAt(fb, fp, i) {
      ReplaceFromShift(a, fa, b, fb, fp, r, i + |fp|);
      ShiftMatch(a, fa, b, fb, fp, r, i);
    } else {
      ReplaceFromShift(a, fa, b, fb, fp, r, i + 1);
      ShiftCopy(a, fa, b, fb, fp, r, i);
    }
  }

  /** Characters before the next match are copied. */
  lemma {:induction false} ReplaceFromSkip(t: string, ft: string, fp: string, r: string, i: nat, j: nat)
    requires |fp| > 0 && |ft| == |t| && i <= j <= |t|
    requires forall k :: i <= k < j ==> !OccursAt(ft, fp, k)
    ensures ReplaceFrom(t, ft, fp, r, i) == t[i..j] + ReplaceFrom(t, ft, fp, r, j)
    decreases j - i
  {
    if i < j {
      ReplaceFromCopy(t, ft, fp, r, i);
      ReplaceFromSkip(t, ft, fp, r, i + 1, j);
      assert t[i..j] == [t[i]] + t[i + 1..j];
    }
  }

  /** With no match from i on, the rest of the text is copied. */
  lemma ReplaceFromNone(t: string, ft: string, fp: string, r: string, i: nat)
    requires |fp| > 0 && |ft| == |t| && i <= |t|
    requires forall k :: i <= k ==> !OccursAt(ft, fp, k)
    ensures ReplaceFrom(t, ft, fp, r, i) == t[i..]
  {
    ReplaceFromSkip(t, ft, fp, r, i, |t|);
  }

  /** The match rule of the find engine is the occurrence test of the
      reference on the folded strings. */
  lemma NoMatchNoOccurrence(t: string, q: Query, i: int, j: int)
    requires forall k :: i <= k < j ==> !MatchIn(t, q, k)
    ensures forall k :: i <= k < j ==> !OccursAt(Fold(t, q.caseSensitive), Fold(q.pattern, q.caseSensitive), k)
  {
    forall k | i <= k < j
      ensures !OccursAt(Fold(t, q.caseSensitive), Fold(q.pattern, q.caseSensitive), k)
    {
      assert !MatchIn(t, q, k);
    }
  }

  /** The reference, scanning from a match at `start`, replaces it and goes
      on in the text after it as if that text stood alone. */
  lemma ReferenceAtMatch(t: string, q: Query, r: string, start: nat)
    requires |q.pattern| > 0 && start <= |t| && MatchIn(t, q, start)
    ensures var cs, e := q.caseSensitive, start + |q.pattern|;
      e <= |t| &&
      ReplaceFrom(t, Fold(t, cs), Fold(q.pattern, cs), r, start) ==
        r + ReplaceFrom(t[e..], Fold(t[e..], cs), Fold(q.pattern, cs), r, 0)
  {
    var cs, e := q.caseSensitive, start + |q.pattern|;
    assert e <= |t|;
    FoldAppend(t[..e], t[e..], cs);
    assert t == t[..e] + t[e..];
    ReplaceFromAfterMatch(t[..e], Fold(t[..e], cs), t[e..], Fold(t[e..], cs), Fold(q.pattern, cs), r, start);
  }

  /** The same on explicit folded strings: a match at `start` ending where
      the prefix a ends. */
  lemma ReplaceFromAfterMatch(a: string, fa: string, b: string, fb: string, fp: string, r: string, start: nat)
    requires |fp| > 0 && |fa| == |a| && |fb| == |b|
    requires |a| == start + |fp| && OccursAt(fa + fb, fp, start)
    ensures ReplaceFrom(a + b, fa + fb, fp, r, start) == r + ReplaceFrom(b, fb, fp, r, 0)
  {
    ReplaceFromAt(a + b, fa + fb, fp, r, start);
    ReplaceFromShift(a, fa, b, fb, fp, r, 0);
  }

  /** After the replacer is inserted as `pre`, the reference on the rest b
      copies b up to the next match i and then scans the new text from i. */
  lemma ReferenceAfterInsert(pre: string, b: string, q: Query, r: string, i: nat)
    requires |q.pattern| > 0 && |pre| <= i <= |pre + b|
    requires forall k :: |pre| <= k < i ==> !MatchIn(pre + b, q, k)
    ensures var cs, t1 := q.caseSensitive, pre + b;
      ReplaceFrom(b, Fold(b, cs), Fold(q.pattern, cs), r, 0) ==
        t1[|pre|..i] + ReplaceFrom(t1, Fold(t1, cs), Fold(q.pattern, cs), r, i)
  {
    var cs, fp, t1 := q.caseSensitive, Fold(q.pattern, q.caseSensitive), pre + b;
    FoldAppend(pre, b, cs);
    ReplaceFromShift(pre, Fold(pre, cs), b, Fold(b, cs), fp, r, 0);
    NoMatchNoOccurrence(t1, q, |pre|, i);
    ReplaceFromSkip(t1, Fold(t1, cs), fp, r, |pre|, i);
  }

  /** After the replacer is inserted as `pre`, with no further match, the
      reference copies the rest b. */
  lemma ReferenceAfterInsertNone(pre: string, b: string, q: Query, r: string)
    requires |q.pattern| > 0
    requires forall k :: |pre| <= k ==> !MatchIn(pre + b, q, k)
    ensures ReplaceFrom(b, Fold(b, q.caseSensitive), Fold(q.pattern, q.caseSensitive), r, 0) == b
  {
    ReferenceAfterInsert(pre, b, q, r, |pre + b|);
    assert (pre + b)[|pre|..|pre + b|] == b;
  }

  /** What the forward loop is to leave from s: when the selection matches,
      the text before it followed by the reference scanning from the
      selection on; otherwise the text as it stands. */
  function Promised(s: State, q: Query, r: string): string
    requires s.Valid() && |q.pattern| > 0
  {
    var t, start, cs := s.view.text, s.view.SelectionStart(), q.caseSensitive;
    if SelectionMatches(s.view, q) then t[..start] + ReplaceFrom(t, Fold(t, cs), Fold(q.pattern, cs), r, start)
    else t
  }

  /** The loop's own invariant: a matching selection does not end where the
      next round's caret will be, so that the next find resumes at the caret
      instead of one past it. */
  predicate Resumes(s: State, r: string)
  {
    s.view.mark != s.view.dot ==> s.position != s.view.SelectionStart() + |r|
  }

  /** The forward loop, entered in a state that keeps its invariant, leaves
      what the reference promises: each round resumes at the end of the
      inserted text. */
  lemma {:induction false} ForwardLoopKeepsPromise(s: State, q: Query, r: string)
    requires s.Valid() && Enabled(q) && |r| > 0 && Resumes(s, r)
    ensures ForwardLoop(s, q, r).view.text == Promised(s, q, r)
    decreases Measure(s)
  {
    EnabledPatternNotEmpty(q);
    if SelectionMatches(s.view, q) {
      var s2 := FindForward(Replaced(s, r), q);
      ForwardLoopUnroll(s, q, r);
      ForwardRoundShrinks(s, q, r);
      RoundKeepsPromise(s, q, r);
      ForwardLoopKeepsPromise(s2, q, r);
    }
  }

  /** One round (replace, then find on) changes neither the promise nor the
      invariant. */
  lemma RoundKeepsPromise(s: State, q: Query, r: string)
    requires s.Valid() && Enabled(q) && |r| > 0 && Resumes(s, r)
    requires SelectionMatches(s.view, q)
    ensures var s2 := FindForward(Replaced(s, r), q);
      Promised(s2, q, r) == Promised(s, q, r) && Resumes(s2, r)
  {
    EnabledPatternNotEmpty(q);
    var t, start := s.view.text, s.view.SelectionStart();
    var e := start + |q.pattern|;
    ReplacedAtMatch(s, q, r);
    PromisedAtMatch(s, q, r);
    FindAfterInsertKeepsPromise(Replaced(s, r), q, r, t[..start] + r, t[e..]);
  }

  /** replaceSelection on a matching selection, in the terms the round's
      find is reasoned about: the caret sits at the end of the insertion and
      the find resumes there. */
  lemma ReplacedAtMatch(s: State, q: Query, r: string)
    requires s.Valid() && SelectionMatches(s.view, q) && Resumes(s, r)
    ensures var t, start := s.view.text, s.view.SelectionStart();
      var e, s1 := start + |q.pattern|, Replaced(s, r);
      e <= |t| && s1.Valid() && s1.view.text == (t[..start] + r) + t[e..] &&
      s1.view.mark == s1.view.dot && ForwardResume(s1.position, s1.view.mark) == |t[..start] + r|
  {
    ReplacedSelection(s, q, r);
  }

  /** After the replacer is inserted as `pre`, the find of the round leaves
      the insertion followed by the reference on the rest b, and the
      invariant. */
  lemma FindAfterInsertKeepsPromise(s1: State, q: Query, r: string, pre: string, b: string)
    requires s1.Valid() && Enabled(q) && |r| > 0 && s1.view.text == pre + b
    requires s1.view.mark == s1.view.dot && ForwardResume(s1.position, s1.view.mark) == |pre|
    ensures var s2, cs := FindForward(s1, q), q.caseSensitive;
      Promised(s2, q, r) == pre + ReplaceFrom(b, Fold(b, cs), Fold(q.pattern, cs), r, 0) && Resumes(s2, r)
  {
    EnabledPatternNotEmpty(q);
    var cs := q.caseSensitive;
    var rest := ReplaceFrom(b, Fold(b, cs), Fold(q.pattern, cs), r, 0);
    if ForwardOutcome(s1, q).Found? {
      var i := ForwardOutcome(s1, q).at;
      var tail := ReplaceFrom(s1.view.text, Fold(s1.view.text, cs), Fold(q.pattern, cs), r, i);
      assert |pre| <= i <= |s1.view.text| && rest == s1.view.text[|pre|..i] + tail by {
        RestAfterMatch(s1, q, r, pre, b);
      }
      PromisedAfterFound(s1, q, r);
      ConcatAfterMatch(Promised(FindForward(s1, q), q, r), s1.view.text, pre, b, tail, rest, i);
    } else {
      assert rest == b by {
        RestAfterNoMatch(s1, q, r, pre, b);
      }
      PromisedAfterNotFound(s1, q, r);
    }
  }

  /** The promise on a matching selection: the text before it, the replacer,
      then the reference on the text after the match as if it stood alone. */
  lemma PromisedAtMatch(s: State, q: Query, r: string)
    requires s.Valid() && |q.pattern| > 0 && SelectionMatches(s.view, q)
    ensures var t, start, cs := s.view.text, s.view.SelectionStart(), q.caseSensitive;
      var e := start + |q.pattern|;
      e <= |t| &&
      Promised(s, q, r) == (t[..start] + r) + ReplaceFrom(t[e..], Fold(t[e..], cs), Fold(q.pattern, cs), r, 0)
  {
    var t, start, cs := s.view.text, s.view.SelectionStart(), q.caseSensitive;
    var e := start + |q.pattern|;
    var whole := ReplaceFrom(t, Fold(t, cs), Fold(q.pattern, cs), r, start);
    assert Promised(s, q, r) == t[..start] + whole;
    assert MatchIn(t, q, start) by {
      SelectionMatchesIffMatchAt(s.view, q);
    }
    ReferenceAtMatch(t, q, r, start);
    AppendAssoc(t[..start], r, ReplaceFrom(t[e..], Fold(t[e..], cs), Fold(q.pattern, cs), r, 0));
  }

  lemma AppendAssoc(a: string, b: string, c: string)
    ensures a + (b + c) == (a + b) + c
  {
  }

  /** After a find that succeeds at i, the promise is the text up to i and
      the reference from i, and the invariant holds. */
  lemma PromisedAfterFound(s1: State, q: Query, r: string)
    requires s1.Valid() && Enabled(q) && |r| > 0 && ForwardOutcome(s1, q).Found?
    ensures var t1, i, cs := s1.view.text, ForwardOutcome(s1, q).at, q.caseSensitive;
      var s2 := FindForward(s1, q);
      i <= |t1| && Resumes(s2, r) &&
      Promised(s2, q, r) == t1[..i] + ReplaceFrom(t1, Fold(t1, cs), Fold(q.pattern, cs), r, i)
  {
    EnabledPatternNotEmpty(q);
    ForwardFoundSelects(s1, q);
    FoundSelectionMatches(s1, q, true);
  }

  /** After a find that fails right after a replacement, no selection is
      left: the promise is the text and the invariant holds. */
  lemma PromisedAfterNotFound(s1: State, q: Query, r: string)
    requires s1.Valid() && |q.pattern| > 0 && s1.view.mark == s1.view.dot
    requires !ForwardOutcome(s1, q).Found? && Enabled(q)
    ensures var s2 := FindForward(s1, q);
      Resumes(s2, r) && Promised(s2, q, r) == s1.view.text
  {
    ForwardOutcomeSpec(s1, q);
    NotFoundKeepsCaret(s1, q);
    SelectionMatchesIffMatchAt(s1.view, q);
  }

  /** The forward loop, entered on a matching selection at `start` with a
      non-empty replacer and a `position` that is not the caret after the
      first replacement, replaces every occurrence from `start` on, as the
      reference does. */
  lemma ForwardLoopReplacesEvery(s: State, q: Query, r: string)
    requires s.Valid() && Enabled(q) && |r| > 0
    requires SelectionMatches(s.view, q)
    requires s.position != s.view.SelectionStart() + |r|
    ensures var t, start, cs := s.view.text, s.view.SelectionStart(), q.caseSensitive;
      ForwardLoop(s, q, r).view.text ==
        t[..start] + ReplaceFrom(t, Fold(t, cs), Fold(q.pattern, cs), r, start)
  {
    ForwardLoopKeepsPromise(s, q, r);
  }

  /** replaceSelection on a matching selection [start, e): the replacer
      takes its place and the caret sits right after it. */
  lemma ReplacedSelection(s: State, q: Query, r: string)
    requires s.Valid() && SelectionMatches(s.view, q)
    ensures var t, start := s.view.text, s.view.SelectionStart();
      var e := start + |q.pattern|;
      e <= |t| &&
      Replaced(s, r) == State(View(t[..start] + r + t[e..], start + |r|, start + |r|), s.position, s.message)
  {
    SelectionMatchesIffMatchAt(s.view, q);
  }

  /** While the selection matches, the loop goes on with one round. */
  lemma ForwardLoopUnroll(s: State, q: Query, r: string)
    requires s.Valid() && SelectionMatches(s.view, q)
    ensures ForwardLoop(s, q, r) == ForwardLoop(FindForward(Replaced(s, r), q), q, r)
  {
  }

  /** After an insertion `pre`, a find from |pre| that succeeds at i leaves
      the reference on the rest b equal to b up to i, then the scan from i. */
  lemma RestAfterMatch(s1: State, q: Query, r: string, pre: string, b: string)
    requires s1.Valid() && |q.pattern| > 0 && s1.view.text == pre + b
    requires ForwardResume(s1.position, s1.view.mark) == |pre|
    requires ForwardOutcome(s1, q).Found?
    ensures var i, cs, t1 := ForwardOutcome(s1, q).at, q.caseSensitive, pre + b;
      |pre| <= i <= |t1| &&
      ReplaceFrom(b, Fold(b, cs), Fold(q.pattern, cs), r, 0) ==
        t1[|pre|..i] + ReplaceFrom(t1, Fold(t1, cs), Fold(q.pattern, cs), r, i)
  {
    ForwardOutcomeSpec(s1, q);
    var i := ForwardOutcome(s1, q).at;
    forall k | |pre| <= k < i ensures !MatchIn(pre + b, q, k) {
      assert !MatchAt(s1.view, q, k);
    }
    ReferenceAfterInsert(pre, b, q, r, i);
  }

  /** After an insertion `pre`, a find from |pre| that fails leaves the
      reference on the rest b equal to b. */
  lemma RestAfterNoMatch(s1: State, q: Query, r: string, pre: string, b: string)
    requires s1.Valid() && |q.pattern| > 0 && s1.view.text == pre + b
    requires ForwardResume(s1.position, s1.view.mark) == |pre|
    requires ForwardOutcome(s1, q).NotFound?
    ensures ReplaceFrom(b, Fold(b, q.caseSensitive), Fold(q.pattern, q.caseSensitive), r, 0) == b
  {
    ForwardOutcomeSpec(s1, q);
    forall k | |pre| <= k ensures !MatchIn(pre + b, q, k) {
      assert !MatchAt(s1.view, q, k);
    }
    ReferenceAfterInsertNone(pre, b, q, r);
  }

  /** The pieces of RoundKeepsPromise put together: what is promised past
      the insertion is the reference on the rest. */
  lemma ConcatAfterMatch(result: string, t1: string, pre: string, b: string, tail: string, rest: string, i: nat)
    requires t1 == pre + b && |pre| <= i <= |t1|
    requires rest == t1[|pre|..i] + tail && result == t1[..i] + tail
    ensures result == pre + rest
  {
    assert t1[..i] == pre + t1[|pre|..i];
  }

  /** replaceAll forward from a caret m without a selection, with a
      non-empty replacer and a `position` other than the caret: every
      occurrence from m on is replaced, as by the reference. */
  lemma ReplaceAllForwardReplacesEvery(s: State, q: Query, r: string)
    requires s.Valid() && Enabled(q) && |r| > 0
    requires s.view.mark == s.view.dot && s.position != s.view.mark
    ensures var t, m, cs := s.view.text, s.view.mark, q.caseSensitive;
      ReplaceAllRun(s, q, r, true, 0).state.view.text ==
        t[..m] + ReplaceFrom(t, Fold(t, cs), Fold(q.pattern, cs), r, m)
  {
    EnabledPatternNotEmpty(q);
    var t, m, cs := s.view.text, s.view.mark, q.caseSensitive;
    var ft, fp := Fold(t, cs), Fold(q.pattern, cs);
    var s1 := FindForward(s, q);
    var result := ReplaceAllRun(s, q, r, true, 0).state.view.text;
    assert result == ForwardLoop(s1, q, r).view.text by {
      SelectionMatchesIffMatchAt(s.view, q);
    }
    var o := ForwardOutcome(s, q);
    if o.Found? {
      var i := o.at;
      assert ForwardLoop(s1, q, r).view.text == t[..i] + ReplaceFrom(t, ft, fp, r, i) by {
        ForwardFoundSelects(s, q);
        FoundSelectionMatches(s, q, true);
        ForwardLoopReplacesEvery(s1, q, r);
      }
      assert ReplaceFrom(t, ft, fp, r, m) == t[m..i] + ReplaceFrom(t, ft, fp, r, i) by {
        ReferenceUpToFind(s, q, r);
      }
      SplitAt(t, m, i);
      Regroup(result, t[..i], t[..m], t[m..i], ReplaceFrom(t, ft, fp, r, i), ReplaceFrom(t, ft, fp, r, m));
    } else {
      assert ReplaceFrom(t, ft, fp, r, m) == t[m..] by {
        ReferenceUpToFind(s, q, r);
      }
      assert ForwardLoop(s1, q, r).view.text == t by {
        NotFoundKeepsCaret(s, q);
        SelectionMatchesIffMatchAt(s.view, q);
      }
      SplitAt(t, m, |t|);
    }
  }

  /** The reference from the index a find resumes at: the text up to the
      match the find reports is copied, and all of it when there is none. */
  lemma ReferenceUpToFind(s: State, q: Query, r: string)
    requires s.Valid() && Enabled(q) && |q.pattern| > 0
    requires 0 <= ForwardResume(s.position, s.view.mark) <= |s.view.text|
    ensures var t, cs, m, o := s.view.text, q.caseSensitive, ForwardResume(s.position, s.view.mark), ForwardOutcome(s, q);
      var ft, fp := Fold(t, cs), Fold(q.pattern, cs);
      (o.Found? ==> m <= o.at <= |t| && ReplaceFrom(t, ft, fp, r, m) == t[m..o.at] + ReplaceFrom(t, ft, fp, r, o.at)) &&
      (o.NotFound? ==> ReplaceFrom(t, ft, fp, r, m) == t[m..])
  {
    var t, cs, m := s.view.text, q.caseSensitive, ForwardResume(s.position, s.view.mark);
    var ft, fp := Fold(t, cs), Fold(q.pattern, cs);
    ForwardOutcomeSpec(s, q);
    var o := ForwardOutcome(s, q);
    if o.Found? {
      forall k | m <= k < o.at ensures !MatchIn(t, q, k) {
        assert !MatchAt(s.view, q, k);
      }
      NoMatchNoOccurrence(t, q, m, o.at);
      ReplaceFromSkip(t, ft, fp, r, m, o.at);
    } else if o.NotFound? {
      forall k | m <= k < |t| + 1 ensures !MatchIn(t, q, k) {
        assert !MatchAt(s.view, q, k);
      }
      NoMatchNoOccurrence(t, q, m, |t| + 1);
      ReplaceFromNone(t, ft, fp, r, m);
    }
  }

  /** Regrouping a concatenation of three parts. */
  lemma Regroup(x: string, xl: string, a: string, b: string, c: string, d: string)
    requires x == xl + c && xl == a + b && d == b + c
    ensures x == a + d
  {
  }

  lemma SplitAt(t: string, m: nat, i: nat)
    requires m <= i <= |t|
    ensures t[..i] == t[..m] + t[m..i] && t == t[..m] + t[m..]
  {
  }

  /** On a fresh replacer with the caret at the start, forward replaceAll with
      a non-empty replacer replaces every occurrence in the text. */
  lemma FreshReplaceAllReplacesEvery(s: State, q: Query, r: string)
    requires s.Valid() && Enabled(q) && |r| > 0
    requires s.view.mark == s.view.dot == 0 && s.position == -1
    ensures ReplaceAllRun(s, q, r, true, 0).state.view.text == ReplaceEvery(s.view.text, q, r)
  {
    ReplaceAllForwardReplacesEvery(s, q, r);
  }

  // ---------------------------------------------------------------------
  // Backward replaceAll need not stop
  // ---------------------------------------------------------------------

  /** n copies of c. */
  function Repeat(c: char, n: nat): (r: string)
    ensures |r| == n
  {
    if n == 0 then [] else Repeat(c, n - 1) + [c]
  }

  /** The state after n backward rounds of replacing "a" by "aa" in "a":
      n + 1 letters a, the last one selected. */
  function Diverging(n: nat): (s: ValidState)
  {
    State(View(Repeat('a', n + 1), n, n + 1), n, Cleared)
  }

  lemma DivergingSelectionMatches(n: nat, q: Query)
    requires q == Query("a", true)
    ensures SelectionMatches(Diverging(n).view, q)
  {
    assert Diverging(n).view.text[n..n + 1] == "a";
  }

  lemma DivergingReplaced(n: nat)
    ensures Replaced(Diverging(n), "aa") == State(View(Repeat('a', n + 2), n + 2, n + 2), n, Cleared)
  {
    var t := Repeat('a', n + 1);
    assert t[..n] == Repeat('a', n);
    assert t[..n] + "aa" + t[n + 1..] == Repeat('a', n + 2);
  }

  /** findBack of "a" with the caret at the end of k + 1 letters a, and no
      selection, finds the last letter. */
  lemma RepeatBackOutcome(k: nat, q: Query, p: int, m: Message)
    requires q == Query("a", true)
    ensures BackOutcome(State(View(Repeat('a', k + 1), k + 1, k + 1), p, m), q) == Found(k)
  {
    var s := State(View(Repeat('a', k + 1), k + 1, k + 1), p, m);
    assert !Blank(q.pattern) by { assert q.pattern[0] == 'a'; }
    EnabledIffNotBlank(q);
    BackOutcomeSpec(s, q);
    assert MatchAt(s.view, q, k) by {
      assert s.view.text[k..k + 1] == "a";
    }
  }

  /** Each backward round turns Diverging(n) into Diverging(n + 1): the
      inserted "aa" ends at the caret, and findBack selects its second "a". */
  lemma DivergingRound(n: nat, q: Query)
    requires q == Query("a", true)
    ensures SelectionMatches(Diverging(n).view, q)
    ensures FindBack(Replaced(Diverging(n), "aa"), q) == Diverging(n + 1)
  {
    DivergingSelectionMatches(n, q);
    DivergingReplaced(n);
    var s1 := Replaced(Diverging(n), "aa");
    RepeatBackOutcome(n + 1, q, n, Cleared);
    BackFoundSelects(s1, q);
  }

  /** DivergingRound for every n, as steps of the loop. */
  lemma DivergingSteps(q: Query)
    requires q == Query("a", true)
    ensures forall n: nat :: BackStep(q, "aa")(Diverging(n)) == Diverging(n + 1)
    ensures forall n: nat :: Matching(q)(Diverging(n))
  {
    forall n: nat
      ensures BackStep(q, "aa")(Diverging(n)) == Diverging(n + 1) && Matching(q)(Diverging(n))
    {
      DivergingRound(n, q);
      BackStepIs(q, "aa", Diverging(n));
    }
  }

  /** From Diverging(n), the backward loop uses up any bound on its rounds. */
  lemma BackLoopDiverges(n: nat, q: Query, fuel: nat)
    requires q == Query("a", true)
    ensures BackLoop(Diverging(n), q, "aa", fuel) == Run(Diverging(n + fuel), OutOfFuel)
  {
    DivergingSteps(q);
    WhileAlong<ValidState>(BackStep(q, "aa"), Matching(q), Diverging, n, fuel);
  }

  /** Backward replaceAll of "a" by "aa" on the text "a" with "a" selected
      never finishes: whatever the bound on the rounds, it is used up, and
      after n rounds the text has n + 1 letters. */
  lemma BackReplaceAllDiverges(n: nat, q: Query, fuel: nat)
    requires q == Query("a", true)
    ensures ReplaceAllRun(Diverging(n), q, "aa", false, fuel) == Run(Diverging(n + fuel), OutOfFuel)
    ensures |ReplaceAllRun(Diverging(n), q, "aa", false, fuel).state.view.text| == n + fuel + 1
  {
    DivergingSelectionMatches(n, q);
    ReplaceAllFromMatch(Diverging(n), q, "aa", false, fuel);
    BackLoopDiverges(n, q, fuel);
  }

  /** On a matching selection replaceAll goes straight into its loop. */
  lemma ReplaceAllFromMatch(s: State, q: Query, r: string, down: bool, fuel: nat)
    requires s.Valid() && SelectionMatches(s.view, q)
    ensures ReplaceAllRun(s, q, r, down, fuel) ==
      if down then Run(ForwardLoop(s, q, r), Finished) else BackLoop(s, q, r, fuel)
  {
  }

  // ---------------------------------------------------------------------
  // Forward replaceAll with an empty replacer skips matches
  // ---------------------------------------------------------------------

  /** The first find of replaceAll on "aa" with the caret at 0 and no
      remembered position selects the first "a". */
  lemma EmptyFirstFind(s: State, q: Query)
    requires s == State(View("aa", 0, 0), -1, Cleared) && q == Query("a", true)
    ensures FindForward(s, q) == State(View("aa", 0, 1), 0, Cleared)
  {
    assert !Blank(q.pattern) by { assert q.pattern[0] == 'a'; }
    EnabledIffNotBlank(q);
    assert MatchAt(s.view, q, 0) by { SameFromIff("aa", "a", 0, 0); assert "aa"[0..1] == "a"; }
    ForwardOutcomeSpec(s, q);
    ForwardFoundSelects(s, q);
  }

  /** Removing that "a" leaves the caret at 0 with `position` 0, so the next
      find resumes at 1, past the one remaining "a", and fails. */
  lemma EmptySecondFind(s: State, q: Query)
    requires s == State(View("aa", 0, 1), 0, Cleared) && q == Query("a", true)
    ensures SelectionMatches(s.view, q)
    ensures Replaced(s, "") == State(View("a", 0, 0), 0, Cleared)
    ensures FindForward(Replaced(s, ""), q) == State(View("a", 0, 0), 1, UnableToFind("a"))
  {
    assert s.view.text[0..1] == "a";
    assert "aa"[..0] + "" + "aa"[1..] == "a";
    var s1 := Replaced(s, "");
    assert !Blank(q.pattern) by { assert q.pattern[0] == 'a'; }
    EnabledIffNotBlank(q);
    ForwardOutcomeSpec(s1, q);
    NotFoundKeepsCaret(s1, q);
  }

  /** Forward replaceAll of "a" by "" on "aa" (caret at 0, fresh position)
      leaves "a", where the reference removes both letters
      (EmptyReferenceRemovesBoth): a match that starts where the removed one
      started is skipped. This is why the reference theorem asks for a
      non-empty replacer. */
  lemma EmptyReplacerSkips(q: Query)
    requires q == Query("a", true)
    ensures ReplaceAllRun(State(View("aa", 0, 0), -1, Cleared), q, "", true, 0).state.view.text == "a"
    ensures ReplaceEvery("aa", q, "") == ""
  {
    var s0 := State(View("aa", 0, 0), -1, Cleared);
    EmptyFirstFind(s0, q);
    var s1 := FindForward(s0, q);
    EmptySecondFind(s1, q);
    var s2 := FindForward(Replaced(s1, ""), q);
    assert !SelectionMatches(s2.view, q);
    assert ForwardLoop(s1, q, "") == s2;
    EmptyReferenceRemovesBoth(q);
  }

  lemma EmptyReferenceRemovesBoth(q: Query)
    requires q == Query("a", true)
    ensures ReplaceEvery("aa", q, "") == ""
  {
    assert OccursAt("aa", "a", 0) by { SameFromIff("aa", "a", 0, 0); assert "aa"[0..1] == "a"; }
    assert OccursAt("aa", "a", 1) by { SameFromIff("aa", "a", 1, 0); assert "aa"[1..2] == "a"; }
    assert ReplaceFrom("aa", "aa", "a", "", 1) == "";
  }

  // ---------------------------------------------------------------------
  // The class
  // ---------------------------------------------------------------------

  /** The replace engine with the pane and status bar it works on and the
      application's properties. The dialog's fields (pattern, replacement,
      case, direction) reach it as method parameters. */
  class Replacer {
    const pane: Pane
    const status: StatusBar
    const props: Proper.Properties
    var pattern: string
    var replacer: string
    var caseSensitive: bool
    var findDown: bool
    var position: int

    function CurrentQuery(): Query
      reads this
    {
      Query(pattern, caseSensitive)
    }

    /** What a find reads and writes. */
    function Snapshot(): State
      reads this, pane, status
    {
      State(pane.Snapshot(), position, status.message)
    }

    ghost predicate Valid()
      reads this, pane
    {
      pane.Valid()
    }

    /** Replacer(pane, frame, laf): pattern, replacer and case are read from
        the properties Pattern, Replacer and CaseSensitive. */
    constructor (pane: Pane, status: StatusBar, props: Proper.Properties)
      ensures this.pane == pane && this.status == status && this.props == props
      ensures pattern == props.GetProperty("Pattern", "")
      ensures replacer == props.GetProperty("Replacer", "")
      ensures caseSensitive == Proper.IsTrue(props.GetProperty("CaseSensitive", "FALSE"))
      ensures findDown && position == -1
    {
      this.pane := pane;
      this.status := status;
      this.props := props;
      pattern := props.GetProperty("Pattern", "");
      replacer := props.GetProperty("Replacer", "");
      caseSensitive := EqualsIgnoreCase(props.GetProperty("CaseSensitive", "FALSE"), "TRUE");
      findDown := true;
      position := -1;
    }

    method ResetPosition()
      modifies this
      ensures position == -1
      ensures pattern == old(pattern) && replacer == old(replacer)
      ensures caseSensitive == old(caseSensitive) && findDown == old(findDown)
    {
      position := -1;
    }

    /** showResult(i): select the match at i, or post the not-found notice. */
    method ShowResult(i: int)
      requires Valid()
      modifies this, pane, status
      ensures Valid() && CurrentQuery() == old(CurrentQuery())
      ensures replacer == old(replacer) && findDown == old(findDown)
      ensures Snapshot() ==
        Apply(old(Snapshot()), CurrentQuery(), if i >= 0 then Found(i) else NotFound, old(position))
    {
      if i >= 0 {
        position := i;
        status.ShowMessage(Cleared);
        pane.Select(position, position + |pattern|);
      } else {
        status.ShowMessage(UnableToFind(pattern));
      }
    }

    /** findForward: getContent and getPattern fold case, the guard is on the
        trimmed folded pattern, the search resumes as ForwardResume says. */
    method FindForward()
      requires Valid()
      modifies this, pane, status
      ensures Valid() && CurrentQuery() == old(CurrentQuery())
      ensures replacer == old(replacer) && findDown == old(findDown)
      ensures Snapshot() == Search.FindForward(old(Snapshot()), CurrentQuery())
    {
      ghost var s, q := Snapshot(), CurrentQuery();
      var content := Fold(pane.text, caseSensitive);
      var p := Fold(pattern, caseSensitive);
      TrimGuard(q);
      if |Trim(p)| > 0 {
        var caretPos := pane.mark;
        if position == caretPos {
          position := position + 1;
        } else {
          position := caretPos;
        }
        var i := IndexOf(content, p, position);
        assert ForwardOutcome(s, q) == if i >= 0 then Found(i) else NotFound;
        ShowResult(i);
      }
    }

    /** findBack; `thrown` reports the StringIndexOutOfBoundsException of
        `content.substring(0, -1)` when the dot is 0 and there is a selection. */
    method FindBack() returns (thrown: bool)
      requires Valid()
      modifies this, pane, status
      ensures Valid() && CurrentQuery() == old(CurrentQuery())
      ensures replacer == old(replacer) && findDown == old(findDown)
      ensures Snapshot() == Search.FindBack(old(Snapshot()), CurrentQuery())
      ensures thrown <==> BackOutcome(old(Snapshot()), CurrentQuery()).Thrown?
    {
      ghost var s, q := Snapshot(), CurrentQuery();
      thrown := false;
      var content := Fold(pane.text, caseSensitive);
      var p := Fold(pattern, caseSensitive);
      TrimGuard(q);
      if |Trim(p)| > 0 {
        position := pane.dot;
        if position != pane.mark {
          position := position - 1;
        }
        assert position == BackResume(s.view);
        if position < 0 {
          thrown := true;
          return;
        }
        var i := LastIndexOf(content[..position], p, position);
        assert BackOutcome(s, q) == if i >= 0 then Found(i) else NotFound;
        ShowResult(i);
      }
    }

    /** One find in the direction `down`; `thrown` only ever holds for findBack. */
    method FindInDirection(down: bool) returns (thrown: bool)
      requires Valid()
      modifies this, pane, status
      ensures Valid() && CurrentQuery() == old(CurrentQuery())
      ensures replacer == old(replacer) && findDown == old(findDown)
      ensures Snapshot() == FindIn(old(Snapshot()), CurrentQuery(), down)
      ensures thrown <==> Raises(old(Snapshot()), CurrentQuery(), down)
    {
      thrown := false;
      if down {
        FindForward();
      } else {
        thrown := FindBack();
      }
    }

    /** selectionMatchPattern. */
    method SelectionMatchPattern() returns (found: bool)
      requires Valid()
      ensures found <==> SelectionMatches(pane.Snapshot(), CurrentQuery())
    {
      var selected := pane.GetSelectedText();
      if selected.None? {
        return false;
      }
      if caseSensitive {
        found := selected.value == pattern;
      } else {
        found := EqualsIgnoreCase(selected.value, pattern);
      }
    }

    /** The dialog's find(): pattern and case come from the dialog and are
        stored as Pattern and CaseSensitive, then one find in the dialog's
        direction. */
    method Find(dialogPattern: string, dialogCase: bool, down: bool) returns (thrown: bool)
      requires Valid()
      modifies this, pane, status, props
      ensures Valid() && CurrentQuery() == Query(dialogPattern, dialogCase)
      ensures replacer == old(replacer) && findDown == down
      ensures Snapshot() == FindIn(old(Snapshot()), CurrentQuery(), down)
      ensures thrown <==> Raises(old(Snapshot()), CurrentQuery(), down)
      ensures props.store == old(props.store)["Pattern" := dialogPattern]["CaseSensitive" := Proper.FlagText(dialogCase)]
      ensures props.fileName == old(props.fileName)
    {
      pattern := dialogPattern;
      props.SetProperty("Pattern", pattern);
      caseSensitive := dialogCase;
      props.SetProperty("CaseSensitive", if caseSensitive then "TRUE" else "FALSE");
      findDown := down;
      thrown := FindInDirection(findDown);
    }

    /** The dialog's replace(). Only the case is taken from the dialog: the
        pattern is the one of the last find, and the replacement is the
        `replacer` field, which was read from the properties by the
        constructor and is what gets stored back as Replacer. The text the
        dialog shows as replacement, `dialogReplacer`, is never read. */
    method Replace(dialogReplacer: string, dialogCase: bool, down: bool) returns (thrown: bool)
      requires Valid()
      modifies this, pane, status, props
      ensures Valid() && CurrentQuery() == Query(old(pattern), dialogCase)
      ensures replacer == old(replacer)
      ensures Snapshot() == ReplaceStep(old(Snapshot()), CurrentQuery(), old(replacer), down)
      ensures thrown <==> !SelectionMatches(old(pane.Snapshot()), CurrentQuery()) &&
                          Raises(old(Snapshot()), CurrentQuery(), down)
      ensures findDown == if SelectionMatches(old(pane.Snapshot()), CurrentQuery()) then old(findDown) else down
      ensures props.store == old(props.store)["Replacer" := old(replacer)]["CaseSensitive" := Proper.FlagText(dialogCase)]
      ensures props.fileName == old(props.fileName)
    {
      thrown := false;
      props.SetProperty("Replacer", replacer);
      caseSensitive := dialogCase;
      props.SetProperty("CaseSensitive", if caseSensitive then "TRUE" else "FALSE");
      var matched := SelectionMatchPattern();
      if matched {
        var start := Min(pane.mark, pane.dot);
        pane.ReplaceSelection(replacer);
        pane.Select(start, start + |pattern|);
      } else {
        findDown := down;
        thrown := FindInDirection(findDown);
      }
    }

    /** The body of the replaceAll loop: replace the selection, then one
        find in the dialog's direction. */
    method ReplaceRound(down: bool) returns (thrown: bool)
      requires Valid()
      modifies this, pane, status
      ensures Valid() && CurrentQuery() == old(CurrentQuery())
      ensures replacer == old(replacer) && findDown == down
      ensures Snapshot() == FindIn(Replaced(old(Snapshot()), replacer), CurrentQuery(), down)
      ensures thrown <==> Raises(Replaced(old(Snapshot()), replacer), CurrentQuery(), down)
    {
      pane.ReplaceSelection(replacer);
      findDown := down;
      thrown := FindInDirection(findDown);
    }

    /** The replaceAll loop searching forward. Every round sets findDown,
        so it is true afterwards unless no round ran. */
    method LoopForward()
      requires Valid()
      modifies this, pane, status
      ensures Valid() && CurrentQuery() == old(CurrentQuery()) && replacer == old(replacer)
      ensures Snapshot() == ForwardLoop(old(Snapshot()), CurrentQuery(), replacer)
      ensures findDown == if SelectionMatches(old(pane.Snapshot()), CurrentQuery()) then true else old(findDown)
    {
      ghost var q, r, s0 := CurrentQuery(), replacer, Snapshot();
      var matched := SelectionMatchPattern();
      ghost var m0, ran := matched, false;
      while matched
        invariant Valid() && CurrentQuery() == q && replacer == r
        invariant matched <==> SelectionMatches(pane.Snapshot(), q)
        invariant ForwardLoop(Snapshot(), q, r) == ForwardLoop(s0, q, r)
        invariant findDown == if ran then true else old(findDown)
        invariant if ran then m0 else matched == m0
        decreases Measure(Snapshot())
      {
        ghost var before := Snapshot();
        var thrown := ReplaceRound(true);
        ForwardRoundShrinks(before, q, r);
        matched := SelectionMatchPattern();
        ran := true;
      }
    }

    /** One round of the backward loop, the k-th from s0, while the selection
        matches: findBack does not raise, and the round is one more of those
        from s0, all matching. */
    method BackRound(ghost s0: ValidState, ghost k: nat)
      requires Valid() && SelectionMatches(pane.Snapshot(), CurrentQuery())
      requires Snapshot() == Rounds<ValidState>(BackStep(CurrentQuery(), replacer), s0, k)
      requires HoldsUpTo<ValidState>(BackStep(CurrentQuery(), replacer), Matching(CurrentQuery()), s0, k)
      modifies this, pane, status
      ensures Valid() && CurrentQuery() == old(CurrentQuery()) && replacer == old(replacer)
      ensures Snapshot() == Rounds<ValidState>(BackStep(CurrentQuery(), replacer), s0, k + 1)
      ensures HoldsUpTo<ValidState>(BackStep(CurrentQuery(), replacer), Matching(CurrentQuery()), s0, k + 1)
      ensures !findDown
    {
      ghost var q, r, before := CurrentQuery(), replacer, Snapshot();
      var thrown := ReplaceRound(false);
      assert !thrown by {
        LoopFindBackNeverRaises(before, q, r);
      }
      BackStepIs(q, r, before);
      HoldsUpToNext<ValidState>(BackStep(q, r), Matching(q), s0, k);
    }

    /** The replaceAll loop searching backward, cut after `fuel` rounds;
        inside it findBack never raises. Every round clears findDown. */
    method LoopBackward(fuel: nat) returns (end: LoopEnd)
      requires Valid()
      modifies this, pane, status
      ensures Valid() && CurrentQuery() == old(CurrentQuery()) && replacer == old(replacer)
      ensures Run(Snapshot(), end) == BackLoop(old(Snapshot()), CurrentQuery(), replacer, fuel)
      ensures findDown ==
        if SelectionMatches(old(pane.Snapshot()), CurrentQuery()) && fuel > 0 then false else old(findDown)
    {
      ghost var q, r := CurrentQuery(), replacer;
      ghost var s0: ValidState := Snapshot();
      ghost var step, holds := BackStep(q, r), Matching(q);
      ghost var k: nat := 0;
      var n := fuel;
      var matched := SelectionMatchPattern();
      ghost var m0 := matched;
      while matched && n > 0
        invariant Valid() && CurrentQuery() == q && replacer == r
        invariant matched <==> SelectionMatches(pane.Snapshot(), q)
        invariant findDown == if k > 0 then false else old(findDown)
        invariant if k > 0 then m0 else matched == m0
        invariant k + n == fuel
        invariant Snapshot() == Rounds<ValidState>(step, s0, k)
        invariant HoldsUpTo<ValidState>(step, holds, s0, k)
        decreases n
      {
        BackRound(s0, k);
        k, n := k + 1, n - 1;
        matched := SelectionMatchPattern();
      }
      end := if matched then OutOfFuel else Finished;
      BackStepIs(q, r, Snapshot());
      WhileRuns<ValidState>(step, holds, s0, fuel, k);
    }

    /** The dialog's replaceAll(), settings read as in Replace. The backward
        loop need not stop (BackReplaceAllDiverges), so it is cut after `fuel`
        rounds; the forward loop always stops and ignores `fuel`. */
    method ReplaceAll(dialogReplacer: string, dialogCase: bool, down: bool, fuel: nat) returns (end: LoopEnd)
      requires Valid()
      modifies this, pane, status, props
      ensures Valid() && CurrentQuery() == Query(old(pattern), dialogCase)
      ensures replacer == old(replacer)
      ensures Run(Snapshot(), end) == ReplaceAllRun(old(Snapshot()), CurrentQuery(), old(replacer), down, fuel)
      ensures findDown ==
        if SelectionMatches(old(pane.Snapshot()), CurrentQuery()) && !down && fuel == 0 then old(findDown) else down
      ensures props.store == old(props.store)["Replacer" := old(replacer)]["CaseSensitive" := Proper.FlagText(dialogCase)]
      ensures props.fileName == old(props.fileName)
    {
      props.SetProperty("Replacer", replacer);
      caseSensitive := dialogCase;
      props.SetProperty("CaseSensitive", if caseSensitive then "TRUE" else "FALSE");
      var matched := SelectionMatchPattern();
      if !matched {
        findDown := down;
        var thrown := FindInDirection(findDown);
        if thrown {
          return Raised;
        }
      }
      if down {
        LoopForward();
        end := Finished;
      } else {
        end := LoopBackward(fuel);
      }
    }
  }
}
