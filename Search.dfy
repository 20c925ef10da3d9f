/** The find rules that Finder and Replacer both follow (each class holds its
    own copy of findForward, findBack, getPattern, getContent and showResult,
    with its own `position`). They are stated here once, on values; the two
    classes' methods are proved against them. */
module Search {
  import opened JavaLang
  import opened TextPane

  /** What one find reads and writes: the pane's text and caret, the engine's
      `position` and the status bar. */
  datatype State = State(view: View, position: int, message: Message)
  {
    predicate Valid() { view.Valid() }
  }

  /** The engine's stored search settings. */
  datatype Query = Query(pattern: string, caseSensitive: bool)

  /** getContent / getPattern: the text upper-cased when the search ignores case. */
  function Fold(s: string, caseSensitive: bool): (r: string)
    ensures |r| == |s|
  {
    if caseSensitive then s else ToUpperCase(s)
  }

  /** The guard of both finds: the folded pattern has a character above ' '.
      TrimGuard shows it is `getPattern().trim().length() > 0`. */
  predicate Enabled(q: Query)
  {
    !Blank(Fold(q.pattern, q.caseSensitive))
  }

  /** The guard as the source writes it. */
  lemma TrimGuard(q: Query)
    ensures |Trim(Fold(q.pattern, q.caseSensitive))| > 0 <==> Enabled(q)
  {
    TrimEmptyIffBlank(Fold(q.pattern, q.caseSensitive));
  }

  /** The folded pattern occurs in the folded text t at k. */
  predicate MatchIn(t: string, q: Query, k: int)
  {
    OccursAt(Fold(t, q.caseSensitive), Fold(q.pattern, q.caseSensitive), k)
  }

  /** The folded pattern occurs in the pane's folded text at k. */
  predicate MatchAt(v: View, q: Query, k: int)
  {
    MatchIn(v.text, q, k)
  }

  /** findForward's resume index: one past the last match when the caret's
      mark is still there, otherwise the mark. */
  function ForwardResume(position: int, mark: int): int
  {
    if position == mark then position + 1 else mark
  }

  /** findBack's resume index: the dot, minus one when there is a selection. */
  function BackResume(v: View): int
  {
    if v.dot != v.mark then v.dot - 1 else v.dot
  }

  /** What one find does: nothing (blank pattern), a match, no match, or the
      StringIndexOutOfBoundsException of `substring(0, -1)`, which the
      `BadLocationException` handler does not catch. */
  datatype Outcome = Skipped | Found(at: nat) | NotFound | Thrown

  lemma EnabledPatternNotEmpty(q: Query)
    requires Enabled(q)
    ensures |q.pattern| > 0
  {
  }

  /** The outcome of findForward, searched with `indexOf` from the resume
      index; ForwardOutcomeSpec says what it finds. */
  function ForwardOutcome(s: State, q: Query): (o: Outcome)
    requires s.Valid()
    ensures o.Skipped? <==> !Enabled(q)
    ensures !o.Thrown?
  {
    if !Enabled(q) then Skipped
    else
      var resume := ForwardResume(s.position, s.view.mark);
      var i := IndexOf(Fold(s.view.text, q.caseSensitive), Fold(q.pattern, q.caseSensitive), resume);
      if i >= 0 then Found(i) else NotFound
  }

  /** findForward finds the least match at or after the resume index, and
      reports no match only when there is none from there on. */
  lemma ForwardOutcomeSpec(s: State, q: Query)
    requires s.Valid()
    ensures var o, resume := ForwardOutcome(s, q), ForwardResume(s.position, s.view.mark);
      o.Found? ==>
        resume <= o.at && MatchAt(s.view, q, o.at) &&
        forall k :: resume <= k < o.at ==> !MatchAt(s.view, q, k)
    ensures ForwardOutcome(s, q).NotFound? ==>
      forall k :: ForwardResume(s.position, s.view.mark) <= k ==> !MatchAt(s.view, q, k)
  {
    if Enabled(q) {
      IndexOfSpec(Fold(s.view.text, q.caseSensitive), Fold(q.pattern, q.caseSensitive),
                  ForwardResume(s.position, s.view.mark));
    }
  }

  /** The outcome of findBack, searched with `lastIndexOf` in
      `content.substring(0, resume)`; BackOutcomeSpec says what it finds. */
  function BackOutcome(s: State, q: Query): (o: Outcome)
    requires s.Valid()
    ensures o.Skipped? <==> !Enabled(q)
    ensures o.Thrown? <==> Enabled(q) && BackResume(s.view) < 0
  {
    if !Enabled(q) then Skipped
    else
      var resume := BackResume(s.view);
      if resume < 0 then Thrown
      else
        var content := Fold(s.view.text, q.caseSensitive);
        var pattern := Fold(q.pattern, q.caseSensitive);
        var i := LastIndexOf(content[..resume], pattern, resume);
        if i >= 0 then Found(i) else NotFound
  }

  /** findBack finds the greatest match that ends at or before the resume
      index, and reports no match only when no match ends there or earlier. */
  lemma BackOutcomeSpec(s: State, q: Query)
    requires s.Valid()
    ensures var o, resume := BackOutcome(s, q), BackResume(s.view);
      o.Found? ==>
        o.at + |q.pattern| <= resume && MatchAt(s.view, q, o.at) &&
        forall k :: o.at < k && k + |q.pattern| <= resume ==> !MatchAt(s.view, q, k)
    ensures BackOutcome(s, q).NotFound? ==>
      forall k :: k + |q.pattern| <= BackResume(s.view) ==> !MatchAt(s.view, q, k)
  {
    var resume := BackResume(s.view);
    if Enabled(q) && resume >= 0 {
      var content := Fold(s.view.text, q.caseSensitive);
      var pattern := Fold(q.pattern, q.caseSensitive);
      LastIndexOfSpec(content[..resume], pattern, resume);
      PrefixOccurrences(content, pattern, resume);
    }
  }

  /** showResult, with the position update that precedes it: a match selects
      `[i, i + |pattern|)` of the unfolded pattern's length and clears the
      status; no match posts the not-found notice; the exception leaves
      everything but `position` as it was. */
  function Apply(s: State, q: Query, o: Outcome, resume: int): (r: State)
    requires s.Valid()
  {
    match o
    case Skipped => s
    case Found(i) => State(AfterSelect(s.view, i, i + |q.pattern|), i, Cleared)
    case NotFound => State(s.view, resume, UnableToFind(q.pattern))
    case Thrown => State(s.view, resume, s.message)
  }

  /** The whole of findForward. */
  function FindForward(s: State, q: Query): (r: State)
    requires s.Valid()
    ensures r.Valid()
  {
    Apply(s, q, ForwardOutcome(s, q), ForwardResume(s.position, s.view.mark))
  }

  /** The whole of findBack. */
  function FindBack(s: State, q: Query): (r: State)
    requires s.Valid()
    ensures r.Valid()
  {
    Apply(s, q, BackOutcome(s, q), BackResume(s.view))
  }

  // ---------------------------------------------------------------------
  // Properties of the find rules
  // ---------------------------------------------------------------------

  /** A blank pattern disables both finds: nothing at all changes. */
  lemma BlankPatternDoesNothing(s: State, q: Query)
    requires s.Valid()
    requires Blank(q.pattern)
    ensures FindForward(s, q) == s && FindBack(s, q) == s
  {
    EnabledIffNotBlank(q);
  }

  /** A find is enabled exactly when the pattern itself, before folding, has
      a character above ' '. */
  lemma EnabledIffNotBlank(q: Query)
    ensures Enabled(q) <==> !Blank(q.pattern)
  {
    if !q.caseSensitive {
      UpperCaseKeepsBlank(q.pattern);
    }
  }

  /** The folded pattern has the pattern's length, so a match of the folded
      strings is selected exactly: mark at its start, dot at its end. */
  lemma MatchSelectsExactly(v: View, q: Query, i: int)
    requires v.Valid() && MatchAt(v, q, i)
    ensures AfterSelect(v, i, i + |q.pattern|) == View(v.text, i, i + |q.pattern|)
  {
  }

  /** A successful findForward: the least match at or after the resume
      index is selected, `position` is its start and the status is cleared. */
  lemma ForwardFoundSelects(s: State, q: Query)
    requires s.Valid()
    requires ForwardOutcome(s, q).Found?
    ensures var i := ForwardOutcome(s, q).at;
      FindForward(s, q) == State(View(s.view.text, i, i + |q.pattern|), i, Cleared)
  {
    ForwardOutcomeSpec(s, q);
    MatchSelectsExactly(s.view, q, ForwardOutcome(s, q).at);
  }

  /** A failed findForward or findBack changes neither the text nor the caret;
      it posts the not-found notice and leaves the resume index in `position`. */
  lemma NotFoundKeepsCaret(s: State, q: Query)
    requires s.Valid()
    ensures ForwardOutcome(s, q).NotFound? ==>
      FindForward(s, q) == State(s.view, ForwardResume(s.position, s.view.mark), UnableToFind(q.pattern))
    ensures BackOutcome(s, q).NotFound? ==>
      FindBack(s, q) == State(s.view, BackResume(s.view), UnableToFind(q.pattern))
  {
  }

  /** After resetPosition, findForward resumes exactly at the mark: the
      same as with any remembered position other than the mark. */
  lemma ResetResumesAtMark(v: View, p: int, m: Message, q: Query)
    requires v.Valid() && p != v.mark && Enabled(q)
    ensures ForwardResume(-1, v.mark) == v.mark
    ensures FindForward(State(v, -1, m), q) == FindForward(State(v, p, m), q)
  {
  }

  /** Two findForward calls with no caret movement in between find strictly
      increasing match starts. */
  lemma ForwardAdvances(s: State, q: Query)
    requires s.Valid()
    requires ForwardOutcome(s, q).Found?
    requires ForwardOutcome(FindForward(s, q), q).Found?
    ensures ForwardOutcome(FindForward(s, q), q).at > ForwardOutcome(s, q).at
  {
    ForwardFoundSelects(s, q);
    ForwardOutcomeSpec(FindForward(s, q), q);
  }

  /** A successful findBack selects the greatest match that ends at or before
      the resume index. */
  lemma BackFoundSelects(s: State, q: Query)
    requires s.Valid()
    requires BackOutcome(s, q).Found?
    ensures var i := BackOutcome(s, q).at;
      FindBack(s, q) == State(View(s.view.text, i, i + |q.pattern|), i, Cleared)
  {
    BackOutcomeSpec(s, q);
    MatchSelectsExactly(s.view, q, BackOutcome(s, q).at);
  }

  /** Two findBack calls with no caret movement in between find strictly
      decreasing match starts. */
  lemma BackRetreats(s: State, q: Query)
    requires s.Valid()
    requires BackOutcome(s, q).Found?
    requires BackOutcome(FindBack(s, q), q).Found?
    ensures BackOutcome(FindBack(s, q), q).at < BackOutcome(s, q).at
  {
    BackFoundSelects(s, q);
    BackOutcomeSpec(FindBack(s, q), q);
    EnabledPatternNotEmpty(q);
  }

  /** findBack throws exactly when the dot is at 0 with a selection. */
  lemma BackThrowsIff(s: State, q: Query)
    requires s.Valid()
    ensures BackOutcome(s, q).Thrown? <==> Enabled(q) && s.view.dot == 0 && s.view.mark != 0
    ensures BackOutcome(s, q).Thrown? ==> FindBack(s, q) == State(s.view, -1, s.message)
  {
  }

  /** Case folding applies to content and pattern alike: "aBc" ignoring case
      is found in "xxABCxx" at offset 2, and the selection spans three chars. */
  lemma CaseInsensitiveExample(s: State, q: Query)
    requires s == State(View("xxABCxx", 0, 0), -1, Cleared) && q == Query("aBc", false)
    ensures FindForward(s, q) == State(View("xxABCxx", 2, 5), 2, Cleared)
  {
    ExampleFolds(s, q);
    ExampleMatches(s, q, Fold(s.view.text, false), Fold(q.pattern, false));
    ExampleOutcome(s, q);
    ForwardFoundSelects(s, q);
  }

  lemma ExampleFolds(s: State, q: Query)
    requires s == State(View("xxABCxx", 0, 0), -1, Cleared) && q == Query("aBc", false)
    ensures Fold(q.pattern, false) == "ABC" && Fold(s.view.text, false) == "XXABCXX"
    ensures Enabled(q)
  {
    var content := Fold(s.view.text, false);
    var pattern := Fold(q.pattern, false);
    assert pattern == "ABC" by {
      assert pattern[0] == UpperChar('a') == 'A';
      assert pattern[1] == 'B' && pattern[2] == 'C';
    }
    assert content == "XXABCXX" by {
      assert content[0] == UpperChar('x') == 'X';
      assert content[1] == 'X' && content[5] == 'X' && content[6] == 'X';
      assert content[2] == 'A' && content[3] == 'B' && content[4] == 'C';
    }
    assert !Blank(q.pattern) by { assert q.pattern[0] > ' '; }
    EnabledIffNotBlank(q);
  }

  lemma ExampleMatches(s: State, q: Query, content: string, pattern: string)
    requires s == State(View("xxABCxx", 0, 0), -1, Cleared) && q == Query("aBc", false)
    requires content == Fold(s.view.text, false) && pattern == Fold(q.pattern, false)
    requires pattern == "ABC" && content == "XXABCXX"
    ensures !MatchAt(s.view, q, 0) && !MatchAt(s.view, q, 1) && MatchAt(s.view, q, 2)
  {
    assert !MatchAt(s.view, q, 0) by { assert content[0..3][1] != pattern[1]; }
    assert !MatchAt(s.view, q, 1) by { assert content[1..4][0] != pattern[0]; }
    assert MatchAt(s.view, q, 2) by { assert content[2..5] == pattern; }
  }

  lemma ExampleOutcome(s: State, q: Query)
    requires s == State(View("xxABCxx", 0, 0), -1, Cleared) && q == Query("aBc", false)
    requires Enabled(q)
    requires !MatchAt(s.view, q, 0) && !MatchAt(s.view, q, 1) && MatchAt(s.view, q, 2)
    ensures ForwardOutcome(s, q) == Found(2)
  {
    var o := ForwardOutcome(s, q);
    ForwardOutcomeSpec(s, q);
    assert ForwardResume(s.position, s.view.mark) == 0;
    assert !o.NotFound?;
    assert o.at <= 2;
  }
}
