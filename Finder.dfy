/** The find engine (class Finder): a search settings pair, a remembered
    `position`, and the two finds of Search as methods on the pane. */
module Finder {
  import opened JavaLang
  import opened TextPane
  import opened Search
  import Proper

  /** The find engine with the pane and status bar it works on and the
      application's properties. The dialog's fields (pattern, case,
      direction) reach it as parameters of Find. */
  class Finder {
    const pane: Pane
    const status: StatusBar
    const props: Proper.Properties
    var pattern: string
    var caseSensitive: bool
    var findDown: bool
    var position: int

    function CurrentQuery(): Query
      reads this
    {
      Query(pattern, caseSensitive)
    }

    /** What a find reads and writes. */
    function Snapshot(): State
      reads this, pane, status
    {
      State(pane.Snapshot(), position, status.message)
    }

    ghost predicate Valid()
      reads this, pane
    {
      pane.Valid()
    }

    /** Finder(pane, frame, laf): pattern and case are read from the
        properties Pattern and CaseSensitive; no position is remembered. */
    constructor (pane: Pane, status: StatusBar, props: Proper.Properties)
      ensures this.pane == pane && this.status == status && this.props == props
      ensures pattern == props.GetProperty("Pattern", "")
      ensures caseSensitive == Proper.IsTrue(props.GetProperty("CaseSensitive", "FALSE"))
      ensures findDown && position == -1
    {
      this.pane := pane;
      this.status := status;
      this.props := props;
      pattern := props.GetProperty("Pattern", "");
      caseSensitive := EqualsIgnoreCase(props.GetProperty("CaseSensitive", "FALSE"), "TRUE");
      findDown := true;
      position := -1;
    }

    /** resetPosition: forget the last match, so that the next findForward
        resumes at the mark (ResetResumesAtMark). */
    method ResetPosition()
      modifies this
      ensures position == -1
      ensures pattern == old(pattern) && caseSensitive == old(caseSensitive) && findDown == old(findDown)
    {
      position := -1;
    }

    /** showResult(i): select the match at i and clear the status, or post
        the not-found notice. */
    method ShowResult(i: int)
      requires Valid()
      modifies this, pane, status
      ensures Valid() && CurrentQuery() == old(CurrentQuery()) && findDown == old(findDown)
      ensures Snapshot() ==
        Apply(old(Snapshot()), CurrentQuery(), if i >= 0 then Found(i) else NotFound, old(position))
    {
      if i >= 0 {
        position := i;
        status.ShowMessage(Cleared);
        pane.Select(position, position + |pattern|);
      } else {
        status.ShowMessage(UnableToFind(pattern));
      }
    }

    /** findForward: content and pattern folded as getContent and getPattern
        do, the guard on the trimmed folded pattern, `indexOf` from the
        resume index. */
    method FindForward()
      requires Valid()
      modifies this, pane, status
      ensures Valid() && CurrentQuery() == old(CurrentQuery()) && findDown == old(findDown)
      ensures Snapshot() == Search.FindForward(old(Snapshot()), CurrentQuery())
    {
      ghost var s, q := Snapshot(), CurrentQuery();
      var content := Fold(pane.text, caseSensitive);
      var p := Fold(pattern, caseSensitive);
      TrimGuard(q);
      if |Trim(p)| > 0 {
        var caretPos := pane.mark;
        if position == caretPos {
          position := position + 1;
        } else {
          position := caretPos;
        }
        var i := IndexOf(content, p, position);
        assert ForwardOutcome(s, q) == if i >= 0 then Found(i) else NotFound;
        ShowResult(i);
      }
    }

    /** findBack; `thrown` reports the StringIndexOutOfBoundsException of
        `content.substring(0, -1)`, which escapes the handler for
        BadLocationException, when the dot is 0 and there is a selection. */
    method FindBack() returns (thrown: bool)
      requires Valid()
      modifies this, pane, status
      ensures Valid() && CurrentQuery() == old(CurrentQuery()) && findDown == old(findDown)
      ensures Snapshot() == Search.FindBack(old(Snapshot()), CurrentQuery())
      ensures thrown <==> BackOutcome(old(Snapshot()), CurrentQuery()).Thrown?
    {
      ghost var s, q := Snapshot(), CurrentQuery();
      thrown := false;
      var content := Fold(pane.text, caseSensitive);
      var p := Fold(pattern, caseSensitive);
      TrimGuard(q);
      if |Trim(p)| > 0 {
        position := pane.dot;
        if position != pane.mark {
          position := position - 1;
        }
        assert position == BackResume(s.view);
        if position < 0 {
          thrown := true;
          return;
        }
        var i := LastIndexOf(content[..position], p, position);
        assert BackOutcome(s, q) == if i >= 0 then Found(i) else NotFound;
        ShowResult(i);
      }
    }

    /** The dialog's find(): pattern and case come from the dialog and are
        stored as Pattern and CaseSensitive, then one find in the dialog's
        direction. */
    method Find(dialogPattern: string, dialogCase: bool, down: bool) returns (thrown: bool)
      requires Valid()
      modifies this, pane, status, props
      ensures Valid() && CurrentQuery() == Query(dialogPattern, dialogCase) && findDown == down
      ensures Snapshot() == if down then Search.FindForward(old(Snapshot()), CurrentQuery())
                            else Search.FindBack(old(Snapshot()), CurrentQuery())
      ensures thrown <==> !down && BackOutcome(old(Snapshot()), CurrentQuery()).Thrown?
      ensures props.store == old(props.store)["Pattern" := dialogPattern]["CaseSensitive" := Proper.FlagText(dialogCase)]
      ensures props.fileName == old(props.fileName)
    {
      thrown := false;
      pattern := dialogPattern;
      props.SetProperty("Pattern", pattern);
      caseSensitive := dialogCase;
      props.SetProperty("CaseSensitive", if caseSensitive then "TRUE" else "FALSE");
      findDown := down;
      if findDown {
        FindForward();
      } else {
        thrown := FindBack();
      }
    }
  }
}
