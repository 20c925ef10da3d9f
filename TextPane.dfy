/** The parts of the Swing text pane and of the status bar that the find and
    replace engines read and write. These are stated assumptions about Swing:
    - the document text is replaced or edited only through the operations below;
    - `setText(t)` on the plain-text pane stores t with each "\r\n" and each
      lone '\r' read as '\n';
    - `select(a, b)` clamps a into [0, len] and b into [a, len], then sets
      mark = a and dot = b;
    - `getSelectedText()` is null when mark equals dot;
    - `replaceSelection(r)` leaves mark = dot = start + |r|. */
module TextPane {
  import opened JavaLang
  import Loc

  /** The document text with the caret: mark is where the selection was
      started, dot where it ends (either may be the larger). */
  datatype View = View(text: string, mark: int, dot: int)
  {
    predicate Valid()
    {
      0 <= mark <= |text| && 0 <= dot <= |text|
    }

    function SelectionStart(): int { Min(mark, dot) }

    function SelectionEnd(): int { Max(mark, dot) }
  }

  /** The document text that `setText(t)` stores through the plain-text
      editor kit: each "\r\n" and each lone '\r' becomes one '\n'. */
  function NormalizeBreaks(t: string): (r: string)
    ensures '\r' !in r && |r| <= |t|
    ensures '\r' !in t ==> r == t
    decreases |t|
  {
    if |t| == 0 then ""
    else if t[0] == '\r' then
      "\n" + NormalizeBreaks(if |t| > 1 && t[1] == '\n' then t[2..] else t[1..])
    else [t[0]] + NormalizeBreaks(t[1..])
  }

  /** A CRLF break and a lone CR both become one LF; the text shrinks by one
      per CRLF. */
  lemma NormalizeBreaksExample()
    ensures NormalizeBreaks("a\r\nb") == "a\nb"
    ensures NormalizeBreaks("a\rb\n") == "a\nb\n"
  {
    assert "a\r\nb"[1..][2..] == "b";
    assert NormalizeBreaks("b") == "b";
    assert "a\rb\n"[1..][1..] == "b\n";
    assert NormalizeBreaks("b\n") == "b\n";
  }

  /** `JTextComponent.select(start, end)`. */
  function AfterSelect(v: View, start: int, end: int): (r: View)
    requires v.Valid()
    ensures r.Valid() && r.text == v.text && r.mark <= r.dot
    ensures 0 <= start <= end <= |v.text| ==> r.mark == start && r.dot == end
  {
    var len := |v.text|;
    var s := if start < 0 then 0 else if start > len then len else start;
    var e := if end > len then len else end;
    View(v.text, s, if e < s then s else e)
  }

  /** `JTextComponent.getSelectedText()`: None stands for null. */
  function SelectedText(v: View): (r: Option<string>)
    requires v.Valid()
    ensures r.None? <==> v.mark == v.dot
    ensures r.Some? ==> |r.value| == v.SelectionEnd() - v.SelectionStart() > 0
  {
    if v.mark == v.dot then None else Some(v.text[v.SelectionStart()..v.SelectionEnd()])
  }

  /** `JTextComponent.replaceSelection(r)`: the selected span becomes r and the
      caret, with no selection, follows the inserted text. */
  function AfterReplaceSelection(v: View, r: string): (w: View)
    requires v.Valid()
    ensures w.Valid()
    ensures |w.text| == |v.text| - (v.SelectionEnd() - v.SelectionStart()) + |r|
  {
    var s := v.SelectionStart();
    View(v.text[..s] + r + v.text[v.SelectionEnd()..], s + |r|, s + |r|)
  }

  /** The JEditorPane: its document text and its caret. */
  class Pane {
    var text: string
    var mark: int
    var dot: int

    function Snapshot(): View
      reads this
    {
      View(text, mark, dot)
    }

    ghost predicate Valid()
      reads this
    {
      Snapshot().Valid()
    }

    constructor ()
      ensures Valid() && Snapshot() == View("", 0, 0)
    {
      text, mark, dot := "", 0, 0;
    }

    /** `setText(t)` followed by `setCaretPosition(0)`: the document holds t
        with its line breaks read as '\n'. */
    method SetText(t: string)
      modifies this
      ensures Valid() && Snapshot() == View(NormalizeBreaks(t), 0, 0)
    {
      text, mark, dot := NormalizeBreaks(t), 0, 0;
    }

    method Select(start: int, end: int)
      requires Valid()
      modifies this
      ensures Valid() && Snapshot() == AfterSelect(old(Snapshot()), start, end)
    {
      var v := AfterSelect(Snapshot(), start, end);
      mark, dot := v.mark, v.dot;
    }

    method ReplaceSelection(r: string)
      requires Valid()
      modifies this
      ensures Valid() && Snapshot() == AfterReplaceSelection(old(Snapshot()), r)
    {
      var s, e := Min(mark, dot), Max(mark, dot);
      text := text[..s] + r + text[e..];
      mark, dot := s + |r|, s + |r|;
    }

    /** A document change that the editor's listeners observe (typing, an
        undo or a redo): the text becomes t. Where Swing moves the caret is
        not modelled beyond keeping it within the new text. */
    method Change(t: string)
      requires Valid()
      modifies this
      ensures Valid() && text == t
      ensures mark == Min(old(mark), |t|) && dot == Min(old(dot), |t|)
    {
      text, mark, dot := t, Min(mark, |t|), Min(dot, |t|);
    }

    function GetSelectedText(): Option<string>
      reads this
      requires Valid()
    {
      SelectedText(Snapshot())
    }
  }

  /** What the status bar shows: nothing, or the not-found notice for a pattern. */
  datatype Message = Cleared | UnableToFind(pattern: string)
  {
    /** The text shown: "" or `Loc.get("unable_to_find") + " \"" + pattern + "\""`. */
    function Text(bundle: Loc.Bundle): string
    {
      match this
      case Cleared => ""
      case UnableToFind(p) => Loc.Get(bundle, "unable_to_find") + " \"" + p + "\""
    }
  }

  /** The application's status bar; the timer that clears it is not modelled. */
  class StatusBar {
    var message: Message

    constructor ()
      ensures message == Cleared
    {
      message := Cleared;
    }

    method ShowMessage(m: Message)
      modifies this
      ensures message == m
    {
      message := m;
    }
  }
}
