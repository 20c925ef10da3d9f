/** The text editor component (class Editor): the changed flag kept by a
    one-shot document listener, the undo history behind the Undo and Redo
    menu items, and the font settings. */
module Editor {
  import opened JavaLang
  import opened TextPane
  import Proper

  // ---------------------------------------------------------------------
  // The undo history (javax.swing.undo.UndoManager) as two stacks
  // ---------------------------------------------------------------------

  /** One undoable edit: the document text before and after it. */
  datatype Edit = Edit(before: string, after: string)

  /** The number of edits an UndoManager keeps unless told otherwise; the
      oldest are dropped beyond it. */
  const UndoLimit: nat := 100

  /** done: the edits that can be undone, the latest last; undone: the
      edits that can be redone, the next one last. */
  datatype History = History(done: seq<Edit>, undone: seq<Edit>)

  /** The document text with its history. */
  datatype Doc = Doc(text: string, history: History)

  /** `undoManager.canUndo()`. */
  predicate CanUndo(d: Doc)
  {
    |d.history.done| > 0
  }

  /** `undoManager.canRedo()`. */
  predicate CanRedo(d: Doc)
  {
    |d.history.undone| > 0
  }

  /** The history accounts for the text: the done edits chain up to it and
      the undone edits chain on from it. */
  predicate Coherent(d: Doc)
  {
    var done, undone := d.history.done, d.history.undone;
    (|done| > 0 ==> done[|done| - 1].after == d.text) &&
    (|undone| > 0 ==> undone[|undone| - 1].before == d.text) &&
    (forall i :: 0 < i < |done| ==> done[i - 1].after == done[i].before) &&
    (forall i :: 0 < i < |undone| ==> undone[i - 1].before == undone[i].after)
  }

  /** What setText leaves: the new text and a history with nothing to undo
      or redo (a new UndoManager, or the old one after discardAllEdits). */
  function Fresh(t: string): (d: Doc)
    ensures Coherent(d) && d.text == t && !CanUndo(d) && !CanRedo(d)
  {
    Doc(t, History([], []))
  }

  /** An edit that changes the text to `after`: it is recorded as the latest
      edit (the oldest dropped beyond the limit) and the redo stack is
      discarded. */
  function Edited(d: Doc, after: string): Doc
  {
    var done := d.history.done + [Edit(d.text, after)];
    Doc(after, History(if |done| > UndoLimit then done[1..] else done, []))
  }

  /** undo(): guarded by canUndo; the latest edit is reverted and becomes
      the next one to redo. */
  function Undone(d: Doc): Doc
  {
    var done, undone := d.history.done, d.history.undone;
    if |done| == 0 then d
    else Doc(done[|done| - 1].before, History(done[..|done| - 1], undone + [done[|done| - 1]]))
  }

  /** redo(): guarded by canRedo; the next undone edit is applied again and
      becomes the latest one to undo. */
  function Redone(d: Doc): Doc
  {
    var done, undone := d.history.done, d.history.undone;
    if |undone| == 0 then d
    else Doc(undone[|undone| - 1].after, History(done + [undone[|undone| - 1]], undone[..|undone| - 1]))
  }

  /** After an edit the text is the edit's result, the edit is the one to
      undo, nothing can be redone, the limit is kept and the history still
      accounts for the text. */
  lemma EditedSpec(d: Doc, after: string)
    ensures var r := Edited(d, after);
      r.text == after && CanUndo(r) && !CanRedo(r) &&
      r.history.done[|r.history.done| - 1] == Edit(d.text, after)
    ensures |d.history.done| <= UndoLimit ==> |Edited(d, after).history.done| <= UndoLimit
    ensures Coherent(d) ==> Coherent(Edited(d, after))
  {
    if Coherent(d) {
      EditedCoherent(d, after);
    }
  }

  lemma EditedCoherent(d: Doc, after: string)
    requires Coherent(d)
    ensures Coherent(Edited(d, after))
  {
    var done := d.history.done + [Edit(d.text, after)];
    assert forall i :: 0 < i < |done| ==> done[i - 1].after == done[i].before;
    if |done| > UndoLimit {
      var kept := done[1..];
      assert forall i :: 0 < i < |kept| ==> kept[i - 1] == done[i] && kept[i] == done[i + 1];
    }
  }

  /** Undo keeps the history accounting for the text, and moves an edit
      from one stack to the other. */
  lemma UndoneSpec(d: Doc)
    ensures Coherent(d) ==> Coherent(Undone(d))
    ensures CanUndo(d) ==> |Undone(d).history.done| == |d.history.done| - 1 && CanRedo(Undone(d))
    ensures !CanUndo(d) ==> Undone(d) == d
  {
  }

  /** Redo keeps the history accounting for the text, and moves an edit
      from one stack to the other. */
  lemma RedoneSpec(d: Doc)
    ensures Coherent(d) ==> Coherent(Redone(d))
    ensures CanRedo(d) ==> |Redone(d).history.undone| == |d.history.undone| - 1 && CanUndo(Redone(d))
    ensures !CanRedo(d) ==> Redone(d) == d
  {
  }

  /** Undoing an edit restores the text before it; within the limit the
      whole history returns to what it was, with the edit ready to redo. */
  lemma UndoRevertsEdit(d: Doc, after: string)
    requires Coherent(d)
    ensures Undone(Edited(d, after)).text == d.text
    ensures |d.history.done| < UndoLimit ==>
      Undone(Edited(d, after)) == Doc(d.text, History(d.history.done, [Edit(d.text, after)]))
  {
    var done := d.history.done + [Edit(d.text, after)];
    if |done| <= UndoLimit {
      assert done[..|done| - 1] == d.history.done;
    }
  }

  /** Redo after undo puts back the text and the history exactly. */
  lemma UndoRedoRoundTrip(d: Doc)
    requires Coherent(d) && CanUndo(d)
    ensures Redone(Undone(d)) == d
  {
    var done := d.history.done;
    assert done[..|done| - 1] + [done[|done| - 1]] == done;
  }

  /** Undo after redo puts back the text and the history exactly. */
  lemma RedoUndoRoundTrip(d: Doc)
    requires Coherent(d) && CanRedo(d)
    ensures Undone(Redone(d)) == d
  {
    var undone := d.history.undone;
    assert undone[..|undone| - 1] + [undone[|undone| - 1]] == undone;
  }

  /** The edits, in order, from d. */
  function EditedAll(d: Doc, texts: seq<string>): Doc
    decreases |texts|
  {
    if |texts| == 0 then d else EditedAll(Edited(d, texts[0]), texts[1..])
  }

  /** n undos in a row. */
  function UndoneTimes(d: Doc, n: nat): Doc
  {
    if n == 0 then d else Undone(UndoneTimes(d, n - 1))
  }

  /** Within the limit, undoing every edit made since d restores d's text
      and d's undo stack. */
  lemma {:induction false} UndoAllRestores(d: Doc, texts: seq<string>)
    requires |d.history.done| + |texts| <= UndoLimit
    ensures UndoneTimes(EditedAll(d, texts), |texts|).text == d.text
    ensures UndoneTimes(EditedAll(d, texts), |texts|).history.done == d.history.done
    decreases |texts|
  {
    if |texts| > 0 {
      var e, d1 := Edit(d.text, texts[0]), Edited(d, texts[0]);
      EditedWithinLimit(d, texts[0]);
      UndoAllRestores(d1, texts[1..]);
      EditedAllFirst(d, texts);
      UndoneTimesLast(EditedAll(d1, texts[1..]), |texts| - 1);
      UndoTop(UndoneTimes(EditedAll(d1, texts[1..]), |texts| - 1), d.history.done, e);
    }
  }

  /** Below the limit nothing is dropped. */
  lemma EditedWithinLimit(d: Doc, after: string)
    requires |d.history.done| < UndoLimit
    ensures Edited(d, after).history.done == d.history.done + [Edit(d.text, after)]
  {
  }

  /** The last of n + 1 undos. */
  lemma UndoneTimesLast(d: Doc, n: nat)
    ensures UndoneTimes(d, n + 1) == Undone(UndoneTimes(d, n))
  {
  }

  lemma EditedAllFirst(d: Doc, texts: seq<string>)
    requires |texts| > 0
    ensures EditedAll(d, texts) == EditedAll(Edited(d, texts[0]), texts[1..])
  {
  }

  /** Undo takes off the latest edit and returns to the text before it. */
  lemma UndoTop(y: Doc, done: seq<Edit>, e: Edit)
    requires y.history.done == done + [e]
    ensures Undone(y).text == e.before && Undone(y).history.done == done
  {
    assert y.history.done[..|done|] == done;
  }

  /** After setText every further undo or redo changes nothing until an
      edit is made. */
  lemma FreshUndoRedoIdle(t: string)
    ensures Undone(Fresh(t)) == Fresh(t) && Redone(Fresh(t)) == Fresh(t)
  {
  }

  // ---------------------------------------------------------------------
  // The changed flag and its one-shot document listener
  // ---------------------------------------------------------------------

  /** The changed flag, and whether the change listener installed by
      setText is still attached. */
  datatype Watch = Watch(changed: bool, listening: bool)

  /** What setText leaves: a fresh listener attached, then setChanged(false). */
  function Armed(): Watch
  {
    Watch(false, true)
  }

  /** One document event (insert, remove or change, whether typed, undone
      or redone): an attached listener sets the flag and detaches itself. */
  function Notified(w: Watch): (r: Watch)
    ensures r.changed <==> w.changed || w.listening
    ensures !r.listening
  {
    if w.listening then Watch(true, false) else w
  }

  /** setChanged(b): only the flag; the listener stays as it is. */
  function WithChanged(w: Watch, b: bool): (r: Watch)
    ensures r.changed == b && r.listening == w.listening
  {
    Watch(b, w.listening)
  }

  /** n document events in a row. */
  function NotifiedTimes(w: Watch, n: nat): Watch
  {
    if n == 0 then w else Notified(NotifiedTimes(w, n - 1))
  }

  /** After setText, the flag is set by the first edit and not before, and
      the listener is gone once it has fired. */
  lemma {:induction false} EditsAfterSetText(n: nat)
    ensures NotifiedTimes(Armed(), n) == Watch(n > 0, n == 0)
  {
    if n > 0 {
      EditsAfterSetText(n - 1);
    }
  }

  /** Edits never clear the flag. */
  lemma {:induction false} EditsNeverClear(w: Watch, n: nat)
    requires w.changed
    ensures NotifiedTimes(w, n).changed
  {
    if n > 0 {
      EditsNeverClear(w, n - 1);
    }
  }

  /** Once the listener is gone, edits change nothing. */
  lemma {:induction false} DetachedIgnoresEdits(w: Watch, n: nat)
    requires !w.listening
    ensures NotifiedTimes(w, n) == w
  {
    if n > 0 {
      DetachedIgnoresEdits(w, n - 1);
    }
  }

  /** setText, k edits, setChanged(false) (as a save does), then n more
      edits: the flag is set again only when the save came before any edit
      and an edit followed it. Edits after a save of an edited text leave
      the flag false until the next setText. */
  lemma EditsAfterSave(k: nat, n: nat)
    ensures NotifiedTimes(WithChanged(NotifiedTimes(Armed(), k), false), n).changed <==> k == 0 && n > 0
  {
    EditsAfterSetText(k);
    var w := WithChanged(NotifiedTimes(Armed(), k), false);
    if k == 0 {
      assert w == Armed();
      EditsAfterSetText(n);
    } else {
      DetachedIgnoresEdits(w, n);
    }
  }

  // ---------------------------------------------------------------------
  // Font size
  // ---------------------------------------------------------------------

  /** The font the pane is given: Monospaced or Serif, plain, of the size. */
  datatype Font = Font(family: string, size: Int32)

  function FontFor(mono: bool, size: Int32): Font
  {
    Font(if mono then "Monospaced" else "Serif", size)
  }

  /** changeFontSize returns at once: at or below 6 going down, or at or
      above 64 going up. */
  predicate AtLimit(size: Int32, step: Int32)
  {
    (size <= 6 && step < 0) || (size >= 64 && step > 0)
  }

  /** The size after changeFontSize(step), with Java's int addition. A unit
      step from a size within [6, 64] stays within it. */
  function StepFontSize(size: Int32, step: Int32): (r: Int32)
    ensures 6 <= size <= 64 && -1 <= step <= 1 ==> 6 <= r <= 64
    ensures AtLimit(size, step) ==> r == size
  {
    if AtLimit(size, step) then size else Wrap(size + step)
  }

  /** The size after a series of changeFontSize calls. */
  function StepsFontSize(size: Int32, steps: seq<Int32>): Int32
    decreases |steps|
  {
    if |steps| == 0 then size else StepsFontSize(StepFontSize(size, steps[0]), steps[1..])
  }

  /** Any series of unit steps from a size within [6, 64] stays within it. */
  lemma {:induction false} UnitStepsStayInRange(size: Int32, steps: seq<Int32>)
    requires 6 <= size <= 64
    requires forall i :: 0 <= i < |steps| ==> -1 <= steps[i] <= 1
    ensures 6 <= StepsFontSize(size, steps) <= 64
    decreases |steps|
  {
    if |steps| > 0 {
      UnitStepsStayInRange(StepFontSize(size, steps[0]), steps[1..]);
    }
  }

  /** A size set outside [6, 64] by setFontSize is never pushed further out
      by unit steps: it stays, or comes one nearer to the range. */
  lemma UnitStepOutsideRange(size: Int32, step: Int32)
    requires -1 <= step <= 1 && (size < 6 || size > 64)
    ensures var r := StepFontSize(size, step);
      if size < 6 then size <= r <= 6 else 64 <= r <= size
  {
  }

  // ---------------------------------------------------------------------
  // The class
  // ---------------------------------------------------------------------

  /** The editor with the pane it owns and the application's properties. */
  class Editor {
    const pane: Pane
    const props: Proper.Properties
    var history: History
    var changed: bool
    var listening: bool
    var fontSize: Int32
    var monoFont: bool
    var font: Font

    function Document(): Doc
      reads this, pane
    {
      Doc(pane.text, history)
    }

    function Flag(): Watch
      reads this
    {
      Watch(changed, listening)
    }

    ghost predicate Valid()
      reads this, pane
    {
      pane.Valid() && Coherent(Document())
    }

    /** Editor(): the size from the property FontSize (default 12), the
        family from MonoFont (default TRUE), applied by setMonoFont. No
        listener is attached before the first setText. */
    constructor (pane: Pane, props: Proper.Properties)
      requires pane.Valid()
      requires props.GetIntProperty("FontSize", 12).Some?
      modifies props
      ensures Valid() && this.pane == pane && this.props == props
      ensures fontSize == old(props.GetIntProperty("FontSize", 12)).value
      ensures monoFont == Proper.IsTrue(old(props.GetProperty("MonoFont", "TRUE")))
      ensures font == FontFor(monoFont, fontSize)
      ensures props.store == old(props.store)["MonoFont" := Proper.FlagText(monoFont)]
      ensures props.fileName == old(props.fileName)
      ensures Document() == Doc(old(pane.text), History([], [])) && Flag() == Watch(false, false)
    {
      this.pane := pane;
      this.props := props;
      history := History([], []);
      changed := false;
      listening := false;
      var size := props.GetIntProperty("FontSize", 12).value;
      var mono := EqualsIgnoreCase(props.GetProperty("MonoFont", "TRUE"), "TRUE");
      fontSize := size;
      monoFont := mono;
      font := FontFor(mono, size);
      new;
      SetMonoFont(mono);
    }

    /** setText(t): the caret goes to 0, the history is emptied, a fresh
        change listener is attached and the flag is cleared. */
    method SetText(t: string)
      requires Valid()
      modifies this, pane
      ensures Valid() && pane.Snapshot() == View(NormalizeBreaks(t), 0, 0)
      ensures Document() == Fresh(NormalizeBreaks(t)) && Flag() == Armed()
      ensures fontSize == old(fontSize) && monoFont == old(monoFont) && font == old(font)
    {
      pane.SetText(t);
      history := History([], []);
      listening := true;
      SetChanged(false);
    }

    /** The change listener's handler, run on every document event while it
        is attached: set the flag and remove itself. */
    method DocumentChanged()
      modifies this
      ensures Flag() == Notified(old(Flag())) && history == old(history)
      ensures fontSize == old(fontSize) && monoFont == old(monoFont) && font == old(font)
    {
      if listening {
        changed := true;
        listening := false;
      }
    }

    /** An edit of the document (typing, cut, paste, replace) that changes
        the text to `after`: the UndoManager records it and the change
        listener hears of it. */
    method UserEdit(after: string)
      requires Valid()
      modifies this, pane
      ensures Valid() && Document() == Edited(old(Document()), after)
      ensures Flag() == Notified(old(Flag()))
      ensures fontSize == old(fontSize) && monoFont == old(monoFont) && font == old(font)
    {
      EditedSpec(Document(), after);
      var e := Edit(pane.text, after);
      pane.Change(after);
      DocumentChanged();
      var done := history.done + [e];
      history := History(if |done| > UndoLimit then done[1..] else done, []);
    }

    method IsChanged() returns (c: bool)
      ensures c == changed
    {
      c := changed;
    }

    /** setChanged(c): the flag only; a detached listener stays detached. */
    method SetChanged(c: bool)
      modifies this
      ensures Flag() == WithChanged(old(Flag()), c) && history == old(history)
      ensures fontSize == old(fontSize) && monoFont == old(monoFont) && font == old(font)
    {
      changed := c;
    }

    /** undo(): nothing when there is nothing to undo; otherwise the latest
        edit is reverted, which the change listener hears as an edit. */
    method Undo()
      requires Valid()
      modifies this, pane
      ensures Valid() && Document() == Undone(old(Document()))
      ensures Flag() == if CanUndo(old(Document())) then Notified(old(Flag())) else old(Flag())
      ensures fontSize == old(fontSize) && monoFont == old(monoFont) && font == old(font)
    {
      UndoneSpec(Document());
      if |history.done| > 0 {
        var done := history.done;
        var e := done[|done| - 1];
        pane.Change(e.before);
        DocumentChanged();
        history := History(done[..|done| - 1], history.undone + [e]);
      }
    }

    /** redo(): nothing when there is nothing to redo; otherwise the next
        undone edit is applied again, which the change listener hears. */
    method Redo()
      requires Valid()
      modifies this, pane
      ensures Valid() && Document() == Redone(old(Document()))
      ensures Flag() == if CanRedo(old(Document())) then Notified(old(Flag())) else old(Flag())
      ensures fontSize == old(fontSize) && monoFont == old(monoFont) && font == old(font)
    {
      RedoneSpec(Document());
      if |history.undone| > 0 {
        var undone := history.undone;
        var e := undone[|undone| - 1];
        pane.Change(e.after);
        DocumentChanged();
        history := History(history.done + [e], undone[..|undone| - 1]);
      }
    }

    /** setMonoFont(mono): the family is applied at the current size and
        stored as MonoFont. */
    method SetMonoFont(mono: bool)
      modifies this, props
      ensures monoFont == mono && font == FontFor(mono, fontSize) && fontSize == old(fontSize)
      ensures props.store == old(props.store)["MonoFont" := Proper.FlagText(mono)]
      ensures props.fileName == old(props.fileName)
      ensures history == old(history) && Flag() == old(Flag())
    {
      monoFont := mono;
      font := FontFor(mono, fontSize);
      props.SetProperty("MonoFont", if mono then "TRUE" else "FALSE");
    }

    /** changeFontSize(step): nothing at a limit; otherwise the size moves by
        the step, is applied and is stored as FontSize. */
    method ChangeFontSize(step: Int32)
      modifies this, props
      ensures fontSize == StepFontSize(old(fontSize), step) && monoFont == old(monoFont)
      ensures AtLimit(old(fontSize), step) ==> font == old(font) && props.store == old(props.store)
      ensures !AtLimit(old(fontSize), step) ==>
        font == FontFor(monoFont, fontSize) &&
        props.store == old(props.store)["FontSize" := IntToString(fontSize)]
      ensures props.fileName == old(props.fileName)
      ensures history == old(history) && Flag() == old(Flag())
    {
      if fontSize <= 6 && step < 0 {
        return;
      }
      if fontSize >= 64 && step > 0 {
        return;
      }
      fontSize := Wrap(fontSize + step);
      font := FontFor(monoFont, fontSize);
      props.SetIntProperty("FontSize", fontSize);
    }

    /** setFontSize(size): any size, not clamped, applied and stored. */
    method SetFontSize(size: Int32)
      modifies this, props
      ensures fontSize == size && monoFont == old(monoFont) && font == FontFor(monoFont, size)
      ensures props.store == old(props.store)["FontSize" := IntToString(size)]
      ensures props.fileName == old(props.fileName)
      ensures history == old(history) && Flag() == old(Flag())
    {
      fontSize := size;
      font := FontFor(monoFont, fontSize);
      props.SetIntProperty("FontSize", fontSize);
    }
  }
}
