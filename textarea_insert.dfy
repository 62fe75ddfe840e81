/**
 * `insertTextAtCursor` of the textarea hook (src/hooks/use-textarea-insert.ts):
 * the selection is replaced by the inserted text and the caret is put just
 * after it.
 */
module TextareaInsert {

  /**
   * `value.slice(0, start) + text + value.slice(end)`. The result is
   * determined by its three parts: the text before the selection, the
   * inserted text, and the text after the selection.
   */
  function Splice(value: string, start: nat, end: nat, text: string): (r: string)
    requires start <= end <= |value|
    ensures |r| == |value| - (end - start) + |text|
    ensures r[..start] == value[..start]
    ensures r[start..start + |text|] == text
    ensures r[start + |text|..] == value[end..]
  {
    value[..start] + text + value[end..]
  }

  /** `selectionStart + text.length`: the caret index after the insertion. */
  function CaretAfter(start: nat, text: string): (idx: nat)
    ensures idx - start == |text|
  {
    start + |text|
  }

  /** The caret lies inside the new value, just after the inserted text. */
  lemma CaretAfterInsertedText(value: string, start: nat, end: nat, text: string)
    requires start <= end <= |value|
    ensures CaretAfter(start, text) <= |Splice(value, start, end, text)|
    ensures Splice(value, start, end, text)[start..CaretAfter(start, text)] == text
  {
  }

  /** An empty selection: a pure insertion that keeps every character. */
  lemma EmptySelectionInserts(value: string, start: nat, text: string)
    requires start <= |value|
    ensures Splice(value, start, start, text) == value[..start] + text + value[start..]
    ensures |Splice(value, start, start, text)| == |value| + |text|
  {
  }

  /** An empty text: the selection is deleted. */
  lemma EmptyTextDeletes(value: string, start: nat, end: nat)
    requires start <= end <= |value|
    ensures Splice(value, start, end, "") == value[..start] + value[end..]
  {
  }

  /**
   * Selecting the inserted text and inserting what it replaced gives back
   * the original value.
   */
  lemma SpliceUndo(value: string, start: nat, end: nat, text: string)
    requires start <= end <= |value|
    ensures var v := Splice(value, start, end, text);
      start <= CaretAfter(start, text) <= |v|
      && Splice(v, start, CaretAfter(start, text), value[start..end]) == value
  {
    var v := Splice(value, start, end, text);
    var w := Splice(v, start, start + |text|, value[start..end]);
    assert w == value[..start] + value[start..end] + value[end..];
    assert value == value[..start] + value[start..end] + value[end..];
  }

  /**
   * The textarea the hook's ref points at, and the calls made to the
   * hook's `setText`. The text area's value is the text the hook last set.
   */
  class TextareaHook {
    /** Whether `textRef.current?.resizableTextArea?.textArea` exists. */
    var attached: bool
    var value: string
    var selectionStart: nat
    var selectionEnd: nat
    /** Every value passed to `setText`, oldest first. */
    var setTextCalls: seq<string>

    /** The browser keeps a selection inside the value. */
    ghost predicate Valid()
      reads this
    {
      selectionStart <= selectionEnd <= |value|
    }

    constructor (attached: bool, value: string, selectionStart: nat, selectionEnd: nat)
      requires selectionStart <= selectionEnd <= |value|
      ensures Valid()
      ensures this.attached == attached && this.value == value
      ensures this.selectionStart == selectionStart && this.selectionEnd == selectionEnd
      ensures setTextCalls == []
    {
      this.attached := attached;
      this.value := value;
      this.selectionStart := selectionStart;
      this.selectionEnd := selectionEnd;
      setTextCalls := [];
    }

    /**
     * With no text area nothing happens; otherwise `setText` gets the
     * spliced value and the caret, collapsed, moves to just after the
     * inserted text.
     */
    method InsertTextAtCursor(text: string)
      requires Valid()
      modifies this
      ensures Valid()
      ensures attached == old(attached)
      ensures !old(attached) ==>
        (value == old(value) && selectionStart == old(selectionStart)
         && selectionEnd == old(selectionEnd) && setTextCalls == old(setTextCalls))
      ensures old(attached) ==>
        (value == Splice(old(value), old(selectionStart), old(selectionEnd), text)
         && selectionStart == selectionEnd == CaretAfter(old(selectionStart), text)
         && setTextCalls == old(setTextCalls) + [value])
    {
      if !attached {
        return;
      }
      var newIdx := CaretAfter(selectionStart, text);
      var newValue := Splice(value, selectionStart, selectionEnd, text);
      setTextCalls := setTextCalls + [newValue];
      value := newValue;
      selectionStart, selectionEnd := newIdx, newIdx;
    }
  }
}
