/** The event loop of get_string in snaps.py: a line editor whose state is
    the text typed so far and the blinking cursor. Waiting for events is
    replaced by a given sequence of events; drawing is left out. */
module LineEditor {

  datatype Option<T> = None | Some(value: T)

  /** The events the loop tells apart: the cursor timer, a key press with
      the text of its 'unicode' entry (None when there is none), and any
      other event, which the loop ignores. KeyDown stands for the events
      whose type is the literal 2 that get_string tests for, which is
      keydown in the pygame 1 numbering (pygame 2 numbers KEYDOWN 768). */
  datatype Event =
    | CursorTick
    | KeyDown(unicode: Option<string>)
    | OtherEvent

  /** result: the text typed so far; cursor: None or the cursor glyph. */
  datatype Editor = Editor(result: string, cursor: Option<char>)

  /** What one event leads to: the loop goes on, or Enter ended it. */
  datatype Outcome = Continue(editor: Editor) | Finished(line: string)

  const CursorChar: char := '*'
  const Enter: string := "\r"
  const Backspace: string := [8 as char]

  /** The state get_string starts in. */
  const Start: Editor := Editor([], None)

  /** The text an ordinary key adds: all of it while the line is shorter
      than maxLineLength, nothing once it is not. */
  function Typed(result: string, key: string, maxLineLength: int): (r: string)
  {
    if |result| < maxLineLength then result + key else result
  }

  /** Backspace: drop the last character, if there is one. */
  function Erased(result: string): (r: string)
  {
    if |result| > 0 then result[..|result| - 1] else result
  }

  /** One pass of the while-loop body of get_string. */
  function Step(e: Editor, ev: Event, maxLineLength: int): Outcome
  {
    match ev
    case CursorTick =>
      Continue(e.(cursor := if e.cursor.Some? then None else Some(CursorChar)))
    case OtherEvent => Continue(e)
    case KeyDown(None) => Continue(e)
    case KeyDown(Some(key)) =>
      if key == Enter then Finished(e.result)
      else if key == Backspace then Continue(e.(result := Erased(e.result)))
      else Continue(e.(result := Typed(e.result, key, maxLineLength)))
  }

  /** The line get_string returns after the events evs, from state e; None
      when no Enter comes (the source would still be waiting). */
  function Run(e: Editor, evs: seq<Event>, maxLineLength: int): Option<string>
    decreases |evs|
  {
    if evs == [] then None
    else match Step(e, evs[0], maxLineLength)
      case Finished(line) => Some(line)
      case Continue(next) => Run(next, evs[1..], maxLineLength)
  }

  // ---------------------------------------------------------------------
  // The same editor over key texts only

  /** The key texts of the key presses in evs, in order. */
  function Keys(evs: seq<Event>): seq<string>
  {
    if evs == [] then []
    else if evs[0].KeyDown? && evs[0].unicode.Some? then [evs[0].unicode.value] + Keys(evs[1..])
    else Keys(evs[1..])
  }

  /** Reference editor: reads key texts only, knows nothing of the cursor. */
  function Edit(result: string, keys: seq<string>, maxLineLength: int): Option<string>
    decreases |keys|
  {
    if keys == [] then None
    else if keys[0] == Enter then Some(result)
    else if keys[0] == Backspace then Edit(Erased(result), keys[1..], maxLineLength)
    else Edit(Typed(result, keys[0], maxLineLength), keys[1..], maxLineLength)
  }

  /** The cursor, the timer and the ignored events have no say in the line
      returned: it depends on the key texts alone. */
  lemma {:induction false} RunIsEdit(e: Editor, evs: seq<Event>, maxLineLength: int)
    ensures Run(e, evs, maxLineLength) == Edit(e.result, Keys(evs), maxLineLength)
    decreases |evs|
  {
    if evs != [] {
      var ev := evs[0];
      match Step(e, ev, maxLineLength)
      case Finished(line) =>
        assert Keys(evs) == [ev.unicode.value] + Keys(evs[1..]);
      case Continue(next) =>
        RunIsEdit(next, evs[1..], maxLineLength);
        if ev.KeyDown? && ev.unicode.Some? {
          assert Keys(evs) == [ev.unicode.value] + Keys(evs[1..]);
          assert Keys(evs)[1..] == Keys(evs[1..]);
        }
    }
  }

  const EnterKey: Event := KeyDown(Some(Enter))

  /** get_string returns exactly when an Enter arrives. */
  lemma {:induction false} RunEndsAtEnter(e: Editor, evs: seq<Event>, maxLineLength: int)
    ensures Run(e, evs, maxLineLength).Some? <==> EnterKey in evs
    decreases |evs|
  {
    if evs != [] {
      assert evs == [evs[0]] + evs[1..];
      match Step(e, evs[0], maxLineLength)
      case Finished(_) =>
      case Continue(next) =>
        RunEndsAtEnter(next, evs[1..], maxLineLength);
    }
  }

  /** Nothing after the first Enter is read: it returns the line as it
      stood when Enter came. */
  lemma {:induction false} NothingAfterEnter(e: Editor, before: seq<Event>, after: seq<Event>, maxLineLength: int)
    requires EnterKey !in before
    ensures Run(e, before + [EnterKey] + after, maxLineLength) == Run(e, before + [EnterKey], maxLineLength)
    decreases |before|
  {
    if before == [] {
      assert ([EnterKey] + after)[0] == EnterKey;
    } else {
      var ev := before[0];
      assert (before + [EnterKey] + after)[1..] == before[1..] + [EnterKey] + after;
      assert (before + [EnterKey])[1..] == before[1..] + [EnterKey];
      match Step(e, ev, maxLineLength)
      case Finished(_) =>
      case Continue(next) =>
        NothingAfterEnter(next, before[1..], after, maxLineLength);
    }
  }

  /** A tick flips the cursor between hidden and '*' and leaves the text
      alone; two ticks give back the state. */
  lemma TickFlipsCursor(e: Editor, maxLineLength: int)
    ensures Step(e, CursorTick, maxLineLength).Continue?
    ensures var next := Step(e, CursorTick, maxLineLength).editor;
      && next.result == e.result
      && (next.cursor == None <==> e.cursor != None)
      && (next.cursor != None ==> next.cursor == Some(CursorChar))
      && (e.cursor == None || e.cursor == Some(CursorChar) ==>
            Step(next, CursorTick, maxLineLength) == Continue(e))
  {
  }

  /** Backspace undoes an ordinary one-character key that was still let in. */
  lemma BackspaceUndoesKey(result: string, key: string, maxLineLength: int)
    requires |key| == 1 && key != Enter && key != Backspace
    requires |result| < maxLineLength
    ensures Erased(Typed(result, key, maxLineLength)) == result
  {
  }

  /** Backspace on an empty line changes nothing; otherwise it removes
      exactly the last character. */
  lemma BackspaceRemovesLast(result: string)
    ensures result == [] ==> Erased(result) == []
    ensures result != [] ==> Erased(result) + [result[|result| - 1]] == result
  {
  }

  /** Every key press carries at most one character. */
  predicate SingleCharKeys(evs: seq<Event>)
  {
    forall i :: 0 <= i < |evs| && evs[i].KeyDown? && evs[i].unicode.Some? ==> |evs[i].unicode.value| <= 1
  }

  /** The length bound get_string keeps with one-character keys: the text
      never grows past max_line_length (a non-positive limit keeps it
      empty). */
  predicate WithinLimit(result: string, maxLineLength: int)
  {
    |result| <= maxLineLength || result == []
  }

  lemma {:induction false} EditWithinLimit(result: string, keys: seq<string>, maxLineLength: int)
    requires WithinLimit(result, maxLineLength)
    requires forall i :: 0 <= i < |keys| ==> |keys[i]| <= 1
    ensures Edit(result, keys, maxLineLength).Some? ==> WithinLimit(Edit(result, keys, maxLineLength).value, maxLineLength)
    decreases |keys|
  {
    if keys != [] && keys[0] != Enter {
      var next := if keys[0] == Backspace then Erased(result) else Typed(result, keys[0], maxLineLength);
      assert |keys[0]| <= 1;
      EditWithinLimit(next, keys[1..], maxLineLength);
    }
  }

  /** Run keeps the length bound too: with one-character keys the line it
      returns is never longer than max_line_length. */
  lemma RunWithinLimit(evs: seq<Event>, maxLineLength: int)
    requires SingleCharKeys(evs)
    ensures Run(Start, evs, maxLineLength).Some? ==> WithinLimit(Run(Start, evs, maxLineLength).value, maxLineLength)
  {
    RunIsEdit(Start, evs, maxLineLength);
    KeysOfSingleCharKeys(evs);
    EditWithinLimit([], Keys(evs), maxLineLength);
  }

  lemma {:induction false} KeysOfSingleCharKeys(evs: seq<Event>)
    requires SingleCharKeys(evs)
    ensures forall i :: 0 <= i < |Keys(evs)| ==> |Keys(evs)[i]| <= 1
    decreases |evs|
  {
    if evs != [] {
      assert SingleCharKeys(evs[1..]) by {
        forall i | 0 <= i < |evs[1..]| && evs[1..][i].KeyDown? && evs[1..][i].unicode.Some?
          ensures |evs[1..][i].unicode.value| <= 1
        {
          assert evs[1..][i] == evs[i + 1];
        }
      }
      KeysOfSingleCharKeys(evs[1..]);
    }
  }

  /** get_string's loop over the events: returns the line at the first Enter,
      or None if the events run out first. */
  method GetString(events: seq<Event>, maxLineLength: int) returns (line: Option<string>)
    ensures line == Run(Start, events, maxLineLength)
    ensures line.Some? <==> EnterKey in events
    ensures SingleCharKeys(events) && line.Some? ==> WithinLimit(line.value, maxLineLength)
  {
    var result: string := [];
    var cursor: Option<char> := None;
    var i := 0;
    while i < |events|
      invariant 0 <= i <= |events|
      invariant Run(Start, events, maxLineLength) == Run(Editor(result, cursor), events[i..], maxLineLength)
      invariant SingleCharKeys(events) ==> WithinLimit(result, maxLineLength)
    {
      var event := events[i];
      assert events[i..][1..] == events[i + 1..];
      match event {
        case CursorTick =>
          if cursor.Some? {
            cursor := None;
          } else {
            cursor := Some(CursorChar);
          }
        case OtherEvent =>
        case KeyDown(None) =>
        case KeyDown(Some(keyCode)) =>
          if keyCode == Enter {
            RunEndsAtEnter(Start, events, maxLineLength);
            return Some(result);
          } else if keyCode == Backspace {
            if |result| > 0 {
              result := result[..|result| - 1];
            }
          } else {
            if |result| < maxLineLength {
              assert SingleCharKeys(events) ==> |events[i].unicode.value| <= 1;
              result := result + keyCode;
            }
          }
      }
      i := i + 1;
    }
    line := None;
    RunEndsAtEnter(Start, events, maxLineLength);
  }
}
