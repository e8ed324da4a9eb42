/**
 * The line editor behind the `ralph prd` request prompt: a buffer of
 * characters (code points, not bytes) with a cursor, edited by the events of
 * the key decoder, and finished by `Submit`, which refuses an empty line.
 *
 * `Line` and `Apply` are the specification; `Editor` is the object the prompt
 * mutates, one method per event, each proved to agree with `Apply`.
 */
module LineEditor {
  import opened Wrappers
  import opened EditEvents

  /** A line being edited: its characters and a cursor between them
      (0 is before the first character, |buf| after the last). */
  datatype Line = Line(buf: seq<char>, cursor: nat)

  predicate CursorInLine(l: Line)
  {
    l.cursor <= |l.buf|
  }

  /** The text to the left and to the right of the cursor. */
  function Left(l: Line): seq<char>
    requires CursorInLine(l)
  {
    l.buf[..l.cursor]
  }

  function Right(l: Line): seq<char>
    requires CursorInLine(l)
  {
    l.buf[l.cursor..]
  }

  /** The effect of one event on the line. `Submit` leaves the line as it is:
      finishing the line is `Run`'s business. */
  function Apply(l: Line, e: EditEvent): (r: Line)
    requires CursorInLine(l)
    ensures CursorInLine(r)
    ensures e.Insert? ==> Left(r) == Left(l) + [e.c] && Right(r) == Right(l)
    ensures e.Backspace? && l.cursor > 0 ==>
      Left(r) == Left(l)[..l.cursor - 1] && Right(r) == Right(l)
    ensures e.MoveLeft? && l.cursor > 0 ==>
      Left(r) == Left(l)[..l.cursor - 1] && Right(r) == [l.buf[l.cursor - 1]] + Right(l)
    ensures e.DeleteForward? && l.cursor < |l.buf| ==>
      Left(r) == Left(l) && Right(r) == Right(l)[1..]
    ensures (e.Backspace? || e.MoveLeft?) && l.cursor == 0 ==> r == l
    ensures e.DeleteForward? && l.cursor == |l.buf| ==> r == l
    ensures e.Submit? ==> r == l
  {
    match e
    case Insert(c) => Line(l.buf[..l.cursor] + [c] + l.buf[l.cursor..], l.cursor + 1)
    case Backspace =>
      if l.cursor == 0 then l
      else Line(l.buf[..l.cursor - 1] + l.buf[l.cursor..], l.cursor - 1)
    case MoveLeft => if l.cursor == 0 then l else Line(l.buf, l.cursor - 1)
    case DeleteForward =>
      if l.cursor == |l.buf| then l
      else Line(l.buf[..l.cursor] + l.buf[l.cursor + 1..], l.cursor)
    case Submit => l
  }

  /** The line after every event of `evs`, in order. */
  function ApplyAll(l: Line, evs: seq<EditEvent>): (r: Line)
    requires CursorInLine(l)
    ensures CursorInLine(r)
    decreases |evs|
  {
    if evs == [] then l else ApplyAll(Apply(l, evs[0]), evs[1..])
  }

  lemma {:induction false} ApplyAllAppend(l: Line, a: seq<EditEvent>, b: seq<EditEvent>)
    requires CursorInLine(l)
    ensures ApplyAll(l, a + b) == ApplyAll(ApplyAll(l, a), b)
    decreases |a|
  {
    if a == [] {
      assert a + b == b;
    } else {
      assert (a + b)[0] == a[0] && (a + b)[1..] == a[1..] + b;
      ApplyAllAppend(Apply(l, a[0]), a[1..], b);
    }
  }

  /** Typing characters puts them at the cursor, in order, and leaves the cursor
      just after them; typed into an empty line, the line is exactly the text. */
  lemma {:induction false} TypingInsertsText(l: Line, s: string)
    requires CursorInLine(l)
    ensures ApplyAll(l, Inserts(s)) == Line(Left(l) + s + Right(l), l.cursor + |s|)
    decreases |s|
  {
    if s == [] {
      assert Left(l) + s + Right(l) == l.buf;
    } else {
      var l' := Apply(l, Insert(s[0]));
      ApplyAllCons(l, Insert(s[0]), Inserts(s[1..]));
      TypingInsertsText(l', s[1..]);
      assert Left(l) + [s[0]] + s[1..] + Right(l) == Left(l) + s + Right(l);
      assert l'.cursor + |s[1..]| == l.cursor + |s|;
    }
  }

  lemma ApplyAllCons(l: Line, e: EditEvent, evs: seq<EditEvent>)
    requires CursorInLine(l)
    ensures ApplyAll(l, [e] + evs) == ApplyAll(Apply(l, e), evs)
  {
    assert ([e] + evs)[1..] == evs;
  }

  /** `k` presses of the left arrow move the cursor `k` characters to the left,
      whatever the width of those characters in bytes, and change no text. */
  lemma {:induction false} MoveLeftRepeatedly(l: Line, k: nat)
    requires CursorInLine(l) && k <= l.cursor
    ensures ApplyAll(l, seq(k, _ => MoveLeft)) == Line(l.buf, l.cursor - k)
    decreases k
  {
    if k > 0 {
      var evs := seq(k, _ => MoveLeft);
      assert evs[0] == MoveLeft && evs[1..] == seq(k - 1, _ => MoveLeft);
      assert ApplyAll(l, evs) == ApplyAll(Line(l.buf, l.cursor - 1), evs[1..]);
      MoveLeftRepeatedly(Line(l.buf, l.cursor - 1), k - 1);
    }
  }

  /** Backspace with the cursor at the end of the line removes exactly the last
      character. */
  lemma BackspaceAtEndDropsLast(l: Line)
    requires CursorInLine(l) && 0 < l.cursor == |l.buf|
    ensures Apply(l, Backspace) == Line(l.buf[..|l.buf| - 1], |l.buf| - 1)
  {
    assert l.buf[l.cursor..] == [];
  }

  /** Forward delete removes the character under the cursor and leaves the
      cursor where it was, so the next character typed takes the deleted
      one's place. */
  lemma DeleteThenTypeReplaces(l: Line, c: char)
    requires CursorInLine(l) && l.cursor < |l.buf|
    ensures Apply(l, DeleteForward).cursor == l.cursor
    ensures ApplyAll(l, [DeleteForward, Insert(c)])
         == Line(l.buf[..l.cursor] + [c] + l.buf[l.cursor + 1..], l.cursor + 1)
  {
    var d := Apply(l, DeleteForward);
    assert d.buf[..d.cursor] == l.buf[..l.cursor];
    assert d.buf[d.cursor..] == l.buf[l.cursor + 1..];
    assert [DeleteForward, Insert(c)][1..] == [Insert(c)];
    assert ApplyAll(l, [DeleteForward, Insert(c)]) == ApplyAll(d, [Insert(c)]);
  }

  /** What submitting a line yields: its text, or `EmptyInput` for an empty line. */
  datatype LineResult = Submitted(text: string) | EmptyInput

  function Finish(buf: seq<char>): (r: LineResult)
    ensures r == EmptyInput <==> buf == []
    ensures r.Submitted? ==> r.text == buf
  {
    if buf == [] then EmptyInput else Submitted(buf)
  }

  /** Reading a line from a stream of events: either still editing, or finished
      by the first `Submit`. */
  datatype Progress = Editing(line: Line) | Done(result: LineResult)

  function Run(l: Line, evs: seq<EditEvent>): (r: Progress)
    requires CursorInLine(l)
    ensures r.Done? <==> Submit in evs
    ensures r.Editing? ==> CursorInLine(r.line)
    decreases |evs|
  {
    if evs == [] then Editing(l)
    else
      assert evs == [evs[0]] + evs[1..];
      if evs[0].Submit? then Done(Finish(l.buf))
      else Run(Apply(l, evs[0]), evs[1..])
  }

  /** Events without a `Submit` only edit the line. */
  lemma {:induction false} RunWithoutSubmit(l: Line, evs: seq<EditEvent>)
    requires CursorInLine(l)
    requires forall i :: 0 <= i < |evs| ==> !evs[i].Submit?
    ensures Run(l, evs) == Editing(ApplyAll(l, evs))
    decreases |evs|
  {
    if evs != [] {
      RunWithoutSubmit(Apply(l, evs[0]), evs[1..]);
    }
  }

  /** The first `Submit` finishes the line as edited by the events before it;
      whatever follows it is not part of this line. */
  lemma {:induction false} RunUntilSubmit(l: Line, before: seq<EditEvent>, after: seq<EditEvent>)
    requires CursorInLine(l)
    requires forall i :: 0 <= i < |before| ==> !before[i].Submit?
    ensures Run(l, before + [Submit] + after) == Done(Finish(ApplyAll(l, before).buf))
    decreases |before|
  {
    var evs := before + [Submit] + after;
    if before == [] {
      assert evs[0] == Submit;
    } else {
      assert evs[0] == before[0] && evs[1..] == before[1..] + [Submit] + after;
      RunUntilSubmit(Apply(l, before[0]), before[1..], after);
    }
  }

  /** Pressing Enter on an empty line yields `EmptyInput`, never a text. */
  lemma EnterOnEmptyLine(more: seq<EditEvent>)
    ensures Run(Line([], 0), [Submit] + more) == Done(EmptyInput)
  {
  }

  /**
   * The line buffer the prompt edits in place.
   */
  class Editor {
    var buf: seq<char>
    var cursor: nat

    ghost predicate Valid()
      reads this
    {
      cursor <= |buf|
    }

    function State(): (l: Line)
      reads this
    {
      Line(buf, cursor)
    }

    constructor ()
      ensures Valid() && buf == [] && cursor == 0
    {
      buf, cursor := [], 0;
    }

    method Insert(c: char)
      requires Valid()
      modifies this
      ensures Valid()
      ensures buf == old(buf[..cursor]) + [c] + old(buf[cursor..]) && cursor == old(cursor) + 1
    {
      buf := buf[..cursor] + [c] + buf[cursor..];
      cursor := cursor + 1;
    }

    method Backspace()
      requires Valid()
      modifies this
      ensures Valid()
      ensures old(cursor) == 0 ==> buf == old(buf) && cursor == 0
      ensures old(cursor) > 0 ==>
        buf == old(buf[..cursor - 1]) + old(buf[cursor..]) && cursor == old(cursor) - 1
    {
      if cursor > 0 {
        buf := buf[..cursor - 1] + buf[cursor..];
        cursor := cursor - 1;
      }
    }

    method MoveLeft()
      requires Valid()
      modifies this
      ensures Valid()
      ensures buf == old(buf)
      ensures cursor == if old(cursor) == 0 then 0 else old(cursor) - 1
    {
      if cursor > 0 {
        cursor := cursor - 1;
      }
    }

    method DeleteForward()
      requires Valid()
      modifies this
      ensures Valid()
      ensures cursor == old(cursor)
      ensures old(cursor) == old(|buf|) ==> buf == old(buf)
      ensures old(cursor) < old(|buf|) ==> buf == old(buf[..cursor]) + old(buf[cursor + 1..])
    {
      if cursor < |buf| {
        buf := buf[..cursor] + buf[cursor + 1..];
      }
    }

    /** Finishes the line: its text, or `EmptyInput` when nothing was typed. */
    method Submit() returns (r: LineResult)
      requires Valid()
      ensures r == EmptyInput <==> buf == []
      ensures r.Submitted? ==> r.text == buf
    {
      if |buf| == 0 {
        r := EmptyInput;
      } else {
        r := Submitted(buf);
      }
    }

    /** Dispatches one editing event to its method. */
    method Handle(e: EditEvent)
      requires Valid() && !e.Submit?
      modifies this
      ensures Valid() && State() == Apply(old(State()), e)
    {
      match e
      case Insert(c) => Insert(c);
      case Backspace => Backspace();
      case MoveLeft => MoveLeft();
      case DeleteForward => DeleteForward();
    }

    /** Hands events to the line until the first `Submit`, which finishes it;
        events after that `Submit` are left alone. */
    method HandleAll(evs: seq<EditEvent>) returns (r: Option<LineResult>)
      requires Valid()
      modifies this
      ensures Valid()
      ensures Run(old(State()), evs).Editing? ==> r == None && State() == Run(old(State()), evs).line
      ensures Run(old(State()), evs).Done? ==> r == Some(Run(old(State()), evs).result)
    {
      var i := 0;
      r := None;
      while i < |evs|
        invariant 0 <= i <= |evs| && Valid()
        invariant Run(old(State()), evs) == Run(State(), evs[i..])
      {
        if evs[i].Submit? {
          var result := Submit();
          r := Some(result);
          return;
        }
        assert evs[i..][1..] == evs[i + 1..];
        Handle(evs[i]);
        i := i + 1;
      }
    }
  }
}
