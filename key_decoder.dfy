/**
 * The raw key decoder of the `ralph prd` prompt: it turns the bytes a terminal
 * in raw mode delivers into edit events. Multi-byte UTF-8 characters are
 * reassembled into one `Insert`; DEL and BS are `Backspace`; `ESC [ D` is
 * `MoveLeft`; `ESC [ 3 ~` is `DeleteForward`; CR and LF are `Submit`. Every
 * other escape sequence is dropped whole without an event: a control sequence
 * `ESC [ params final`, an application-mode key `ESC O params final`, and `ESC`
 * followed by one printable character. An `ESC` followed by a control byte or
 * a non-ASCII byte is dropped on its own, and that byte is decoded afresh.
 * Other control bytes and malformed UTF-8 units are dropped too. A character
 * or escape sequence cut off by the end of the bytes received so far stays
 * pending until more bytes arrive.
 */
module KeyDecoder {
  import opened Wrappers
  import opened Utf8
  import opened EditEvents
  import opened Sequences

  const Esc: Byte := 0x1B
  const OpenBracket: Byte := 0x5B
  const Ss3: Byte := 0x4F

  /** What the front of a byte stream holds: a complete unit of `size` bytes
      (which yields an event or nothing), or the start of a unit that needs
      more bytes. */
  datatype Lexeme = Complete(event: Option<EditEvent>, size: nat) | Incomplete

  predicate IsPrintableAscii(b: Byte)
  {
    0x20 <= b <= 0x7E
  }

  /** Characters that reach the buffer when typed: printable ASCII and every
      character outside ASCII. */
  predicate Typeable(c: char)
  {
    0x20 <= c as int < 0x7F || c as int >= 0x80
  }

  /** First position from `j` on whose byte is not a parameter or intermediate
      byte of a control sequence (0x20 to 0x3F), or |bs| if there is none. */
  function CsiEnd(bs: seq<Byte>, j: nat): (k: nat)
    requires j <= |bs|
    ensures j <= k <= |bs|
    ensures k < |bs| ==> !(0x20 <= bs[k] <= 0x3F)
    decreases |bs| - j
  {
    if j == |bs| || !(0x20 <= bs[j] <= 0x3F) then j else CsiEnd(bs, j + 1)
  }

  /** The edit event a complete control sequence `ESC [ params final` stands for. */
  function ControlSequence(params: seq<Byte>, final: Byte): Option<EditEvent>
  {
    if params == [] && final == 0x44 then Some(MoveLeft)
    else if params == [0x33] && final == 0x7E then Some(DeleteForward)
    else None
  }

  /** First position from `i` on (below `n`) whose byte does not fit the UTF-8
      sequence that `bs[0]` leads, or `n`, or |bs| if the bytes run out first. */
  function FittingRun(bs: seq<Byte>, n: nat, i: nat): (k: nat)
    requires 1 <= i <= n && i <= |bs|
    ensures i <= k <= n && k <= |bs|
    ensures forall j :: i <= j < k ==> FitsAt(bs[0], j, bs[j])
    ensures k < n && k < |bs| ==> !FitsAt(bs[0], k, bs[k])
    decreases n - i
  {
    if i == n || i == |bs| || !FitsAt(bs[0], i, bs[i]) then i else FittingRun(bs, n, i + 1)
  }

  /** The unit at the front of `bs`. */
  function NextLexeme(bs: seq<Byte>): (r: Lexeme)
    requires |bs| > 0
    ensures r.Complete? ==> 1 <= r.size <= |bs|
  {
    var b := bs[0];
    if b == 0x0D || b == 0x0A then Complete(Some(Submit), 1)
    else if b == 0x7F || b == 0x08 then Complete(Some(Backspace), 1)
    else if b == Esc then
      if |bs| == 1 then Incomplete
      else if bs[1] == Ss3 then
        var k := CsiEnd(bs, 2);
        if k == |bs| then Incomplete
        else if 0x40 <= bs[k] <= 0x7E then Complete(None, k + 1)
        else Complete(None, k)
      else if bs[1] != OpenBracket then
        if IsPrintableAscii(bs[1]) then Complete(None, 2) else Complete(None, 1)
      else
        var k := CsiEnd(bs, 2);
        if k == |bs| then Incomplete
        else if 0x40 <= bs[k] <= 0x7E then Complete(ControlSequence(bs[2..k], bs[k]), k + 1)
        else Complete(None, k)
    else if IsPrintableAscii(b) then Complete(Some(Insert(b as char)), 1)
    else if SequenceLength(b) >= 2 then
      var n := SequenceLength(b);
      var k := FittingRun(bs, n, 1);
      if k == n then Complete(Some(Insert(Value(bs[..n]) as char)), n)
      else if k == |bs| then Incomplete
      else Complete(None, 1)
    else Complete(None, 1)
  }

  function Emit(e: Option<EditEvent>): seq<EditEvent>
  {
    if e.Some? then [e.value] else []
  }

  /** The events of all complete units of `bs`, in order; every unit takes at
      least one byte and yields at most one event. */
  function Decode(bs: seq<Byte>): (r: seq<EditEvent>)
    ensures |r| <= |bs|
    decreases |bs|
  {
    if bs == [] then []
    else match NextLexeme(bs)
      case Incomplete => []
      case Complete(e, n) => Emit(e) + Decode(bs[n..])
  }

  /** The trailing bytes of `bs` that do not yet form a complete unit: a suffix
      of `bs` that is empty or the cut-off start of a unit (`PendingIsCutOffTail`). */
  function Pending(bs: seq<Byte>): (r: seq<Byte>)
    ensures |r| <= |bs|
    decreases |bs|
  {
    if bs == [] then []
    else match NextLexeme(bs)
      case Incomplete => bs
      case Complete(_, n) => Pending(bs[n..])
  }

  lemma {:induction false} CsiEndStable(bs: seq<Byte>, more: seq<Byte>, j: nat)
    requires j <= |bs| && CsiEnd(bs, j) < |bs|
    ensures CsiEnd(bs + more, j) == CsiEnd(bs, j)
    decreases |bs| - j
  {
    assert (bs + more)[j] == bs[j];
    if 0x20 <= bs[j] <= 0x3F {
      CsiEndStable(bs, more, j + 1);
    }
  }

  lemma {:induction false} FittingRunStable(bs: seq<Byte>, more: seq<Byte>, n: nat, i: nat)
    requires 1 <= i <= n && i <= |bs|
    requires FittingRun(bs, n, i) == n || FittingRun(bs, n, i) < |bs|
    ensures FittingRun(bs + more, n, i) == FittingRun(bs, n, i)
    decreases n - i
  {
    if i < n && i < |bs| {
      assert (bs + more)[i] == bs[i] && (bs + more)[0] == bs[0];
      if FitsAt(bs[0], i, bs[i]) {
        FittingRunStable(bs, more, n, i + 1);
      }
    }
  }

  /** A complete unit stays the same unit whatever bytes follow it. */
  lemma NextLexemeStable(bs: seq<Byte>, more: seq<Byte>)
    requires |bs| > 0 && NextLexeme(bs).Complete?
    ensures NextLexeme(bs + more) == NextLexeme(bs)
  {
    var w := bs + more;
    assert w[0] == bs[0];
    var b := bs[0];
    if b == Esc && bs[1] == OpenBracket {
      assert w[1] == bs[1];
      CsiEndStable(bs, more, 2);
      var k := CsiEnd(bs, 2);
      assert w[k] == bs[k] && w[2..k] == bs[2..k];
    } else if b == Esc {
      assert w[1] == bs[1];
      if bs[1] == Ss3 {
        CsiEndStable(bs, more, 2);
        var k := CsiEnd(bs, 2);
        assert w[k] == bs[k];
      }
    } else if !IsPrintableAscii(b) && SequenceLength(b) >= 2 && b != 0x0D && b != 0x0A && b != 0x7F && b != 0x08 {
      var n := SequenceLength(b);
      FittingRunStable(bs, more, n, 1);
      if FittingRun(bs, n, 1) == n {
        assert w[..n] == bs[..n];
      }
    }
  }

  /** Decoding is insensitive to where the stream is cut: the events of
      `bs + more` are the events of `bs` followed by the events of what was
      pending after `bs` together with `more`. */
  lemma {:induction false} DecodeAppend(bs: seq<Byte>, more: seq<Byte>)
    ensures Decode(bs + more) == Decode(bs) + Decode(Pending(bs) + more)
    ensures Pending(bs + more) == Pending(Pending(bs) + more)
    decreases |bs|
  {
    if bs == [] {
      assert bs + more == more;
    } else if NextLexeme(bs).Complete? {
      var n := NextLexeme(bs).size;
      var e := NextLexeme(bs).event;
      NextLexemeStable(bs, more);
      AppendStep(bs, more, e, n);
      CompleteStep(bs, e, n);
      DecodeAppend(bs[n..], more);
      Associative(Emit(e), Decode(bs[n..]), Decode(Pending(bs[n..]) + more));
    }
  }

  /** What stays pending is a tail of the bytes received, and it is nothing or
      the cut-off start of a unit: decoding never holds back a complete unit. */
  lemma {:induction false} PendingIsCutOffTail(bs: seq<Byte>)
    ensures Pending(bs) == bs[|bs| - |Pending(bs)|..]
    ensures Pending(bs) != [] ==> NextLexeme(Pending(bs)).Incomplete?
    decreases |bs|
  {
    if bs != [] && NextLexeme(bs).Complete? {
      var n := NextLexeme(bs).size;
      PendingIsCutOffTail(bs[n..]);
      assert bs[n..][|bs[n..]| - |Pending(bs)|..] == bs[|bs| - |Pending(bs)|..];
    }
  }

  /** A unit that stays complete when bytes are appended: its event, then the
      rest together with the appended bytes. */
  lemma AppendStep(bs: seq<Byte>, more: seq<Byte>, e: Option<EditEvent>, n: nat)
    requires |bs| > 0 && n <= |bs| && NextLexeme(bs + more) == Complete(e, n)
    ensures Decode(bs + more) == Emit(e) + Decode(bs[n..] + more)
    ensures Pending(bs + more) == Pending(bs[n..] + more)
  {
    CompleteStep(bs + more, e, n);
    assert (bs + more)[n..] == bs[n..] + more;
  }

  /** One complete unit at the front: its event, then the rest. */
  lemma CompleteStep(bs: seq<Byte>, e: Option<EditEvent>, n: nat)
    requires |bs| > 0 && NextLexeme(bs) == Complete(e, n)
    ensures Decode(bs) == Emit(e) + Decode(bs[n..])
    ensures Pending(bs) == Pending(bs[n..])
  {
  }

  lemma {:induction false} FittingRunFull(bs: seq<Byte>, n: nat, i: nat)
    requires 1 <= i <= n <= |bs|
    requires forall j :: 1 <= j < n ==> FitsAt(bs[0], j, bs[j])
    ensures FittingRun(bs, n, i) == n
    decreases n - i
  {
    if i < n {
      FittingRunFull(bs, n, i + 1);
    }
  }

  /** The bytes of a typeable character decode to exactly one `Insert` of that
      character, however many bytes UTF-8 uses for it. */
  lemma NextLexemeOfChar(c: char, more: seq<Byte>)
    requires Typeable(c)
    ensures NextLexeme(Encode(c) + more) == Complete(Some(Insert(c)), |Encode(c)|)
  {
    EncodeDecodes(c);
    var e := Encode(c);
    var w := e + more;
    assert w[0] == e[0];
    if c as int >= 0x80 {
      var n := |e|;
      assert forall j :: 1 <= j < n ==> w[j] == e[j];
      FittingRunFull(w, n, 1);
      assert w[..n] == e;
    }
  }

  /** The bytes of one typeable character, then anything: one `Insert`. */
  lemma DecodeChar(c: char, rest: seq<Byte>)
    requires Typeable(c)
    ensures Decode(Encode(c) + rest) == [Insert(c)] + Decode(rest)
    ensures Pending(Encode(c) + rest) == Pending(rest)
  {
    var w := Encode(c) + rest;
    NextLexemeOfChar(c, rest);
    CompleteStep(w, Some(Insert(c)), |Encode(c)|);
    assert w[|Encode(c)|..] == rest;
  }

  /** Typed text decodes to one `Insert` per character, in order, and leaves
      nothing pending of its own. */
  lemma {:induction false} DecodeText(s: string, more: seq<Byte>)
    requires forall i :: 0 <= i < |s| ==> Typeable(s[i])
    ensures Decode(EncodeText(s) + more) == Inserts(s) + Decode(more)
    ensures Pending(EncodeText(s) + more) == Pending(more)
  {
    if s == [] {
      assert EncodeText(s) + more == more;
    } else {
      var rest := EncodeText(s[1..]) + more;
      Associative(Encode(s[0]), EncodeText(s[1..]), more);
      DecodeChar(s[0], rest);
      DecodeText(s[1..], more);
      Associative([Insert(s[0])], Inserts(s[1..]), Decode(more));
    }
  }

  lemma LeftArrowUnit(more: seq<Byte>)
    ensures NextLexeme([Esc, OpenBracket, 0x44] + more) == Complete(Some(MoveLeft), 3)
  {
    var left := [Esc, OpenBracket, 0x44] + more;
    assert CsiEnd(left, 2) == 2;
    assert left[2..2] == [];
  }

  lemma DeleteKeyUnit(more: seq<Byte>)
    ensures NextLexeme([Esc, OpenBracket, 0x33, 0x7E] + more) == Complete(Some(DeleteForward), 4)
  {
    var del := [Esc, OpenBracket, 0x33, 0x7E] + more;
    assert CsiEnd(del, 3) == 3;
    assert CsiEnd(del, 2) == 3;
    assert del[2..3] == [0x33];
  }

  /** The two cursor keys the prompt honours, each one event. */
  lemma CursorKeys(more: seq<Byte>)
    ensures Decode([Esc, OpenBracket, 0x44] + more) == [MoveLeft] + Decode(more)
    ensures Pending([Esc, OpenBracket, 0x44] + more) == Pending(more)
    ensures Decode([Esc, OpenBracket, 0x33, 0x7E] + more) == [DeleteForward] + Decode(more)
    ensures Pending([Esc, OpenBracket, 0x33, 0x7E] + more) == Pending(more)
  {
    var left := [Esc, OpenBracket, 0x44] + more;
    LeftArrowUnit(more);
    CompleteStep(left, Some(MoveLeft), 3);
    assert left[3..] == more;
    var del := [Esc, OpenBracket, 0x33, 0x7E] + more;
    DeleteKeyUnit(more);
    CompleteStep(del, Some(DeleteForward), 4);
    assert del[4..] == more;
  }

  /** Enter (carriage return or line feed) is `Submit`; DEL and BS are
      `Backspace`. */
  lemma SingleByteKeys(b: Byte, more: seq<Byte>)
    requires b in {0x0D, 0x0A, 0x7F, 0x08}
    ensures Decode([b] + more) == [if b == 0x0D || b == 0x0A then Submit else Backspace] + Decode(more)
    ensures Pending([b] + more) == Pending(more)
  {
    assert ([b] + more)[1..] == more;
  }

  /** DEL alone and carriage return alone, as the prompt receives them. */
  lemma LoneKeys()
    ensures Decode([0x7F]) == [Backspace] && Pending([0x7F]) == []
    ensures Decode([0x0D]) == [Submit] && Pending([0x0D]) == []
  {
    SingleByteKeys(0x7F, []);
    SingleByteKeys(0x0D, []);
    assert [0x7F] + [] == [0x7F];
    assert [0x0D] + [] == [0x0D];
  }

  /** A complete control sequence the prompt does not know (the right arrow
      `ESC [ C`, say) is dropped: it yields no event and inserts no text. */
  lemma {:induction false} UnknownControlSequenceDropped(params: seq<Byte>, final: Byte, more: seq<Byte>)
    requires forall i :: 0 <= i < |params| ==> 0x20 <= params[i] <= 0x3F
    requires 0x40 <= final <= 0x7E && ControlSequence(params, final) == None
    ensures Decode([Esc, OpenBracket] + params + [final] + more) == Decode(more)
    ensures Pending([Esc, OpenBracket] + params + [final] + more) == Pending(more)
  {
    var w := [Esc, OpenBracket] + params + [final] + more;
    CsiEndOver(w, 2, |params| + 2);
    assert w[2..|params| + 2] == params;
    assert NextLexeme(w) == Complete(None, |params| + 3);
    CompleteStep(w, None, |params| + 3);
    assert w[|params| + 3..] == more;
  }

  /** An application-mode key (`ESC O`, parameter bytes and a final byte;
      `ESC O D` is the left arrow in that mode, `ESC O 5 P` a modified F1) is
      dropped whole: no event, no text. */
  lemma {:induction false} ApplicationKeyDropped(params: seq<Byte>, final: Byte, more: seq<Byte>)
    requires forall i :: 0 <= i < |params| ==> 0x20 <= params[i] <= 0x3F
    requires 0x40 <= final <= 0x7E
    ensures Decode([Esc, Ss3] + params + [final] + more) == Decode(more)
    ensures Pending([Esc, Ss3] + params + [final] + more) == Pending(more)
  {
    var w := [Esc, Ss3] + params + [final] + more;
    CsiEndOver(w, 2, |params| + 2);
    assert NextLexeme(w) == Complete(None, |params| + 3);
    CompleteStep(w, None, |params| + 3);
    assert w[|params| + 3..] == more;
  }

  /** Modified F1 (`ESC O 5 P`, as some terminals send it) types neither `5` nor `P`. */
  lemma ModifiedF1Dropped(more: seq<Byte>)
    ensures Decode([Esc, Ss3, 0x35, 0x50] + more) == Decode(more)
    ensures Pending([Esc, Ss3, 0x35, 0x50] + more) == Pending(more)
  {
    ApplicationKeyDropped([0x35], 0x50, more);
    assert [Esc, Ss3] + [0x35] + [0x50] + more == [Esc, Ss3, 0x35, 0x50] + more;
  }

  /** `ESC` and a printable character other than `[` and `O` (a key pressed
      with Alt, say) is dropped whole: the character is not typed. */
  lemma AltKeyDropped(b: Byte, more: seq<Byte>)
    requires IsPrintableAscii(b) && b != OpenBracket && b != Ss3
    ensures Decode([Esc, b] + more) == Decode(more)
    ensures Pending([Esc, b] + more) == Pending(more)
  {
    var w := [Esc, b] + more;
    assert NextLexeme(w) == Complete(None, 2);
    CompleteStep(w, None, 2);
    assert w[2..] == more;
  }

  /** No unit that starts with `ESC` inserts text, and `ESC` is dropped on its
      own only before a byte that is not printable ASCII: a printable byte
      right after `ESC` never reaches the buffer as typed text. */
  lemma EscapeInsertsNothing(bs: seq<Byte>)
    requires |bs| > 0 && bs[0] == Esc
    ensures NextLexeme(bs).Complete? && NextLexeme(bs).event.Some? ==> !NextLexeme(bs).event.value.Insert?
    ensures NextLexeme(bs) == Complete(None, 1) ==> |bs| >= 2 && !IsPrintableAscii(bs[1])
  {
  }

  /** Every byte that `CsiEnd` skips is a parameter or intermediate byte, so
      the position it returns is the first one that is not. */
  lemma {:induction false} CsiEndRun(bs: seq<Byte>, j: nat)
    requires j <= |bs|
    ensures forall i :: j <= i < CsiEnd(bs, j) ==> 0x20 <= bs[i] <= 0x3F
    decreases |bs| - j
  {
    if j < |bs| && 0x20 <= bs[j] <= 0x3F {
      CsiEndRun(bs, j + 1);
    }
  }

  lemma {:induction false} CsiEndOver(bs: seq<Byte>, j: nat, k: nat)
    requires j <= k < |bs|
    requires forall i :: j <= i < k ==> 0x20 <= bs[i] <= 0x3F
    requires !(0x20 <= bs[k] <= 0x3F)
    ensures CsiEnd(bs, j) == k
    decreases k - j
  {
    if j < k {
      CsiEndOver(bs, j + 1, k);
    }
  }

  lemma UnitStep(buf: seq<Byte>, i: nat, lexeme: Lexeme)
    requires i < |buf| && NextLexeme(buf[i..]) == lexeme && lexeme.Complete?
    ensures i + lexeme.size <= |buf|
    ensures Decode(buf[i..]) == Emit(lexeme.event) + Decode(buf[i + lexeme.size..])
    ensures Pending(buf[i..]) == Pending(buf[i + lexeme.size..])
  {
    assert buf[i..][lexeme.size..] == buf[i + lexeme.size..];
  }

  lemma UnitStop(rest: seq<Byte>)
    requires rest == [] || NextLexeme(rest).Incomplete?
    ensures Decode(rest) == [] && Pending(rest) == rest
  {
  }

  /** Walks `buf` unit by unit: returns the events of its complete units and
      the bytes left over at the end. */
  method DecodeUnits(buf: seq<Byte>) returns (events: seq<EditEvent>, rest: seq<Byte>)
    ensures events == Decode(buf)
    ensures rest == Pending(buf)
  {
    var i := 0;
    events := [];
    while i < |buf|
      invariant 0 <= i <= |buf|
      invariant events + Decode(buf[i..]) == Decode(buf)
      invariant Pending(buf[i..]) == Pending(buf)
      decreases |buf| - i
    {
      var lexeme := NextLexeme(buf[i..]);
      if lexeme.Incomplete? {
        break;
      }
      UnitStep(buf, i, lexeme);
      Associative(events, Emit(lexeme.event), Decode(buf[i + lexeme.size..]));
      events := events + Emit(lexeme.event);
      i := i + lexeme.size;
    }
    UnitStop(buf[i..]);
    rest := buf[i..];
  }

  /**
   * The decoder as the prompt runs it: bytes arrive in chunks of any size, and
   * whatever unit a chunk cuts off is kept until the next chunk completes it.
   */
  class Decoder {
    var pending: seq<Byte>
    ghost var received: seq<Byte>     // every byte fed so far
    ghost var emitted: seq<EditEvent> // every event returned so far

    ghost predicate Valid()
      reads this
    {
      && pending == Pending(received)
      && emitted == Decode(received)
    }

    constructor ()
      ensures Valid() && received == [] && emitted == [] && pending == []
    {
      pending, received, emitted := [], [], [];
    }

    /** Decodes the complete units of what was pending plus `chunk`; the events
        returned so far are always the events of every byte received so far,
        wherever the chunks were cut. */
    method Feed(chunk: seq<Byte>) returns (events: seq<EditEvent>)
      requires Valid()
      modifies this
      ensures Valid()
      ensures received == old(received) + chunk
      ensures events == Decode(old(pending) + chunk)
      ensures pending == Pending(old(pending) + chunk)
      ensures emitted == old(emitted) + events
    {
      events, pending := DecodeUnits(pending + chunk);
      DecodeAppend(received, chunk);
      received := received + chunk;
      emitted := emitted + events;
    }
  }
}
