/** The edit events the key decoder hands to the line editor. */
module EditEvents {

  datatype EditEvent =
    | Insert(c: char)   // a typed character
    | Backspace         // DEL (0x7F) or BS (0x08)
    | DeleteForward     // ESC [ 3 ~
    | MoveLeft          // ESC [ D
    | Submit            // CR or LF

  /** One `Insert` per character of `s`, in order. */
  function Inserts(s: string): (evs: seq<EditEvent>)
    ensures |evs| == |s|
  {
    if s == [] then [] else [Insert(s[0])] + Inserts(s[1..])
  }

  /** The `i`-th event of `Inserts(s)` inserts the `i`-th character. */
  lemma {:induction false} InsertsAt(s: string)
    ensures forall i :: 0 <= i < |s| ==> Inserts(s)[i] == Insert(s[i])
  {
    if s != [] {
      var rest := Inserts(s[1..]);
      assert Inserts(s) == [Insert(s[0])] + rest;
      InsertsAt(s[1..]);
      forall i | 1 <= i < |s|
        ensures Inserts(s)[i] == Insert(s[i])
      {
        assert Inserts(s)[i] == rest[i - 1] && s[1..][i - 1] == s[i];
      }
    }
  }
}
