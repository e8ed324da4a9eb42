/**
 * The two quoting helpers of the PRD test drivers:
 *
 *  - `ShellQuote` (tests/prd-interview-regression.mjs:32-34) wraps a value in
 *    POSIX single quotes, writing each embedded `'` as `'\''`
 *    (sections 2.2.1 and 2.2.2 of the POSIX.1-2017 Shell Command Language).
 *  - `TclQuote` (tests/prd-input-editing.mjs:22-24, and the identical copy at
 *    tests/prd-interview-regression.mjs:36-38) wraps a value in Tcl double
 *    quotes after doubling each backslash and then escaping each `"`
 *    (rules [4] and [9] of the Tcl(n) manual page).
 *
 * Both are built from `ReplaceAll`, the model of JavaScript's
 * `value.replace(/c/g, rep)` for a pattern that is one literal character.
 */
module Quoting {
  import opened Wrappers

  /** Number of occurrences of `c` in `s`. */
  function Count(s: string, c: char): nat
  {
    if s == [] then 0 else (if s[0] == c then 1 else 0) + Count(s[1..], c)
  }

  lemma {:induction false} CountAppend(a: string, b: string, c: char)
    ensures Count(a + b, c) == Count(a, c) + Count(b, c)
  {
    if a == [] {
      assert a + b == b;
    } else {
      assert (a + b)[1..] == a[1..] + b;
      CountAppend(a[1..], b, c);
    }
  }

  lemma {:induction false} CountAbsent(s: string, c: char)
    requires c !in s
    ensures Count(s, c) == 0
  {
    if s != [] {
      assert forall x :: x in s[1..] ==> x in s;
      CountAbsent(s[1..], c);
    }
  }

  /** `s` with every occurrence of the character `c` replaced by `rep`, scanning
      left to right and never rescanning a replacement: each occurrence grows
      the text by |rep| - 1, and a text without `c` comes back unchanged. */
  function ReplaceAll(s: string, c: char, rep: string): (r: string)
    ensures |r| == |s| + (|rep| - 1) * Count(s, c)
    ensures c !in s ==> r == s
  {
    if s == [] then []
    else
      var tail := ReplaceAll(s[1..], c, rep);
      assert s == [s[0]] + s[1..];
      if s[0] == c then
        assert (|rep| - 1) * (Count(s[1..], c) + 1) == (|rep| - 1) * Count(s[1..], c) + |rep| - 1;
        rep + tail
      else
        [s[0]] + tail
  }

  /** Replacement works piece by piece: the pieces of a concatenation are
      replaced independently. */
  lemma {:induction false} ReplaceAllAppend(a: string, b: string, c: char, rep: string)
    ensures ReplaceAll(a + b, c, rep) == ReplaceAll(a, c, rep) + ReplaceAll(b, c, rep)
  {
    if a == [] {
      assert a + b == b;
    } else {
      assert (a + b)[0] == a[0];
      assert (a + b)[1..] == a[1..] + b;
      ReplaceAllAppend(a[1..], b, c, rep);
    }
  }

  /** Replacing `c` leaves the number of occurrences of any other character `d`
      unchanged, as long as the replacement text does not itself contain `d`. */
  lemma {:induction false} ReplaceAllKeepsCount(s: string, c: char, rep: string, d: char)
    requires d != c && d !in rep
    ensures Count(ReplaceAll(s, c, rep), d) == Count(s, d)
  {
    if s != [] {
      var head := if s[0] == c then rep else [s[0]];
      CountAppend(head, ReplaceAll(s[1..], c, rep), d);
      if s[0] == c {
        CountAbsent(rep, d);
      } else {
        assert head[1..] == [];
      }
      ReplaceAllKeepsCount(s[1..], c, rep, d);
    }
  }

  // ---------------------------------------------------------------- Tcl

  /** How one character reads inside a Tcl double-quoted word after escaping:
      backslash and double quote get a backslash in front, nothing else changes. */
  function TclEscapeChar(ch: char): string
  {
    if ch == '\\' then "\\\\" else if ch == '"' then "\\\"" else [ch]
  }

  /** The intended escaping, one character at a time. */
  function TclEscaped(s: string): string
  {
    if s == [] then [] else TclEscapeChar(s[0]) + TclEscaped(s[1..])
  }

  /** The two `replace` passes of `tclQuote` (backslashes first, then double
      quotes) escape every character exactly once: the backslash that the second
      pass puts in front of a `"` is not doubled again. */
  lemma {:induction false} TwoPassesEscapeOnce(s: string)
    ensures ReplaceAll(ReplaceAll(s, '\\', "\\\\"), '"', "\\\"") == TclEscaped(s)
  {
    if s != [] {
      var first := if s[0] == '\\' then "\\\\" else [s[0]];
      ReplaceAllAppend(first, ReplaceAll(s[1..], '\\', "\\\\"), '"', "\\\"");
      if s[0] == '\\' {
        assert ReplaceAll(first, '"', "\\\"") == "\\\\" by {
          assert first[1..][1..] == [];
        }
      } else {
        assert first[1..] == [];
      }
      TwoPassesEscapeOnce(s[1..]);
    }
  }

  /** Running the passes in the other order double-escapes: a lone `"`
      comes out as three characters, backslash backslash quote. */
  lemma QuoteBeforeBackslashDoubleEscapes()
    ensures ReplaceAll(ReplaceAll("\"", '"', "\\\""), '\\', "\\\\") == "\\\\\""
    ensures TclEscaped("\"") == "\\\""
  {
    assert ReplaceAll("\"", '"', "\\\"") == "\\\"" by {
      assert "\""[1..] == [];
    }
    assert "\\\""[1..] == "\"";
    assert "\\\""[1..][1..] == [];
    assert "\""[1..] == [];
  }

  /** `tclQuote(value)`: a double-quoted Tcl word, one character longer on each
      side and one character longer for every backslash and every double quote. */
  function TclQuote(s: string): (r: string)
    ensures |r| >= 2 && r[0] == '"' && r[|r| - 1] == '"'
    ensures |r| == |s| + 2 + Count(s, '\\') + Count(s, '"')
  {
    var once := ReplaceAll(s, '\\', "\\\\");
    ReplaceAllKeepsCount(s, '\\', "\\\\", '"');
    "\"" + ReplaceAll(once, '"', "\\\"") + "\""
  }

  /** Reads the body of a double-quoted word up to its closing quote, undoing
      only the two escapes `\\` and `\"`; a closing quote that is not the last
      character, a missing closing quote or any other backslash sequence is
      rejected. */
  function TclBody(w: string): Option<string>
  {
    if w == [] then None
    else if w[0] == '"' then (if |w| == 1 then Some([]) else None)
    else if w[0] == '\\' then
      if |w| >= 2 && (w[1] == '\\' || w[1] == '"') then Prepend(w[1], TclBody(w[2..])) else None
    else Prepend(w[0], TclBody(w[1..]))
  }

  /** Strips the opening quote and reads the rest with `TclBody`. */
  function StripAndUnescape(w: string): Option<string>
  {
    if w == [] || w[0] != '"' then None else TclBody(w[1..])
  }

  lemma {:induction false} TclBodyOfEscaped(s: string)
    ensures TclBody(TclEscaped(s) + "\"") == Some(s)
  {
    if s == [] {
      assert TclEscaped(s) + "\"" == "\"";
    } else {
      var w := TclEscaped(s) + "\"";
      var rest := TclEscaped(s[1..]) + "\"";
      assert w == TclEscapeChar(s[0]) + rest;
      TclBodyOfEscaped(s[1..]);
      if s[0] == '\\' || s[0] == '"' {
        assert w[2..] == rest;
      } else {
        assert w[1..] == rest;
      }
      assert [s[0]] + s[1..] == s;
    }
  }

  /** Round trip: stripping the quotes that `TclQuote` adds and undoing its
      `\\` and `\"` escapes gives back the original value. */
  lemma TclQuoteRoundTrip(s: string)
    ensures StripAndUnescape(TclQuote(s)) == Some(s)
  {
    TwoPassesEscapeOnce(s);
    assert TclQuote(s)[1..] == TclEscaped(s) + "\"";
    TclBodyOfEscaped(s);
  }

  // ---------------------------------------------------------------- POSIX shell

  /** `shellQuote(value)`: a single-quoted shell word; every `'` in the value
      costs three extra characters. */
  function ShellQuote(s: string): (r: string)
    ensures |r| >= 2 && r[0] == '\'' && r[|r| - 1] == '\''
    ensures |r| == |s| + 2 + 3 * Count(s, '\'')
  {
    "'" + ReplaceAll(s, '\'', "'\\''") + "'"
  }

  /** How a shell reads a word made of single-quoted parts and backslash escapes,
      positioned outside quotes: `'` opens a quoted part, `\` followed by a
      newline is a line continuation and disappears, `\` followed by any other
      character stands for that character. An unquoted character of any other
      kind, or a trailing lone backslash, is rejected: this reader does not do
      word splitting or expansions. */
  function ShellUnquoted(w: string): Option<string>
    decreases |w|, 1
  {
    if w == [] then Some([])
    else if w[0] == '\'' then ShellQuoted(w[1..])
    else if w[0] == '\\' then
      if |w| < 2 then None
      else if w[1] == '\n' then ShellUnquoted(w[2..])
      else Prepend(w[1], ShellUnquoted(w[2..]))
    else None
  }

  /** The same reader positioned inside single quotes, where every character is
      literal up to the closing `'`; a missing closing quote is rejected. */
  function ShellQuoted(w: string): Option<string>
    decreases |w|, 0
  {
    if w == [] then None
    else if w[0] == '\'' then ShellUnquoted(w[1..])
    else Prepend(w[0], ShellQuoted(w[1..]))
  }

  lemma {:induction false} ShellQuotedOfEscaped(s: string)
    ensures ShellQuoted(ReplaceAll(s, '\'', "'\\''") + "'") == Some(s)
  {
    if s == [] {
      assert ReplaceAll(s, '\'', "'\\''") + "'" == "'";
      assert "'"[1..] == [];
    } else {
      var rest := ReplaceAll(s[1..], '\'', "'\\''") + "'";
      ShellQuotedOfEscaped(s[1..]);
      if s[0] == '\'' {
        assert ReplaceAll(s, '\'', "'\\''") + "'" == "'\\''" + rest;
        EscapedQuoteReads(rest);
      } else {
        var w := [s[0]] + rest;
        assert ReplaceAll(s, '\'', "'\\''") + "'" == w;
        assert w[1..] == rest;
      }
      assert [s[0]] + s[1..] == s;
    }
  }

  /** Inside single quotes, the four characters `'\''` close the quoted part,
      contribute one literal `'` and open a new quoted part. */
  lemma EscapedQuoteReads(rest: string)
    ensures ShellQuoted("'\\''" + rest) == Prepend('\'', ShellQuoted(rest))
  {
    var w := "'\\''" + rest;
    var u := w[1..];
    assert u == "\\''" + rest;
    assert ShellQuoted(w) == ShellUnquoted(u);
    assert u[0] == '\\' && u[1] == '\'';
    var v := u[2..];
    assert v == "'" + rest;
    assert ShellUnquoted(u) == Prepend('\'', ShellUnquoted(v));
    assert v[1..] == rest;
    assert ShellUnquoted(v) == ShellQuoted(rest);
  }

  /** Round trip: a shell reading the word that `ShellQuote` builds gets back
      exactly the original value, whatever quotes, backslashes or newlines it
      holds. */
  lemma ShellQuoteRoundTrip(s: string)
    ensures ShellUnquoted(ShellQuote(s)) == Some(s)
  {
    assert ShellQuote(s)[1..] == ReplaceAll(s, '\'', "'\\''") + "'";
    ShellQuotedOfEscaped(s);
  }
}
