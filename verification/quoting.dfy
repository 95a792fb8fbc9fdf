/** Quoted identifiers of the DOT language.  Inside a double-quoted string
    the only escape is a backslash before a double quote, which stands for
    the quote; every other character, a lone backslash included, stands for
    itself.  The renderer escapes names and labels by putting a backslash
    before each double quote. */
module Quoting {
  import opened Wrappers
  import opened Text

  /** `s.replace('"', '\\"')`. */
  function Escape(s: string): string
  {
    ReplaceChar(s, '"', "\\\"")
  }

  /** How a DOT reader takes a quoted string apart, starting just after
      the opening quote: the text it stands for and what follows the
      closing quote, or `None` when the string is never closed. */
  function ReadQuoted(t: string): (r: Option<(string, string)>)
    ensures r.Some? ==> |r.value.1| < |t|
    decreases |t|
  {
    if |t| == 0 then None
    else if t[0] == '"' then Some(("", t[1..]))
    else if t[0] == '\\' && |t| >= 2 && t[1] == '"' then
      match ReadQuoted(t[2..])
      case None => None
      case Some(p) => Some(("\"" + p.0, p.1))
    else
      match ReadQuoted(t[1..])
      case None => None
      case Some(p) => Some(([t[0]] + p.0, p.1))
  }

  /** A text that the escaping keeps readable: it does not end with a
      backslash, which would pair with the closing quote. */
  predicate Closable(s: string) {
    |s| == 0 || s[|s| - 1] != '\\'
  }

  /** One step of the reader over an escaped quote. */
  lemma ReadQuoteStep(t: string)
    ensures ReadQuoted("\\\"" + t) == match ReadQuoted(t)
      case None => None
      case Some(p) => Some(("\"" + p.0, p.1))
  {
    assert ("\\\"" + t)[2..] == t;
  }

  /** One step of the reader over a character that stands for itself. */
  lemma ReadPlainStep(ch: char, t: string)
    requires ch != '"' && (ch == '\\' ==> |t| == 0 || t[0] != '"')
    ensures ReadQuoted([ch] + t) == match ReadQuoted(t)
      case None => None
      case Some(p) => Some(([ch] + p.0, p.1))
  {
    assert ([ch] + t)[1..] == t;
  }

  /** Escaping is undone by the reader: the escaped text followed by a
      closing quote reads back as the text, and reading stops right after
      that quote. */
  lemma {:induction false} ReadEscaped(s: string, rest: string)
    requires Closable(s)
    ensures ReadQuoted(Escape(s) + "\"" + rest) == Some((s, rest))
    decreases |s|
  {
    if |s| == 0 {
      assert Escape(s) + "\"" + rest == "\"" + rest;
    } else {
      var tail := Escape(s[1..]) + "\"" + rest;
      assert Closable(s[1..]);
      ReadEscaped(s[1..], rest);
      ReplaceHead(s, '"', "\\\"");
      if s[0] == '"' {
        assert Escape(s) + "\"" + rest == "\\\"" + tail;
        ReadQuoteStep(tail);
        assert "\"" + s[1..] == s;
      } else {
        assert Escape(s) + "\"" + rest == [s[0]] + tail;
        if s[0] == '\\' {
          assert |s| >= 2;
          EscapeHead(s[1..]);
        }
        ReadPlainStep(s[0], tail);
        assert [s[0]] + s[1..] == s;
      }
    }
  }

  /** An escaped non-empty text never starts with a bare quote. */
  lemma EscapeHead(s: string)
    requires |s| > 0
    ensures |Escape(s)| > 0 && Escape(s)[0] != '"'
  {
    assert Escape(s) == (if s[0] == '"' then "\\\"" else [s[0]]) + Escape(s[1..]);
  }

  /** `s.replace('\n', '\\n')`: newlines become the two characters of the
      DOT line-break escape. */
  function BreakLines(s: string): (r: string)
    ensures '\n' !in r
  {
    ReplaceChar(s, '\n', "\\n")
  }

  /** Replacing a character distributes over concatenation. */
  lemma {:induction false} ReplaceConcat(x: string, y: string, c: char, rep: string)
    ensures ReplaceChar(x + y, c, rep) == ReplaceChar(x, c, rep) + ReplaceChar(y, c, rep)
    decreases |x|
  {
    if |x| > 0 {
      assert (x + y)[1..] == x[1..] + y;
      ReplaceConcat(x[1..], y, c, rep);
    } else {
      assert x + y == y;
    }
  }

  /** Replacing by a non-empty text leaves a text empty exactly when it was. */
  lemma ReplaceEmpty(x: string, c: char, rep: string)
    requires |rep| > 0
    ensures ReplaceChar(x, c, rep) == "" <==> x == ""
  {
    if |x| > 0 {
      ReplaceHead(x, c, rep);
    }
  }

  /** A text without the character is left alone. */
  lemma {:induction false} ReplaceAbsent(x: string, c: char, rep: string)
    requires c !in x
    ensures ReplaceChar(x, c, rep) == x
    decreases |x|
  {
    if |x| > 0 {
      ReplaceAbsent(x[1..], c, rep);
      assert [x[0]] + x[1..] == x;
    }
  }

  /** The first character of a text is replaced on its own. */
  lemma ReplaceHead(x: string, c: char, rep: string)
    requires |x| > 0
    ensures ReplaceChar(x, c, rep) == (if x[0] == c then rep else [x[0]]) + ReplaceChar(x[1..], c, rep)
  {
  }

  /** Escaping quotes and breaking lines do not interfere, so the order in
      which the label is treated does not matter. */
  lemma {:induction false} EscapeBreakCommute(s: string)
    ensures BreakLines(Escape(s)) == Escape(BreakLines(s))
    decreases |s|
  {
    if |s| > 0 {
      var h := if s[0] == '"' then "\\\"" else [s[0]];
      var b := if s[0] == '\n' then "\\n" else [s[0]];
      ReplaceHead(s, '"', "\\\"");
      ReplaceHead(s, '\n', "\\n");
      ReplaceConcat(h, Escape(s[1..]), '\n', "\\n");
      ReplaceConcat(b, BreakLines(s[1..]), '"', "\\\"");
      EscapeBreakCommute(s[1..]);
      if s[0] == '"' {
        ReplaceAbsent(h, '\n', "\\n");
        ReplaceHead(b, '"', "\\\"");
      } else if s[0] == '\n' {
        ReplaceAbsent(b, '"', "\\\"");
        ReplaceHead(h, '\n', "\\n");
      } else {
        ReplaceAbsent(h, '\n', "\\n");
        ReplaceAbsent(b, '"', "\\\"");
      }
    }
  }
}
