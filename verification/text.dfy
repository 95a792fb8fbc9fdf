/** The few Python `str` operations the analyzer relies on, written out
    exactly: `strip()`, `count(c)`, `split(c)`, `startswith`, `endswith`,
    `replace(c, s)` and `str(n)` for natural numbers. */
module Text {
  import opened Wrappers

  /** Python's `str.isspace` for a single character (the characters `strip()`
      with no argument removes). */
  predicate IsSpace(c: char) {
    || c == ' ' || c == '\t' || c == '\n' || c == '\r' || c == '\U{B}' || c == '\U{C}'
    || ('\U{1C}' <= c <= '\U{1F}')
    || c == '\U{85}' || c == '\U{A0}' || c == '\U{1680}'
    || ('\U{2000}' <= c <= '\U{200A}')
    || c == '\U{2028}' || c == '\U{2029}' || c == '\U{202F}' || c == '\U{205F}' || c == '\U{3000}'
  }

  /** `s` without its leading whitespace. */
  function TrimLeft(s: string): (r: string)
    ensures |r| <= |s| && r == s[|s| - |r|..]
    ensures forall k :: 0 <= k < |s| - |r| ==> IsSpace(s[k])
    ensures |r| > 0 ==> !IsSpace(r[0])
  {
    if |s| > 0 && IsSpace(s[0]) then TrimLeft(s[1..]) else s
  }

  /** `s` without its trailing whitespace. */
  function TrimRight(s: string): (r: string)
    ensures |r| <= |s| && r == s[..|r|]
    ensures forall k :: |r| <= k < |s| ==> IsSpace(s[k])
    ensures |r| > 0 ==> !IsSpace(r[|r| - 1])
  {
    if |s| > 0 && IsSpace(s[|s| - 1]) then TrimRight(s[..|s| - 1]) else s
  }

  /** Python's `s.strip()`: `s` with its leading and trailing whitespace cut
      off, so that what remains neither starts nor ends with whitespace. */
  function Strip(s: string): (r: string)
    ensures |r| <= |s|
  {
    TrimRight(TrimLeft(s))
  }

  /** `Strip(s)` is a slice of `s` with only white space around it, and
      neither begins nor ends with white space. */
  lemma StripSpec(s: string)
    ensures exists a :: StrippedAt(s, a, Strip(s))
    ensures |Strip(s)| > 0 ==> !IsSpace(Strip(s)[0]) && !IsSpace(Strip(s)[|Strip(s)| - 1])
  {
    var t := TrimLeft(s);
    var r := TrimRight(t);
    var a := |s| - |t|;
    assert Strip(s) == r;
    assert r == s[a..a + |r|] by {
      assert t == s[a..];
      assert r == t[..|r|];
    }
    forall k | a + |r| <= k < |s|
      ensures IsSpace(s[k])
    {
      assert s[k] == t[k - a];
    }
    assert StrippedAt(s, a, r);
    if |r| > 0 {
      assert r[0] == t[0];
    }
  }

  ghost predicate StrippedAt(s: string, a: int, r: string) {
    && 0 <= a && a + |r| <= |s|
    && r == s[a..a + |r|]
    && (forall k :: 0 <= k < a ==> IsSpace(s[k]))
    && (forall k :: a + |r| <= k < |s| ==> IsSpace(s[k]))
  }

  /** Python's `s.count(c)` for a one-character needle. */
  function Count(s: string, c: char): (n: nat)
    ensures n <= |s|
    ensures n == 0 <==> c !in s
  {
    if |s| == 0 then 0 else (if s[0] == c then 1 else 0) + Count(s[1..], c)
  }

  predicate StartsWith(s: string, prefix: string) {
    |prefix| <= |s| && s[..|prefix|] == prefix
  }

  predicate EndsWith(s: string, suffix: string) {
    |suffix| <= |s| && s[|s| - |suffix|..] == suffix
  }

  /** Python's `s.replace(c, rep)` for a one-character pattern. */
  function ReplaceChar(s: string, c: char, rep: string): (r: string)
    ensures c !in rep ==> c !in r
    ensures forall d :: d in r ==> d in s || d in rep
  {
    if |s| == 0 then ""
    else (if s[0] == c then rep else [s[0]]) + ReplaceChar(s[1..], c, rep)
  }

  /** Python's `s.split(sep)` for a one-character separator. */
  function Split(s: string, sep: char): (parts: seq<string>)
    ensures |parts| == Count(s, sep) + 1
    ensures forall i :: 0 <= i < |parts| ==> sep !in parts[i]
  {
    if |s| == 0 then [""]
    else
      var rest := Split(s[1..], sep);
      if s[0] == sep then [""] + rest
      else [[s[0]] + rest[0]] + rest[1..]
  }

  /** `sep.join(parts)`, the inverse of `Split`. */
  function Join(parts: seq<string>, sep: string): string {
    if |parts| == 0 then ""
    else if |parts| == 1 then parts[0]
    else parts[0] + sep + Join(parts[1..], sep)
  }

  /** Splitting on a character and joining back with it gives the original. */
  lemma {:induction false} JoinSplit(s: string, sep: char)
    ensures Join(Split(s, sep), [sep]) == s
  {
    if |s| > 0 {
      var rest := Split(s[1..], sep);
      JoinSplit(s[1..], sep);
      if s[0] == sep {
        assert Split(s, sep) == [""] + rest;
        assert Join([""] + rest, [sep]) == "" + [sep] + Join(rest, [sep]);
        assert s == [s[0]] + s[1..];
      } else {
        var parts := [[s[0]] + rest[0]] + rest[1..];
        assert Split(s, sep) == parts;
        if |rest| == 1 {
          assert Join(parts, [sep]) == [s[0]] + rest[0];
        } else {
          assert parts[1..] == rest[1..];
          assert Join(parts, [sep]) == [s[0]] + rest[0] + [sep] + Join(rest[1..], [sep]);
          assert Join(rest, [sep]) == rest[0] + [sep] + Join(rest[1..], [sep]);
        }
        assert s == [s[0]] + s[1..];
      }
    }
  }

  /** When the separator does not occur, `split` returns the string itself. */
  lemma SplitWithoutSeparator(s: string, sep: char)
    requires sep !in s
    ensures Split(s, sep) == [s]
  {
    JoinSplit(s, sep);
  }

  /** Python's `s.split('.')[-1]`: the text after the last dot, which is
      all of `s` when there is no dot. */
  function LastSegment(s: string): (r: string)
    ensures '.' !in r
    ensures EndsWith(s, r)
    ensures '.' in s ==> |r| < |s| && s[|s| - |r| - 1] == '.'
    ensures '.' !in s ==> r == s
  {
    var parts := Split(s, '.');
    JoinSplit(s, '.');
    JoinEndsWithLast(parts, ".");
    JoinEndsWithSepLast(parts, ".");
    parts[|parts| - 1]
  }

  /** With two parts or more, the join ends with the separator and the
      last part. */
  lemma {:induction false} JoinEndsWithSepLast(parts: seq<string>, sep: string)
    requires |parts| > 0
    ensures |parts| > 1 ==> EndsWith(Join(parts, sep), sep + parts[|parts| - 1])
  {
    if |parts| == 1 {
      return;
    }
    var last := parts[|parts| - 1];
    var tail := Join(parts[1..], sep);
    var whole := parts[0] + sep + tail;
    assert Join(parts, sep) == whole;
    if |parts| == 2 {
      assert tail == last;
      assert whole[|whole| - |sep + last|..] == sep + last;
    } else {
      JoinEndsWithSepLast(parts[1..], sep);
      assert parts[1..][|parts[1..]| - 1] == last;
      assert whole[|whole| - |tail|..] == tail;
      assert whole[|whole| - |sep + last|..] == tail[|tail| - |sep + last|..];
    }
  }

  lemma {:induction false} JoinEndsWithLast(parts: seq<string>, sep: string)
    requires |parts| > 0
    ensures EndsWith(Join(parts, sep), parts[|parts| - 1])
  {
    if |parts| > 1 {
      JoinEndsWithLast(parts[1..], sep);
      var tail := Join(parts[1..], sep);
      var whole := parts[0] + sep + tail;
      assert whole[|whole| - |tail|..] == tail;
      assert tail[|tail| - |parts[|parts| - 1]|..] == parts[|parts| - 1];
      assert whole[|whole| - |parts[|parts| - 1]|..] == tail[|tail| - |parts[|parts| - 1]|..];
    }
  }

  predicate IsDigit(c: char) {
    '0' <= c <= '9'
  }

  function DigitChar(d: nat): (c: char)
    requires d < 10
    ensures IsDigit(c)
  {
    ['0', '1', '2', '3', '4', '5', '6', '7', '8', '9'][d]
  }

  function DigitValue(c: char): (d: nat)
    requires IsDigit(c)
    ensures d < 10
  {
    (c as int - '0' as int) as nat
  }

  /** Python's `str(n)` for a natural number: decimal digits, no leading zero. */
  function NatToString(n: nat): (s: string)
    ensures |s| >= 1
    ensures forall i :: 0 <= i < |s| ==> IsDigit(s[i])
    ensures s[0] == '0' ==> n == 0 && s == "0"
  {
    if n < 10 then [DigitChar(n)] else NatToString(n / 10) + [DigitChar(n % 10)]
  }

  /** The value of a string of decimal digits, read most significant first. */
  function ParseNat(s: string): nat
    requires forall i :: 0 <= i < |s| ==> IsDigit(s[i])
  {
    if |s| == 0 then 0 else ParseNat(s[..|s| - 1]) * 10 + DigitValue(s[|s| - 1])
  }

  /** The length of the run of decimal digits that ends `s`. */
  function DigitRun(s: string): (k: nat)
    ensures k <= |s|
    ensures forall i :: |s| - k <= i < |s| ==> IsDigit(s[i])
    ensures k < |s| ==> !IsDigit(s[|s| - k - 1])
  {
    if |s| > 0 && IsDigit(s[|s| - 1]) then DigitRun(s[..|s| - 1]) + 1 else 0
  }

  /** A number written at the end of `s` as `str(n)` writes it: the text
      before it and its value.  A run of several digits that starts with
      `0` is not such a rendering and is refused. */
  function TrailingNat(s: string): (r: Option<(string, nat)>)
    ensures r.Some? ==> |r.value.0| < |s| && StartsWith(s, r.value.0)
    ensures r.None? <==> |s| == 0 || !IsDigit(s[|s| - 1]) || (DigitRun(s) > 1 && s[|s| - DigitRun(s)] == '0')
  {
    var k := DigitRun(s);
    if k == 0 || (k > 1 && s[|s| - k] == '0') then None else Some((s[..|s| - k], ParseNat(s[|s| - k..])))
  }

  /** A string of digits without a leading zero, unless it is `"0"`. */
  predicate Canonical(d: string) {
    && |d| > 0
    && (forall i :: 0 <= i < |d| ==> IsDigit(d[i]))
    && (|d| > 1 ==> d[0] != '0')
  }

  /** Digits that start with a non-zero digit have a positive value. */
  lemma {:induction false} ParsePositive(d: string)
    requires |d| > 0 && (forall i :: 0 <= i < |d| ==> IsDigit(d[i])) && d[0] != '0'
    ensures ParseNat(d) > 0
  {
    if |d| > 1 {
      ParsePositive(d[..|d| - 1]);
    }
  }

  /** Rendering the value of a canonical digit string gives it back. */
  lemma {:induction false} NatToStringParse(d: string)
    requires Canonical(d)
    ensures NatToString(ParseNat(d)) == d
  {
    var c := d[|d| - 1];
    assert DigitChar(DigitValue(c)) == c;
    if |d| > 1 {
      var p := d[..|d| - 1];
      NatToStringParse(p);
      ParsePositive(p);
      assert d == p + [c];
    }
  }

  /** `TrailingNat` inverts writing a number after a text: it reads back
      `(a, n)` exactly when `s` is `a` followed by `str(n)` and `a` does not
      end in a digit. */
  lemma TrailingNatIff(s: string, a: string, n: nat)
    ensures TrailingNat(s) == Some((a, n)) <==> s == a + NatToString(n) && (|a| == 0 || !IsDigit(a[|a| - 1]))
  {
    if TrailingNat(s) == Some((a, n)) {
      var k := DigitRun(s);
      var d := s[|s| - k..];
      assert Canonical(d);
      NatToStringParse(d);
      assert s == a + d;
    }
    if s == a + NatToString(n) && (|a| == 0 || !IsDigit(a[|a| - 1])) {
      TrailingNatOf(a, n);
    }
  }

  /** The digits appended to a text that does not end in a digit form the
      whole trailing run. */
  lemma {:induction false} DigitRunAppend(a: string, d: string)
    requires |a| == 0 || !IsDigit(a[|a| - 1])
    requires forall i :: 0 <= i < |d| ==> IsDigit(d[i])
    ensures DigitRun(a + d) == |d|
    decreases |d|
  {
    if |d| == 0 {
      assert a + d == a;
    } else {
      var s := a + d;
      assert s[..|s| - 1] == a + d[..|d| - 1];
      DigitRunAppend(a, d[..|d| - 1]);
    }
  }

  /** A number written after a text that does not end in a digit reads back
      as that text and that number. */
  lemma TrailingNatOf(a: string, n: nat)
    requires |a| == 0 || !IsDigit(a[|a| - 1])
    ensures TrailingNat(a + NatToString(n)) == Some((a, n))
  {
    var d := NatToString(n);
    var s := a + d;
    DigitRunAppend(a, d);
    assert s[|s| - |d|] == d[0];
    assert s[..|s| - |d|] == a;
    assert s[|s| - |d|..] == d;
    ParseNatToString(n);
  }

  /** Reading back the decimal rendering of `n` gives `n`. */
  lemma {:induction false} ParseNatToString(n: nat)
    ensures ParseNat(NatToString(n)) == n
  {
    var s := NatToString(n);
    if n < 10 {
      assert s[..0] == [];
    } else {
      ParseNatToString(n / 10);
      assert s[..|s| - 1] == NatToString(n / 10);
    }
  }
}
