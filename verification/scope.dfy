/** Brace counting and `extract_class_scope`: the lines of a unit that form
    the body of one class or struct, found with a running brace counter. */
module Scope {
  import opened Wrappers
  import opened Text
  import opened Patterns

  /** `line.count('{') - line.count('}')`. */
  function Delta(line: string): int {
    Count(line, '{') as int - Count(line, '}') as int
  }

  /** The brace balance of a run of lines: opening minus closing braces. */
  function Balance(lines: seq<string>): int {
    if |lines| == 0 then 0 else Balance(lines[..|lines| - 1]) + Delta(lines[|lines| - 1])
  }

  lemma BalanceStep(lines: seq<string>, d: nat, i: nat)
    requires d <= i < |lines|
    ensures Balance(lines[d..i + 1]) == Balance(lines[d..i]) + Delta(lines[i])
  {
    assert lines[d..i + 1][..i - d] == lines[d..i];
  }

  /** The first line, from `from` on, on which the declaration of `name` is found. */
  function FindDecl(lines: seq<string>, name: string, lex: Lexer, from: nat): (r: Option<nat>)
    ensures r.Some? ==> from <= r.value < |lines| && lex.opensScope(name, lines[r.value])
    ensures r.Some? ==> forall j :: from <= j < r.value ==> !lex.opensScope(name, lines[j])
    ensures r.None? ==> forall j :: from <= j < |lines| ==> !lex.opensScope(name, lines[j])
    decreases |lines| - from
  {
    if from >= |lines| then None
    else if lex.opensScope(name, lines[from]) then Some(from)
    else FindDecl(lines, name, lex, from + 1)
  }

  /** The first line, from `from` on, that contains an opening brace. */
  function FindOpen(lines: seq<string>, from: nat): (r: Option<nat>)
    ensures r.Some? ==> from <= r.value < |lines| && '{' in lines[r.value]
    ensures r.Some? ==> forall j :: from <= j < r.value ==> '{' !in lines[j]
    ensures r.None? ==> forall j :: from <= j < |lines| ==> '{' !in lines[j]
    decreases |lines| - from
  {
    if from >= |lines| then None
    else if '{' in lines[from] then Some(from)
    else FindOpen(lines, from + 1)
  }

  /** The counter after one line: its opening braces are added when it
      has any, then its closing braces subtracted when it has any; either
      way the counter moves by the line's balance. */
  function AfterLine(line: string, count: int): (next: int)
    ensures next == count + Delta(line)
  {
    var afterOpen := if '{' in line then count + Count(line, '{') else count;
    if '}' in line then afterOpen - Count(line, '}') else afterOpen
  }

  /** The loop of `extract_class_scope` from line index `i` on, with the
      running `brace_count` and the `in_class` flag: emits `(i + 1, line)`
      once the first opening brace has been seen, and stops after the line
      on which the counter drops to zero or below. */
  function ScopeFrom(lines: seq<string>, i: nat, count: int, inClass: bool): (r: seq<(nat, string)>)
    decreases |lines| - i
  {
    if i >= |lines| then []
    else
      var line := lines[i];
      var inClass' := inClass || '{' in line;
      var emitted := if inClass' then [(i + 1, line)] else [];
      var next := AfterLine(line, count);
      if inClass' && next <= 0 then emitted
      else emitted + ScopeFrom(lines, i + 1, next, inClass')
  }

  /** `r` pairs consecutive lines after index `i` with their 1-based
      numbers. */
  ghost predicate NumberedAfter(lines: seq<string>, i: nat, r: seq<(nat, string)>) {
    && (forall k :: 0 <= k < |r| ==> i < r[k].0 <= |lines| && r[k].1 == lines[r[k].0 - 1])
    && (forall k :: 0 < k < |r| ==> r[k].0 == r[k - 1].0 + 1)
  }

  /** Whatever the loop emits is a run of consecutive lines after `i`,
      each paired with its 1-based number, and it starts right at `i` once
      inside the class. */
  lemma {:induction false} ScopeFromLines(lines: seq<string>, i: nat, count: int, inClass: bool)
    ensures NumberedAfter(lines, i, ScopeFrom(lines, i, count, inClass))
    ensures inClass && i < |lines| ==> |ScopeFrom(lines, i, count, inClass)| > 0 && ScopeFrom(lines, i, count, inClass)[0].0 == i + 1
    decreases |lines| - i
  {
    if i < |lines| {
      var line := lines[i];
      var inClass' := inClass || '{' in line;
      var next := AfterLine(line, count);
      var rest := ScopeFrom(lines, i + 1, next, inClass');
      ScopeFromLines(lines, i + 1, next, inClass');
      if inClass' {
        if next <= 0 {
          NumberedCons(lines, i, []);
        } else {
          assert ScopeFrom(lines, i, count, inClass) == [(i + 1, line)] + rest;
          NumberedCons(lines, i, rest);
        }
      } else {
        assert ScopeFrom(lines, i, count, inClass) == rest;
        NumberedMore(lines, i, rest);
      }
    }
  }

  /** A numbered run after `i + 1` is one after `i`. */
  lemma NumberedMore(lines: seq<string>, i: nat, rest: seq<(nat, string)>)
    requires NumberedAfter(lines, i + 1, rest)
    ensures NumberedAfter(lines, i, rest)
  {
  }

  /** Line `i` in front of a run that starts right after it. */
  lemma NumberedCons(lines: seq<string>, i: nat, rest: seq<(nat, string)>)
    requires i < |lines| && NumberedAfter(lines, i + 1, rest)
    requires |rest| > 0 ==> rest[0].0 == i + 2
    ensures NumberedAfter(lines, i, [(i + 1, lines[i])] + rest)
  {
    var r := [(i + 1, lines[i])] + rest;
    forall k | 0 < k < |r|
      ensures r[k] == rest[k - 1]
    {
    }
  }

  /** `scope` is the run of lines starting at index `o`, numbered from 1,
      along which the brace balance counted from the declaration line `d`
      stays positive until its last line, where it drops to zero or below
      (unless the unit ends first). */
  ghost predicate ScopeRun(lines: seq<string>, d: nat, o: nat, scope: seq<(nat, string)>) {
    && d <= o
    && |scope| >= 1 && o + |scope| <= |lines|
    && (forall k :: 0 <= k < |scope| ==> scope[k] == (o + k + 1, lines[o + k]))
    && (forall j :: o < j < o + |scope| ==> Balance(lines[d..j]) > 0)
    && (Balance(lines[d..o + |scope|]) <= 0 || o + |scope| == |lines|)
  }

  /** `extract_class_scope(lines, name)`.  Nothing when the declaration is
      not found or no opening brace follows it; otherwise the run of lines
      from the first line at or after the declaration that holds `{`, up to
      and including the line where the brace balance counted from the
      declaration line returns to zero. */
  function ExtractClassScope(lines: seq<string>, name: string, lex: Lexer): (scope: seq<(nat, string)>)
    ensures FindDecl(lines, name, lex, 0).None? ==> scope == []
    ensures FindDecl(lines, name, lex, 0).Some? ==>
      var d := FindDecl(lines, name, lex, 0).value;
      && (FindOpen(lines, d).None? ==> scope == [])
      && (FindOpen(lines, d).Some? ==> ScopeRun(lines, d, FindOpen(lines, d).value, scope))
  {
    match FindDecl(lines, name, lex, 0)
    case None => []
    case Some(d) =>
      assert lines[d..d] == [];
      ScopeBeforeOpen(lines, d, d, 0);
      if FindOpen(lines, d).Some? then
        var o := FindOpen(lines, d).value;
        ScopeInClass(lines, d, o, Balance(lines[d..o]));
        ScopeFrom(lines, d, 0, false)
      else
        ScopeFrom(lines, d, 0, false)
  }

  /** Before the first opening brace nothing is emitted and the counter
      tracks the balance; the scan then continues as if already in the class. */
  lemma {:induction false} ScopeBeforeOpen(lines: seq<string>, d: nat, i: nat, count: int)
    requires d <= i <= |lines| && count == Balance(lines[d..i])
    ensures FindOpen(lines, i).None? ==> ScopeFrom(lines, i, count, false) == []
    ensures FindOpen(lines, i).Some? ==>
      var o := FindOpen(lines, i).value;
      ScopeFrom(lines, i, count, false) == ScopeFrom(lines, o, Balance(lines[d..o]), true)
    decreases |lines| - i
  {
    if i < |lines| && '{' !in lines[i] {
      BalanceStep(lines, d, i);
      assert ScopeFrom(lines, i, count, false) == ScopeFrom(lines, i + 1, AfterLine(lines[i], count), false);
      ScopeBeforeOpen(lines, d, i + 1, Balance(lines[d..i + 1]));
      assert FindOpen(lines, i) == FindOpen(lines, i + 1);
    }
  }

  /** Once inside the class, the emitted lines form a `ScopeRun`. */
  lemma {:induction false} ScopeInClass(lines: seq<string>, d: nat, i: nat, count: int)
    requires d <= i <= |lines| && count == Balance(lines[d..i])
    ensures i == |lines| ==> ScopeFrom(lines, i, count, true) == []
    ensures i < |lines| ==> ScopeRun(lines, d, i, ScopeFrom(lines, i, count, true))
    decreases |lines| - i
  {
    if i < |lines| {
      var next := Balance(lines[d..i + 1]);
      ScopeStep(lines, d, i, count);
      if next > 0 {
        var rest := ScopeFrom(lines, i + 1, next, true);
        ScopeInClass(lines, d, i + 1, next);
        if i + 1 < |lines| {
          RunCons(lines, d, i, rest);
        }
      }
    }
  }

  /** One step of the in-class loop: the counter after line `i` is the
      balance through line `i`. */
  lemma ScopeStep(lines: seq<string>, d: nat, i: nat, count: int)
    requires d <= i < |lines| && count == Balance(lines[d..i])
    ensures Balance(lines[d..i + 1]) <= 0 ==> ScopeFrom(lines, i, count, true) == [(i + 1, lines[i])]
    ensures Balance(lines[d..i + 1]) > 0 ==>
      ScopeFrom(lines, i, count, true) == [(i + 1, lines[i])] + ScopeFrom(lines, i + 1, Balance(lines[d..i + 1]), true)
  {
    BalanceStep(lines, d, i);
  }

  lemma RunCons(lines: seq<string>, d: nat, i: nat, rest: seq<(nat, string)>)
    requires d <= i < |lines| && Balance(lines[d..i + 1]) > 0 && ScopeRun(lines, d, i + 1, rest)
    ensures ScopeRun(lines, d, i, [(i + 1, lines[i])] + rest)
  {
    var r := [(i + 1, lines[i])] + rest;
    assert forall k :: 1 <= k < |r| ==> r[k] == rest[k - 1];
  }
}
