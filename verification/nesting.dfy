/** The nested-declaration heuristic of the class-mode first pass: a class
    or struct declaration is nested when the nearest earlier line (within a
    short backward window) that declares a type is still open at the
    declaration, counting braces. */
module Nesting {
  import opened Wrappers
  import opened Text
  import opened Patterns
  import opened Scope

  /** A line the analyzer passes over: blank or a `//` comment once stripped. */
  predicate Ignorable(stripped: string) {
    |stripped| == 0 || StartsWith(stripped, "//")
  }

  /** The exclusive lower end of the backward scan from line `i`: the scan
      runs over `range(i - 1, max(0, i - 50), -1)`, so it never looks at
      this index itself. */
  function WindowFloor(i: nat): nat {
    if i >= 50 then i - 50 else 0
  }

  /** Line `j` can enclose a later declaration: it is not ignorable and the
      word `class` or `struct` followed by an identifier occurs on it. */
  predicate OpensType(lines: seq<string>, j: nat, lex: Lexer)
    requires j < |lines|
  {
    var t := Strip(lines[j]);
    !Ignorable(t) && lex.typeDeclLine(t)
  }

  /** Which lines open a type, line by line. */
  function Marks(lines: seq<string>, lex: Lexer): (ms: seq<bool>)
    ensures |ms| == |lines| && forall j :: 0 <= j < |lines| ==> ms[j] == OpensType(lines, j, lex)
  {
    seq(|lines|, j requires 0 <= j < |lines| => OpensType(lines, j, lex))
  }

  /** The backward scan over `hi - 1, hi - 2, ..., floor + 1`: the first
      marked line met. */
  function ScanBack(ms: seq<bool>, floor: nat, hi: nat): (r: Option<nat>)
    requires hi <= |ms|
    ensures r.Some? ==> floor < r.value < hi && ms[r.value]
    ensures r.Some? ==> forall k :: r.value < k < hi ==> !ms[k]
    ensures r.None? ==> forall k :: floor < k < hi ==> !ms[k]
    decreases hi
  {
    if hi <= floor + 1 then None
    else if ms[hi - 1] then Some(hi - 1)
    else ScanBack(ms, floor, hi - 1)
  }

  /** The candidate enclosing declaration of line `i`: the nearest line
      strictly between `WindowFloor(i)` and `i` that opens a type. */
  function Enclosing(lines: seq<string>, i: nat, lex: Lexer): (r: Option<nat>)
    requires i < |lines|
    ensures r.Some? ==> WindowFloor(i) < r.value < i && OpensType(lines, r.value, lex)
    ensures r.Some? ==> forall k :: r.value < k < i ==> !OpensType(lines, k, lex)
    ensures r.None? ==> forall k :: WindowFloor(i) < k < i ==> !OpensType(lines, k, lex)
  {
    ScanBack(Marks(lines, lex), WindowFloor(i), i)
  }

  /** `is_nested` for a declaration on line `i`: the candidate's braces,
      counted from its own line up to (not including) line `i`, are still
      open.  The first candidate found decides, whether or not it is open. */
  predicate IsNested(lines: seq<string>, i: nat, lex: Lexer): (b: bool)
    requires i < |lines|
    ensures b ==> 2 <= i && exists j :: WindowFloor(i) < j < i && OpensType(lines, j, lex) && Balance(lines[j..i]) > 0
  {
    match Enclosing(lines, i, lex)
    case None => false
    case Some(j) => Balance(lines[j..i]) > 0
  }

  /** Line `j` is the nearest line of the window before line `i` that
      opens a type. */
  ghost predicate Nearest(lines: seq<string>, i: nat, j: nat, lex: Lexer)
    requires i < |lines|
  {
    && WindowFloor(i) < j < i && OpensType(lines, j, lex)
    && (forall k :: j < k < i ==> !OpensType(lines, k, lex))
  }

  /** At most one line is the nearest. */
  lemma NearestUnique(lines: seq<string>, i: nat, j: nat, j': nat, lex: Lexer)
    requires i < |lines| && Nearest(lines, i, j, lex) && Nearest(lines, i, j', lex)
    ensures j == j'
  {
  }

  /** A declaration is nested exactly when some line in the window opens a
      type, no later line in the window does, and the braces from that line
      up to the declaration are unbalanced towards `{`. */
  lemma NestedIff(lines: seq<string>, i: nat, lex: Lexer)
    requires i < |lines|
    ensures IsNested(lines, i, lex) <==> exists j: nat :: Nearest(lines, i, j, lex) && Balance(lines[j..i]) > 0
  {
    match Enclosing(lines, i, lex)
    case None =>
    case Some(e) =>
      assert Nearest(lines, i, e, lex);
      forall j | Nearest(lines, i, j, lex)
        ensures j == e
      {
        NearestUnique(lines, i, j, e, lex);
      }
  }

  /** The first line of a unit is never a candidate, so a declaration
      directly inside a type opened on line 0 counts as top-level; likewise
      a line exactly 50 lines back is never looked at. */
  lemma FirstLineNeverEncloses(lines: seq<string>, i: nat, lex: Lexer)
    requires i < |lines|
    ensures Enclosing(lines, i, lex) != Some(0)
    ensures i >= 50 ==> Enclosing(lines, i, lex) != Some(i - 50)
  {
  }

  /** A type opened on line 0 and left open: the declaration on line 1 sits
      inside it, yet is not reported as nested. */
  lemma OpenOnFirstLineMissed(lex: Lexer, outer: string, inner: string)
    requires Count(outer, '{') > Count(outer, '}')
    ensures Balance([outer]) > 0
    ensures !IsNested([outer, inner], 1, lex)
  {
    assert [outer][..0] == [];
    assert Enclosing([outer, inner], 1, lex).None?;
  }

  /** Declarations on line 0 are never nested. */
  lemma FirstLineTopLevel(lines: seq<string>, lex: Lexer)
    requires |lines| >= 1
    ensures !IsNested(lines, 0, lex)
  {
  }
}
