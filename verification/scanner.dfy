/** Reference scanning shared by the class and systems modes: trying a
    catalog of usage regexes on each line, recording one reason per line,
    and the stricter test for classes that share a file. */
module Scanner {
  import opened Wrappers
  import opened Text
  import opened Patterns

  /** The first usage regex of `catalog`, in order, found on `line`: the
      inner loop breaks at the first hit, so later patterns are never
      consulted for that line. */
  function FirstUsage(lex: Lexer, catalog: seq<Usage>, name: string, line: string): (r: Option<Usage>)
    ensures r.None? <==> forall k :: 0 <= k < |catalog| ==> !lex.uses(catalog[k], name, line)
    ensures r.Some? ==> exists k :: (0 <= k < |catalog| && catalog[k] == r.value && lex.uses(r.value, name, line)
      && forall j :: 0 <= j < k ==> !lex.uses(catalog[j], name, line))
  {
    if |catalog| == 0 then None
    else if lex.uses(catalog[0], name, line) then Some(catalog[0])
    else
      var r := FirstUsage(lex, catalog[1..], name, line);
      assert forall k :: 1 <= k < |catalog| ==> catalog[k] == catalog[1..][k - 1];
      r
  }

  /** `f"{description} ({relative_path}:{line})"`: the line number is the
      last thing before the closing parenthesis and reads back. */
  function Reason(u: Usage, path: string, lineNo: nat): (r: string)
    ensures ReadReason(r) == Some((Label(u) + " (" + path, lineNo))
  {
    var head := Label(u) + " (" + path;
    var r := head + ":" + NatToString(lineNo) + ")";
    assert r[..|r| - 1] == (head + ":") + NatToString(lineNo);
    TrailingNatOf(head + ":", lineNo);
    assert (head + ":")[..|head + ":"| - 1] == head;
    r
  }

  /** How a reader takes a reason apart: the text up to the colon before
      the line number, and the line number. */
  function ReadReason(r: string): Option<(string, nat)> {
    if !EndsWith(r, ")") then None
    else match TrailingNat(r[..|r| - 1])
      case None => None
      case Some(p) => if EndsWith(p.0, ":") then Some((p.0[..|p.0| - 1], p.1)) else None
  }

  /** A reason reads back only from the exact text `Reason` writes: the
      head, a colon, the line number as `str` renders it and `)`. */
  lemma ReadReasonExact(r: string, head: string, n: nat)
    requires ReadReason(r) == Some((head, n))
    ensures r == head + ":" + NatToString(n) + ")"
  {
    var p := TrailingNat(r[..|r| - 1]).value;
    TrailingNatIff(r[..|r| - 1], p.0, p.1);
    assert p.0 == head + ":";
    assert r == r[..|r| - 1] + ")";
  }

  /** A line number padded with a zero does not read back. */
  lemma PaddedReasonRefused(head: string, n: nat)
    ensures ReadReason(head + ":0" + NatToString(n) + ")") == None
  {
    var r := head + ":0" + NatToString(n) + ")";
    var s, d := r[..|r| - 1], "0" + NatToString(n);
    assert s == (head + ":") + d;
    DigitRunAppend(head + ":", d);
    assert s[|s| - |d|] == '0';
  }

  /** `enumerate(lines, 1)`. */
  function Numbered(lines: seq<string>): (r: seq<(nat, string)>)
    ensures |r| == |lines|
    ensures forall k :: 0 <= k < |lines| ==> r[k] == (k + 1, lines[k])
  {
    seq(|lines|, k requires 0 <= k < |lines| => (k + 1, lines[k]))
  }

  /** The reason line `l` of a numbered scan contributes, if any. */
  function LineReason(lex: Lexer, catalog: seq<Usage>, name: string, path: string, l: (nat, string)): Option<string> {
    match FirstUsage(lex, catalog, name, l.1)
    case None => None
    case Some(u) => Some(Reason(u, path, l.0))
  }

  /** The reason each numbered line contributes, if any. */
  function LineReasons(lex: Lexer, catalog: seq<Usage>, name: string, path: string, lines: seq<(nat, string)>): (rs: seq<Option<string>>)
    ensures |rs| == |lines| && forall k :: 0 <= k < |lines| ==> rs[k] == LineReason(lex, catalog, name, path, lines[k])
  {
    seq(|lines|, k requires 0 <= k < |lines| => LineReason(lex, catalog, name, path, lines[k]))
  }

  /** The values present in `xs`, in order. */
  function Present(xs: seq<Option<string>>): (vs: seq<string>)
    ensures |vs| <= |xs|
    ensures |vs| == 0 <==> forall k :: 0 <= k < |xs| ==> xs[k].None?
    ensures forall v :: v in vs <==> exists k :: 0 <= k < |xs| && xs[k] == Some(v)
    decreases |xs|
  {
    if |xs| == 0 then []
    else
      var rest := Present(xs[1..]);
      assert forall k :: 1 <= k < |xs| ==> xs[k] == xs[1..][k - 1];
      match xs[0]
      case None => rest
      case Some(v) => [v] + rest
  }

  /** The scan of `name` over the numbered lines: one reason for every line
      on which some pattern of the catalog is found, in line order. */
  function ScanLines(lex: Lexer, catalog: seq<Usage>, name: string, path: string, lines: seq<(nat, string)>): (reasons: seq<string>)
    ensures |reasons| <= |lines|
    ensures |reasons| == 0 <==> forall k :: 0 <= k < |lines| ==> FirstUsage(lex, catalog, name, lines[k].1).None?
    ensures forall r :: r in reasons <==> exists k :: 0 <= k < |lines| && LineReason(lex, catalog, name, path, lines[k]) == Some(r)
  {
    var rs := LineReasons(lex, catalog, name, path, lines);
    assert forall k :: 0 <= k < |lines| ==> (rs[k].None? <==> FirstUsage(lex, catalog, name, lines[k].1).None?);
    Present(rs)
  }

  /** Some pattern of the legitimate-usage catalog is found on the stripped line. */
  predicate LegitOn(lex: Lexer, name: string, line: string) {
    exists u :: u in LegitCatalog && lex.uses(u, name, Strip(line))
  }

  /** `has_legitimate_class_usage`: some stripped line of the scope shows
      one of the stricter usages of `name`. */
  function HasLegitimateUsage(lex: Lexer, scope: seq<(nat, string)>, name: string): (b: bool)
    ensures b <==> exists k :: 0 <= k < |scope| && LegitOn(lex, name, scope[k].1)
    decreases |scope|
  {
    if |scope| == 0 then false
    else
      var here := FirstUsage(lex, LegitCatalog, name, Strip(scope[0].1)).Some?;
      assert here <==> LegitOn(lex, name, scope[0].1);
      var rest := HasLegitimateUsage(lex, scope[1..], name);
      assert forall k :: 1 <= k < |scope| ==> scope[k] == scope[1..][k - 1];
      here || rest
  }

  /** The custom imports of a unit: every `using` target that is not a
      framework namespace. */
  function CustomUsings(lex: Lexer, content: string): (us: seq<string>)
    ensures forall u :: u in us <==> u in lex.usingsIn(content) && !IsFramework(u)
  {
    Keep(lex.usingsIn(content))
  }

  function Keep(xs: seq<string>): (r: seq<string>)
    ensures forall u :: u in r <==> u in xs && !IsFramework(u)
  {
    if |xs| == 0 then []
    else if IsFramework(xs[0]) then Keep(xs[1..])
    else [xs[0]] + Keep(xs[1..])
  }

  /** The namespace test: a class of namespace `other` can be referred to
      from a unit of namespace `ns` with custom imports `usings`. */
  predicate Visible(other: string, ns: string, usings: seq<string>) {
    other == ns || other in usings || other == "Global"
  }

  /** The namespace test knows nothing of C#'s nesting of namespaces: the
      enclosing namespace of `ns` is not visible from `ns` unless it is
      imported, while the default namespace is visible from everywhere. */
  lemma EnclosingNamespaceHidden(outer: string, inner: string, usings: seq<string>)
    requires outer != "Global" && outer !in usings
    ensures !Visible(outer, outer + "." + inner, usings)
    ensures Visible("Global", outer + "." + inner, usings)
  {
    assert |outer + "." + inner| > |outer|;
  }
}
