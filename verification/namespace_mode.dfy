/** `analyze_namespace_dependencies`: every `using` line of every unit that
    declares a namespace is an edge from that namespace to the imported one,
    unless the import is a framework namespace or the namespace itself; the
    `path:line` of each such line is recorded against the edge. */
module NamespaceMode {
  import opened Wrappers
  import opened Text
  import opened Dict
  import opened Graph
  import opened Patterns
  import opened Symbols
  import opened Scanner
  import opened Report

  /** One counted `using` line: the importing namespace, the imported one
      and where the line is. */
  datatype Use = Use(ns: string, target: string, loc: string)

  /** The use line `l` of a unit of namespace `ns` at `path` records, if any. */
  function UseOn(lex: Lexer, ns: string, path: string, l: (nat, string)): (r: Option<Use>)
    ensures r.Some? <==> (lex.usingLine(Strip(l.1)).Some? && !IsFramework(lex.usingLine(Strip(l.1)).value)
      && lex.usingLine(Strip(l.1)).value != ns)
    ensures r.Some? ==> (r.value.ns == ns && r.value.target == lex.usingLine(Strip(l.1)).value
      && r.value.loc == path + ":" + NatToString(l.0))
  {
    match lex.usingLine(Strip(l.1))
    case None => None
    case Some(t) =>
      if !IsFramework(t) && t != ns then Some(Use(ns, t, path + ":" + NatToString(l.0))) else None
  }

  /** The uses recorded from the numbered lines `ls`, in line order. */
  function UsesOf(lex: Lexer, ns: string, path: string, ls: seq<(nat, string)>): (us: seq<Use>)
    ensures |us| <= |ls|
    ensures forall x :: x in us <==> exists k :: 0 <= k < |ls| && UseOn(lex, ns, path, ls[k]) == Some(x)
    decreases |ls|
  {
    if |ls| == 0 then []
    else
      var rest := UsesOf(lex, ns, path, ls[1..]);
      assert forall k :: 1 <= k < |ls| ==> ls[k] == ls[1..][k - 1];
      match UseOn(lex, ns, path, ls[0])
      case None => rest
      case Some(x) => [x] + rest
  }

  /** The uses of one unit: none when it declares no namespace. */
  function UsesIn(lex: Lexer, u: Unit): (us: seq<Use>)
    ensures lex.namespaceIn(u.content).None? ==> us == []
    ensures forall x :: x in us ==> x.target != x.ns && !IsFramework(x.target)
  {
    match lex.namespaceIn(u.content)
    case None => []
    case Some(ns) => UsesOf(lex, ns, u.path, Numbered(Lines(u)))
  }

  /** The uses of each unit. */
  function PerUnit(units: seq<Unit>, lex: Lexer): (uss: seq<seq<Use>>)
    ensures |uss| == |units| && forall i :: 0 <= i < |units| ==> uss[i] == UsesIn(lex, units[i])
  {
    seq(|units|, i requires 0 <= i < |units| => UsesIn(lex, units[i]))
  }

  function Concat(uss: seq<seq<Use>>): (us: seq<Use>)
    ensures forall x :: x in us <==> exists i :: 0 <= i < |uss| && x in uss[i]
    decreases |uss|
  {
    if |uss| == 0 then []
    else
      var before := Concat(uss[..|uss| - 1]);
      assert forall i :: 0 <= i < |uss| - 1 ==> uss[..|uss| - 1][i] == uss[i];
      before + uss[|uss| - 1]
  }

  /** The uses of all units, in unit order and line order. */
  function AllUses(units: seq<Unit>, lex: Lexer): (us: seq<Use>)
    ensures forall x :: x in us <==> exists i :: 0 <= i < |units| && x in UsesIn(lex, units[i])
  {
    Concat(PerUnit(units, lex))
  }

  /** `namespace_usings`: namespace, then imported namespace, then the
      locations, both levels in first-insertion order. */
  type Usings = Dict<Dict<seq<string>>>

  /** Every inner dictionary is well formed and non-empty, and every
      location list is non-empty. */
  predicate Tidy(o: Usings) {
    && Valid(o)
    && (forall ns :: ns in o.m ==> Valid(o.m[ns]) && |o.m[ns].keys| > 0)
    && (forall ns, t :: ns in o.m && t in o.m[ns].m ==> |o.m[ns].m[t]| > 0)
  }

  /** There is an entry for `ns` importing `t`. */
  predicate Has(o: Usings, ns: string, t: string) {
    ns in o.m && t in o.m[ns].m
  }

  /** The locations recorded for `ns` importing `t`. */
  function Files(o: Usings, ns: string, t: string): seq<string> {
    if Has(o, ns, t) then o.m[ns].m[t] else []
  }

  /** `namespace_usings[x.ns][x.target].append(x.loc)`. */
  function Add(o: Usings, x: Use): (r: Usings)
    requires Tidy(o)
    ensures Tidy(r)
    ensures forall ns :: ns in r.m <==> ns in o.m || ns == x.ns
    ensures forall ns, t :: Has(r, ns, t) <==> Has(o, ns, t) || (ns == x.ns && t == x.target)
    ensures forall ns, t :: Files(r, ns, t) == Files(o, ns, t) + (if ns == x.ns && t == x.target then [x.loc] else [])
  {
    var inner := Append(Get(o, x.ns, Empty()), x.target, [x.loc]);
    Put(o, x.ns, inner)
  }

  /** The first pass over `uses`, in order. */
  function Collect(uses: seq<Use>): (o: Usings)
    ensures Tidy(o)
    decreases |uses|
  {
    if |uses| == 0 then Empty() else Add(Collect(uses[..|uses| - 1]), uses[|uses| - 1])
  }

  /** Reference definition: the locations of the uses of `t` by `ns`, in order. */
  function Locs(uses: seq<Use>, ns: string, t: string): (ls: seq<string>)
    ensures |ls| == 0 <==> forall x :: x in uses ==> !(x.ns == ns && x.target == t)
    ensures forall l :: l in ls <==> Use(ns, t, l) in uses
    decreases |uses|
  {
    if |uses| == 0 then []
    else
      var x := uses[|uses| - 1];
      var before := Locs(uses[..|uses| - 1], ns, t);
      assert forall y :: y in uses <==> y in uses[..|uses| - 1] || y == x;
      before + (if x.ns == ns && x.target == t then [x.loc] else [])
  }

  /** The first pass records, for every pair, exactly the locations of
      its uses, in order; a pair has an entry iff it has a use. */
  lemma {:induction false} CollectFiles(uses: seq<Use>, ns: string, t: string)
    ensures Files(Collect(uses), ns, t) == Locs(uses, ns, t)
    ensures Has(Collect(uses), ns, t) <==> |Locs(uses, ns, t)| > 0
    decreases |uses|
  {
    if |uses| > 0 {
      CollectFiles(uses[..|uses| - 1], ns, t);
    }
  }

  /** One use adds its namespace to the keys and nothing else. */
  lemma CollectLastKey(uses: seq<Use>, ns: string)
    requires |uses| > 0
    ensures ns in Collect(uses).m <==> ns in Collect(uses[..|uses| - 1]).m || ns == uses[|uses| - 1].ns
  {
    assert Collect(uses) == Add(Collect(uses[..|uses| - 1]), uses[|uses| - 1]);
  }

  /** A namespace has an entry iff it imports something. */
  lemma {:induction false} CollectKeys(uses: seq<Use>, ns: string)
    ensures ns in Collect(uses).m <==> exists x :: x in uses && x.ns == ns
    decreases |uses|
  {
    if |uses| > 0 {
      var x, prefix := uses[|uses| - 1], uses[..|uses| - 1];
      CollectKeys(prefix, ns);
      CollectLastKey(uses, ns);
      if ns in Collect(prefix).m {
        var y :| y in prefix && y.ns == ns;
        assert y in uses;
      } else if ns == x.ns {
        assert x in uses;
      } else {
        forall y | y in uses
          ensures y.ns != ns
        {
          if y != x {
            assert y in prefix;
          }
        }
      }
    }
  }

  /** `[(target, files) for target, files in targets.items()]`. */
  function DetailsFor(inner: Dict<seq<string>>): (ds: seq<Detail>)
    ensures |ds| == |inner.keys|
  {
    seq(|inner.keys|, i requires 0 <= i < |inner.keys| => Detail(inner.keys[i], Get(inner, inner.keys[i], [])))
  }

  /** The second pass: `dependencies[ns]` lists the imported namespaces in
      first-import order and `dependency_details[ns]` pairs each with its
      locations. */
  function Build(o: Usings): (r: (Graph, Details))
    requires Tidy(o)
    ensures Valid(r.0) && Valid(r.1) && r.0.keys == o.keys && r.1.keys == o.keys
  {
    var deps := map ns | ns in o.m :: o.m[ns].keys;
    var details := map ns | ns in o.m :: DetailsFor(o.m[ns]);
    (Dict(o.keys, deps), Dict(o.keys, details))
  }

  /** The targets of a namespace are its imports in order, each once, and
      its details pair each target, in the same order, with its locations. */
  lemma BuildShape(o: Usings, ns: string)
    requires Tidy(o) && ns in o.m
    ensures var r := Build(o);
      && ns in r.0.m && ns in r.1.m
      && Distinct(r.0.m[ns]) && |r.0.m[ns]| > 0
      && (forall t :: t in r.0.m[ns] <==> Has(o, ns, t))
      && |r.1.m[ns]| == |r.0.m[ns]|
      && (forall i :: 0 <= i < |r.1.m[ns]| ==>
            r.1.m[ns][i].target == r.0.m[ns][i] && r.1.m[ns][i].reasons == Files(o, ns, r.0.m[ns][i]))
  {
    var inner := o.m[ns];
    assert forall t :: t in inner.m <==> t in inner.keys;
  }

  /** `analyze_namespace_dependencies()` over `units`. */
  function AnalyzeNamespaces(units: seq<Unit>, lex: Lexer): (r: (Graph, Details))
    ensures Valid(r.0) && Valid(r.1) && r.0.keys == r.1.keys
  {
    Build(Collect(AllUses(units, lex)))
  }

  /** A namespace is a node with a target iff some unit of that namespace
      has a `using` line for it that is neither a framework namespace nor
      the namespace itself. */
  lemma NamespaceEdge(units: seq<Unit>, lex: Lexer, ns: string, t: string)
    ensures var g := AnalyzeNamespaces(units, lex).0;
      (ns in g.m && t in g.m[ns]) <==> exists x :: x in AllUses(units, lex) && x.ns == ns && x.target == t
  {
    var uses := AllUses(units, lex);
    var o := Collect(uses);
    CollectFiles(uses, ns, t);
    CollectKeys(uses, ns);
    if ns in o.m {
      BuildShape(o, ns);
    }
  }

  /** A use of a unit comes from one of its lines, numbered from 1, when
      the unit declares a namespace. */
  lemma UsesInSpec(lex: Lexer, u: Unit, x: Use)
    ensures x in UsesIn(lex, u) <==>
      (lex.namespaceIn(u.content).Some? && exists k :: (0 <= k < |Lines(u)| &&
        UseOn(lex, lex.namespaceIn(u.content).value, u.path, (k + 1, Lines(u)[k])) == Some(x)))
  {
    var ls := Numbered(Lines(u));
    if lex.namespaceIn(u.content).Some? {
      assert forall k :: 0 <= k < |Lines(u)| ==> ls[k] == (k + 1, Lines(u)[k]);
    }
  }

  /** Every use imports a namespace other than its own, and not a
      framework one. */
  predicate Clean(uses: seq<Use>) {
    forall x :: x in uses ==> x.target != x.ns && !IsFramework(x.target)
  }

  lemma AllUsesClean(units: seq<Unit>, lex: Lexer)
    ensures Clean(AllUses(units, lex))
  {
    forall x | x in AllUses(units, lex)
      ensures x.target != x.ns && !IsFramework(x.target)
    {
      var i :| 0 <= i < |units| && x in UsesIn(lex, units[i]);
    }
  }

  /** What holds of the entry of one namespace of the first pass. */
  lemma BuiltEntry(uses: seq<Use>, ns: string)
    requires Clean(uses) && ns in Collect(uses).m
    ensures var r := Build(Collect(uses));
      && ns in r.0.m && ns in r.1.m && ns !in r.0.m[ns] && |r.0.m[ns]| > 0 && Distinct(r.0.m[ns])
      && (forall t :: t in r.0.m[ns] ==> !IsFramework(t))
      && (forall t :: t in r.0.m[ns] ==> exists i :: 0 <= i < |r.1.m[ns]| && r.1.m[ns][i].target == t)
      && (forall i :: 0 <= i < |r.1.m[ns]| ==> |r.1.m[ns][i].reasons| > 0 && r.1.m[ns][i].target in r.0.m[ns])
  {
    var o := Collect(uses);
    var r := Build(o);
    BuildShape(o, ns);
    forall t | t in r.0.m[ns]
      ensures t != ns && !IsFramework(t)
    {
      CollectFiles(uses, ns, t);
      var l := Locs(uses, ns, t)[0];
      assert Use(ns, t, l) in uses;
    }
    forall t | t in r.0.m[ns]
      ensures exists i :: 0 <= i < |r.1.m[ns]| && r.1.m[ns][i].target == t
    {
      var i :| 0 <= i < |r.0.m[ns]| && r.0.m[ns][i] == t;
      assert r.1.m[ns][i].target == t;
    }
  }

  /** The namespace graph never has a self-edge or a framework target,
      every namespace present imports at least one namespace, each target
      occurs once and has a detail entry, and the details mention only
      targets of the graph. */
  lemma NamespaceReport(units: seq<Unit>, lex: Lexer)
    ensures var r := AnalyzeNamespaces(units, lex);
      && NoSelfEdges(r.0) && Explained(r.0, r.1) && Substantiated(r.1) && WithinEdges(r.0, r.1)
      && (forall ns :: ns in r.0.m ==> |r.0.m[ns]| > 0 && Distinct(r.0.m[ns]))
      && (forall ns, t :: ns in r.0.m && t in r.0.m[ns] ==> !IsFramework(t))
  {
    var uses := AllUses(units, lex);
    AllUsesClean(units, lex);
    forall ns | ns in Collect(uses).m {
      BuiltEntry(uses, ns);
    }
  }

  /** The locations against an edge are exactly the `path:line` of the
      uses behind it, in unit order and line order. */
  lemma NamespaceFiles(units: seq<Unit>, lex: Lexer, ns: string, i: nat)
    requires var r := AnalyzeNamespaces(units, lex); ns in r.1.m && i < |r.1.m[ns]|
    ensures var d := AnalyzeNamespaces(units, lex).1.m[ns][i];
      d.reasons == Locs(AllUses(units, lex), ns, d.target)
  {
    var uses := AllUses(units, lex);
    var o := Collect(uses);
    BuildShape(o, ns);
    CollectFiles(uses, ns, Build(o).1.m[ns][i].target);
  }
}
