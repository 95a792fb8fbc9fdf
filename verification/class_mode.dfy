/** `analyze_class_dependencies`: the first pass builds the class table;
    the second pass scans, for every class declared in each unit, the body
    of that class for usages of every other class in the table. */
module ClassMode {
  import opened Wrappers
  import opened Dict
  import opened Graph
  import opened Patterns
  import opened Scope
  import opened Symbols
  import opened Scanner
  import opened References
  import opened SecondPass
  import opened Report

  /** What the class-mode result keeps true after every step: a symbol has
      details iff it has dependencies, it never depends on itself, each
      edge is explained by a detail entry with reasons and each detail
      entry belongs to an edge, no detail list names a target twice, and
      only classes with at least one target
      are present. */
  ghost predicate ClassInv(deps: Graph, details: Details) {
    && Valid(deps) && Valid(details)
    && NoSelfEdges(deps) && Explained(deps, details) && Substantiated(details) && WithinEdges(deps, details)
    && Unrepeated(details)
    && (forall k :: k in deps.m <==> k in details.m)
    && (forall k :: k in deps.m ==> |deps.m[k]| > 0)
  }

  /** `full` is the qualified name of an entry of `table`. */
  ghost predicate QualifiedIn(table: ClassTable, full: string) {
    exists o :: o in table.m && table.m[o].fullName == full
  }

  /** Every source and every target is the qualified name of a table entry. */
  ghost predicate Known(deps: Graph, table: ClassTable) {
    && (forall k :: k in deps.m ==> QualifiedIn(table, k))
    && (forall k, t :: k in deps.m && t in deps.m[k] ==> QualifiedIn(table, t))
  }

  /** `[c[0] for c in current_file_classes]`. */
  function ShortNames(current: seq<(string, string)>): (ns: seq<string>)
    ensures |ns| == |current| && forall i :: 0 <= i < |ns| ==> ns[i] == current[i].0
  {
    seq(|current|, i requires 0 <= i < |current| => current[i].0)
  }

  /** The scan of class `cn` of unit `u`, qualified `full`: the class
      catalog over the class's own scope, with the unit's classes as
      co-located names. */
  function ClassScanOf(lex: Lexer, table: ClassTable, u: Unit, current: seq<(string, string)>, cn: string, full: string): Scan {
    Scan(lex, table, full, NamespaceOr(lex, u), CustomUsings(lex, u.content), ClassCatalog,
      ExtractClassScope(Lines(u), cn, lex), u.path, ShortNames(current))
  }

  /** Storing a non-empty target list without `full` itself, with details
      that explain exactly those targets, keeps the invariant. */
  lemma PutKeepsInv(deps: Graph, details: Details, full: string, d: seq<string>, ds: seq<Detail>)
    requires ClassInv(deps, details)
    requires |d| > 0 && full !in d
    requires forall i :: 0 <= i < |ds| ==> ds[i].target in d && |ds[i].reasons| > 0
    requires forall t :: t in d ==> exists i :: 0 <= i < |ds| && ds[i].target == t
    requires OnePerTarget(ds)
    ensures ClassInv(Put(deps, full, d), Put(details, full, ds))
  {
    var deps', details' := Put(deps, full, d), Put(details, full, ds);
    PutExplained(deps, details, full, d, ds);
    forall k | k in deps'.m
      ensures k !in deps'.m[k] && |deps'.m[k]| > 0
    {
      if k != full {
        assert deps'.m[k] == deps.m[k];
      }
    }
    forall k, i | k in details'.m && 0 <= i < |details'.m[k]|
      ensures |details'.m[k][i].reasons| > 0 && k in deps'.m && details'.m[k][i].target in deps'.m[k]
    {
      if k != full {
        assert details'.m[k] == details.m[k] && deps'.m[k] == deps.m[k];
      }
    }
  }

  /** One class of the second pass: when it refers to anything,
      `dependencies[full]` and `dependency_details[full]` are replaced by
      its deduplicated targets and its details, whatever an earlier unit
      stored; a class that finds nothing leaves both alone. */
  function ClassStep(f: Outcome, deps: Graph, details: Details): (r: (Graph, Details))
    requires Valid(deps) && Valid(details)
    ensures Valid(r.0) && Valid(r.1)
    ensures |f.targets| == 0 ==> r == (deps, details)
    ensures |f.targets| > 0 ==> f.full in r.0.m && f.full in r.1.m && r.0.m[f.full] == Dedup(f.targets) && r.1.m[f.full] == f.details
    ensures forall k :: k != f.full ==> (k in r.0.m <==> k in deps.m) && (k in r.1.m <==> k in details.m)
    ensures forall k :: k != f.full && k in deps.m ==> r.0.m[k] == deps.m[k]
    ensures forall k :: k != f.full && k in details.m ==> r.1.m[k] == details.m[k]
  {
    if |f.targets| > 0 then (Put(deps, f.full, Dedup(f.targets)), Put(details, f.full, f.details))
    else (deps, details)
  }

  /** A class step keeps the invariant. */
  lemma ClassStepInv(f: Outcome, deps: Graph, details: Details)
    requires Fits(f) && ClassInv(deps, details)
    ensures ClassInv(ClassStep(f, deps, details).0, ClassStep(f, deps, details).1)
  {
    if |f.targets| > 0 {
      PutKeepsInv(deps, details, f.full, Dedup(f.targets), f.details);
    }
  }

  /** The scans of the second pass over one unit: one per class of the
      table that the unit declares, in table order. */
  function UnitScans(lex: Lexer, table: ClassTable, u: Unit): (cs: seq<Scan>)
    requires Valid(table)
    ensures var current := DeclaredHere(lex, table, NamespaceOr(lex, u), u.content);
      && |cs| == |current|
      && forall i :: 0 <= i < |cs| ==> cs[i] == ClassScanOf(lex, table, u, current, current[i].0, current[i].1)
  {
    var current := DeclaredHere(lex, table, NamespaceOr(lex, u), u.content);
    seq(|current|, i requires 0 <= i < |current| => ClassScanOf(lex, table, u, current, current[i].0, current[i].1))
  }

  /** Every scan scans a qualified name of `table`. */
  ghost predicate Named(table: ClassTable, cs: seq<Scan>) {
    forall i :: 0 <= i < |cs| ==> QualifiedIn(table, cs[i].full)
  }

  /** The scans of the second pass, unit after unit: every scan is the
      scan of a class that some unit declares, over the table. */
  function ClassScans(lex: Lexer, table: ClassTable, units: seq<Unit>): (cs: seq<Scan>)
    requires Valid(table)
    ensures Over(table, cs) && Named(table, cs)
    decreases |units|
  {
    if |units| == 0 then []
    else
      var before := ClassScans(lex, table, units[..|units| - 1]);
      var u := units[|units| - 1];
      var current := DeclaredHere(lex, table, NamespaceOr(lex, u), u.content);
      var more := UnitScans(lex, table, u);
      MoreNamed(lex, table, before, u);
      before + more
  }

  /** The scans of a unit scan qualified names of the table. */
  lemma MoreNamed(lex: Lexer, table: ClassTable, before: seq<Scan>, u: Unit)
    requires Valid(table) && Over(table, before) && Named(table, before)
    ensures Over(table, before + UnitScans(lex, table, u)) && Named(table, before + UnitScans(lex, table, u))
  {
    var current := DeclaredHere(lex, table, NamespaceOr(lex, u), u.content);
    var more := UnitScans(lex, table, u);
    var cs := before + more;
    forall i | 0 <= i < |cs|
      ensures QualifiedIn(table, cs[i].full)
    {
      if i >= |before| {
        var p := current[i - |before|];
        assert p in current;
        assert cs[i] == more[i - |before|];
        assert p.0 in table.m && table.m[p.0].fullName == cs[i].full;
      } else {
        assert cs[i] == before[i];
      }
    }
    assert Over(table, cs);
  }

  /** The second pass over the outcomes `fs[..n]`, in order. */
  function ClassSteps(fs: seq<Outcome>, n: nat): (r: (Graph, Details))
    requires n <= |fs|
    ensures Valid(r.0) && Valid(r.1)
  {
    if n == 0 then (Empty(), Empty())
    else
      var before := ClassSteps(fs, n - 1);
      ClassStep(fs[n - 1], before.0, before.1)
  }

  /** The second pass keeps the invariant. */
  lemma {:induction false} ClassStepsInv(fs: seq<Outcome>, n: nat)
    requires n <= |fs| && forall i :: 0 <= i < |fs| ==> Fits(fs[i])
    ensures ClassInv(ClassSteps(fs, n).0, ClassSteps(fs, n).1)
  {
    if n > 0 {
      var before := ClassSteps(fs, n - 1);
      ClassStepsInv(fs, n - 1);
      ClassStepInv(fs[n - 1], before.0, before.1);
    }
  }

  /** The entries of `k` after the outcomes `fs[..n]` are those of its
      last outcome with targets, and there are none when it has none. */
  lemma {:induction false} ClassStepsLast(fs: seq<Outcome>, n: nat, k: string)
    requires n <= |fs|
    ensures var r, f := ClassSteps(fs, n), LastFind(fs, n, k);
      && (k in r.0.m <==> f.Some?) && (k in r.1.m <==> f.Some?)
      && (f.Some? ==> r.0.m[k] == Dedup(fs[f.value].targets) && r.1.m[k] == fs[f.value].details)
  {
    if n > 0 {
      var before := ClassSteps(fs, n - 1);
      assert ClassSteps(fs, n) == ClassStep(fs[n - 1], before.0, before.1);
      ClassStepsLast(fs, n - 1, k);
      if fs[n - 1].full == k && |fs[n - 1].targets| > 0 {
        assert LastFind(fs, n, k) == Some(n - 1);
      } else {
        assert LastFind(fs, n, k) == LastFind(fs, n - 1, k);
      }
    }
  }

  /** `analyze_class_dependencies()` over `units`: the graph, the class
      table and the details.  No class depends on itself, every edge runs
      between qualified names of the table and carries reasons, and every
      class present has at least one target. */
  function AnalyzeClasses(units: seq<Unit>, lex: Lexer): (r: (Graph, ClassTable, Details))
    ensures ClassInv(r.0, r.2) && Known(r.0, r.1)
    ensures r.1 == ClassTableOf(units, lex)
  {
    var table := ClassTableOf(units, lex);
    var cs := ClassScans(lex, table, units);
    var fs := Outcomes(table, cs);
    var res := ClassSteps(fs, |fs|);
    ClassStepsInv(fs, |fs|);
    ClassesKnown(table, cs, fs);
    (res.0, table, res.1)
  }

  /** A source of the class graph and each of its targets are qualified
      names of the table. */
  lemma KnownAt(table: ClassTable, cs: seq<Scan>, fs: seq<Outcome>, k: string, t: string)
    requires Valid(table) && Over(table, cs) && Named(table, cs) && fs == Outcomes(table, cs)
    requires k in ClassSteps(fs, |fs|).0.m
    ensures QualifiedIn(table, k)
    ensures t in ClassSteps(fs, |fs|).0.m[k] ==> QualifiedIn(table, t)
  {
    ClassStepsLast(fs, |fs|, k);
    var i := LastFind(fs, |fs|, k).value;
    assert fs[i] == OutcomeOf(cs[i]);
    assert cs[i].full == k;
    if t in ClassSteps(fs, |fs|).0.m[k] {
      assert t in Targets(cs[i]);
      TargetsSpec(cs[i], t);
    }
  }

  /** Every source and target of the class graph is a qualified name of
      the table. */
  lemma ClassesKnown(table: ClassTable, cs: seq<Scan>, fs: seq<Outcome>)
    requires Valid(table) && Over(table, cs) && Named(table, cs) && fs == Outcomes(table, cs)
    ensures Known(ClassSteps(fs, |fs|).0, table)
  {
    var g := ClassSteps(fs, |fs|).0;
    forall k | k in g.m
      ensures QualifiedIn(table, k)
    {
      KnownAt(table, cs, fs, k, k);
    }
    forall k, t | k in g.m && t in g.m[k]
      ensures QualifiedIn(table, t)
    {
      KnownAt(table, cs, fs, k, t);
    }
  }

  /** The edges of the class graph: a class is a source iff one of its
      scans finds something, and then its targets are exactly the
      qualified names of the entries its last such scan refers to, and its
      details are that scan's. */
  lemma ClassEdges(units: seq<Unit>, lex: Lexer, k: string, t: string)
    ensures var r := AnalyzeClasses(units, lex);
      var cs := ClassScans(lex, r.1, units);
      && (k in r.0.m <==> exists i :: 0 <= i < |cs| && cs[i].full == k && |Targets(cs[i])| > 0)
      && (k in r.0.m ==> exists i :: (LastFinding(r.1, cs, k, i) && r.2.m[k] == ScanDetails(cs[i])
            && (t in r.0.m[k] <==> exists o :: o in r.1.m && RefersTo(cs[i], o) && r.1.m[o].fullName == t)))
  {
    var table := ClassTableOf(units, lex);
    var cs := ClassScans(lex, table, units);
    var fs := Outcomes(table, cs);
    var r := AnalyzeClasses(units, lex);
    assert r.0 == ClassSteps(fs, |fs|).0 && r.1 == table && r.2 == ClassSteps(fs, |fs|).1;
    var f := LastFind(fs, |fs|, k);
    ClassStepsLast(fs, |fs|, k);
    LastFindIsLast(table, cs, k);
    if f.Some? {
      var i := f.value;
      assert fs[i] == OutcomeOf(cs[i]);
      TargetsSpec(cs[i], t);
      assert t in r.0.m[k] <==> t in Targets(cs[i]);
      assert LastFinding(r.1, cs, k, i) && r.2.m[k] == ScanDetails(cs[i]);
      assert 0 <= i < |cs| && cs[i].full == k && |Targets(cs[i])| > 0;
    }
  }
}
