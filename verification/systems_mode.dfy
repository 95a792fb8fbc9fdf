/** `analyze_systems_only`: the first pass finds the system classes of
    every unit; the second pass scans, for every system declared in each
    unit, the whole unit for usages of every other system, and every system
    found ends up as a node even when it depends on nothing. */
module SystemsMode {
  import opened Wrappers
  import opened Dict
  import opened Graph
  import opened Patterns
  import opened Symbols
  import opened Scanner
  import opened References
  import opened SecondPass
  import opened Report

  /** What the systems-mode result keeps true after every step: no
      self-edges, distinct targets, and every edge explained by a detail
      with reasons.  Unlike
      the class mode, a detail entry may outlive its edges: a later unit
      that declares the same system with no targets empties
      `dependencies[full]` but leaves `dependency_details[full]` alone. */
  predicate SystemsInv(deps: Graph, details: Details) {
    && Valid(deps) && Valid(details)
    && NoSelfEdges(deps) && Explained(deps, details) && Substantiated(details)
    && (forall k :: k in deps.m ==> Distinct(deps.m[k]))
  }

  /** Every node and every target is one of the systems in `all`. */
  predicate Among(deps: Graph, all: seq<string>) {
    forall k :: k in deps.m ==> k in all && forall t :: t in deps.m[k] ==> t in all
  }

  /** The scan of system `full` of unit `u`: the system catalog over every
      line of the unit, with no co-location guard. */
  function SystemScanOf(lex: Lexer, table: ClassTable, u: Unit, full: string): (c: Scan)
    ensures c.lines == Numbered(Lines(u)) && c.colocated == [] && c.catalog == SystemCatalog
  {
    Scan(lex, table, full, NamespaceOr(lex, u), CustomUsings(lex, u.content), SystemCatalog,
      Numbered(Lines(u)), u.path, [])
  }

  /** Without co-located names, a system is admitted exactly when it is
      another system whose namespace is visible from the unit. */
  lemma AdmittedWithoutGuard(lex: Lexer, table: ClassTable, u: Unit, full: string, o: string)
    requires o in table.m
    ensures Admitted(SystemScanOf(lex, table, u, full), o) <==>
      (table.m[o].fullName != full && Visible(table.m[o].namespace, NamespaceOr(lex, u), CustomUsings(lex, u.content)))
  {
  }

  /** Storing new distinct targets and their details keeps the invariant. */
  lemma PutKeepsInv(deps: Graph, details: Details, full: string, d: seq<string>, ds: seq<Detail>)
    requires SystemsInv(deps, details)
    requires Distinct(d) && full !in d
    requires forall i :: 0 <= i < |ds| ==> |ds[i].reasons| > 0
    requires forall t :: t in d ==> exists i :: 0 <= i < |ds| && ds[i].target == t
    ensures SystemsInv(Put(deps, full, d), Put(details, full, ds))
  {
    PutExplained(deps, details, full, d, ds);
  }

  /** Emptying the targets of a system keeps the invariant. */
  lemma PutEmptyKeepsInv(deps: Graph, details: Details, full: string)
    requires SystemsInv(deps, details)
    ensures SystemsInv(Put(deps, full, []), details)
  {
    PutEmptyExplained(deps, details, full);
  }

  /** What `dependencies[full]` is set to by the outcome `f`. */
  function Stored(f: Outcome): seq<string> {
    if |f.targets| > 0 then Dedup(f.targets) else []
  }

  /** The scans of the second pass over one unit: one per system of the
      table that the unit declares, in table order. */
  function UnitScans(lex: Lexer, table: ClassTable, u: Unit): (cs: seq<Scan>)
    requires Valid(table)
    ensures var current := DeclaredHere(lex, table, NamespaceOr(lex, u), u.content);
      && |cs| == |current|
      && forall i :: 0 <= i < |cs| ==> cs[i] == SystemScanOf(lex, table, u, current[i].1)
  {
    var current := DeclaredHere(lex, table, NamespaceOr(lex, u), u.content);
    seq(|current|, i requires 0 <= i < |current| => SystemScanOf(lex, table, u, current[i].1))
  }

  /** Every scan scans a system of `all`. */
  ghost predicate ScansAmong(cs: seq<Scan>, all: seq<string>) {
    forall i :: 0 <= i < |cs| ==> cs[i].full in all
  }

  /** The scans of the second pass, unit after unit. */
  function SystemScans(lex: Lexer, table: ClassTable, all: seq<string>, units: seq<Unit>): (cs: seq<Scan>)
    requires Valid(table) && forall o :: o in table.m ==> table.m[o].fullName in all
    ensures Over(table, cs) && ScansAmong(cs, all)
    decreases |units|
  {
    if |units| == 0 then []
    else
      var before := SystemScans(lex, table, all, units[..|units| - 1]);
      MoreAmong(lex, table, all, before, units[|units| - 1]);
      before + UnitScans(lex, table, units[|units| - 1])
  }

  /** The scans of a unit scan systems of `all`. */
  lemma MoreAmong(lex: Lexer, table: ClassTable, all: seq<string>, before: seq<Scan>, u: Unit)
    requires Valid(table) && forall o :: o in table.m ==> table.m[o].fullName in all
    requires Over(table, before) && ScansAmong(before, all)
    ensures Over(table, before + UnitScans(lex, table, u)) && ScansAmong(before + UnitScans(lex, table, u), all)
  {
    var current := DeclaredHere(lex, table, NamespaceOr(lex, u), u.content);
    var more := UnitScans(lex, table, u);
    var cs := before + more;
    forall i | 0 <= i < |cs|
      ensures cs[i].table == table && cs[i].full in all
    {
      if i >= |before| {
        var p := current[i - |before|];
        assert p in current;
        assert cs[i] == more[i - |before|];
      } else {
        assert cs[i] == before[i];
      }
    }
  }

  /** The map of `dependencies` after the outcomes `fs[..n]`, stripped of
      its key order: every system scanned is overwritten by its outcome. */
  ghost function TargetsMap(fs: seq<Outcome>, n: nat): map<string, seq<string>>
    requires n <= |fs|
  {
    if n == 0 then map[] else TargetsMap(fs, n - 1)[fs[n - 1].full := Stored(fs[n - 1])]
  }

  /** The map of `dependency_details` after the outcomes `fs[..n]`: only
      outcomes with targets overwrite. */
  ghost function DetailsMap(fs: seq<Outcome>, n: nat): map<string, seq<Detail>>
    requires n <= |fs|
  {
    if n == 0 then map[]
    else if |fs[n - 1].targets| > 0 then DetailsMap(fs, n - 1)[fs[n - 1].full := fs[n - 1].details]
    else DetailsMap(fs, n - 1)
  }

  /** `dependencies` after the outcomes `fs[..n]`: `dependencies[full]` is
      replaced for every system scanned, by the distinct targets or by the
      empty list. */
  function GraphSteps(fs: seq<Outcome>, n: nat): (g: Graph)
    requires n <= |fs|
    ensures Valid(g)
  {
    if n == 0 then Empty() else Put(GraphSteps(fs, n - 1), fs[n - 1].full, Stored(fs[n - 1]))
  }

  /** `dependency_details` after the outcomes `fs[..n]`: replaced only for
      systems whose scan found something. */
  function DetailSteps(fs: seq<Outcome>, n: nat): (d: Details)
    requires n <= |fs|
    ensures Valid(d)
  {
    if n == 0 then Empty()
    else if |fs[n - 1].targets| > 0 then Put(DetailSteps(fs, n - 1), fs[n - 1].full, fs[n - 1].details)
    else DetailSteps(fs, n - 1)
  }

  /** The outcome `fs[n - 1]` keeps the invariant. */
  lemma SystemStepsInvAt(fs: seq<Outcome>, n: nat)
    requires 0 < n <= |fs| && Fits(fs[n - 1])
    requires SystemsInv(GraphSteps(fs, n - 1), DetailSteps(fs, n - 1))
    ensures SystemsInv(GraphSteps(fs, n), DetailSteps(fs, n))
  {
    SystemStepInv(fs[n - 1], GraphSteps(fs, n - 1), DetailSteps(fs, n - 1), GraphSteps(fs, n), DetailSteps(fs, n));
  }

  /** The two folds compute those maps. */
  lemma {:induction false} StepsMaps(fs: seq<Outcome>, n: nat)
    requires n <= |fs|
    ensures GraphSteps(fs, n).m == TargetsMap(fs, n) && DetailSteps(fs, n).m == DetailsMap(fs, n)
  {
    if n > 0 {
      StepsMaps(fs, n - 1);
    }
  }

  /** One system of the second pass keeps the invariant: its targets,
      possibly none, replace its entry, and its details do so only when
      there are targets. */
  lemma SystemStepInv(f: Outcome, deps: Graph, details: Details, deps': Graph, details': Details)
    requires Fits(f) && SystemsInv(deps, details)
    requires deps' == Put(deps, f.full, Stored(f))
    requires details' == if |f.targets| > 0 then Put(details, f.full, f.details) else details
    ensures SystemsInv(deps', details')
  {
    if |f.targets| > 0 {
      PutKeepsInv(deps, details, f.full, Dedup(f.targets), f.details);
    } else {
      PutEmptyKeepsInv(deps, details, f.full);
    }
  }

  /** The details after the outcomes `fs[..n]` name each target at most
      once per system, since every stored list does. */
  lemma {:induction false} DetailStepsUnrepeated(fs: seq<Outcome>, n: nat)
    requires n <= |fs| && forall i :: 0 <= i < |fs| ==> OnePerTarget(fs[i].details)
    ensures Unrepeated(DetailSteps(fs, n))
  {
    if n > 0 {
      DetailStepsUnrepeated(fs, n - 1);
      if |fs[n - 1].targets| > 0 {
        PutUnrepeated(DetailSteps(fs, n - 1), fs[n - 1].full, fs[n - 1].details);
      }
    }
  }

  /** The second pass keeps the invariant. */
  lemma {:induction false} SystemStepsInv(fs: seq<Outcome>, n: nat)
    requires n <= |fs| && forall i {:trigger Fits(fs[i])} :: 0 <= i < |fs| ==> Fits(fs[i])
    ensures SystemsInv(GraphSteps(fs, n), DetailSteps(fs, n))
  {
    if n > 0 {
      SystemStepsInv(fs, n - 1);
      SystemStepsInvAt(fs, n);
    }
  }

  /** After the outcomes `fs[..n]`, a system is a node iff it was scanned,
      and its targets are those of its last scan, possibly none. */
  lemma {:induction false} TargetsMapLast(fs: seq<Outcome>, n: nat, k: string)
    requires n <= |fs|
    ensures var r, f := TargetsMap(fs, n), LastOf(fs, n, k);
      && (k in r <==> f.Some?)
      && (f.Some? ==> r[k] == Stored(fs[f.value]))
  {
    if n > 0 {
      TargetsMapLast(fs, n - 1, k);
      if fs[n - 1].full == k {
        assert LastOf(fs, n, k) == Some(n - 1);
      } else {
        assert LastOf(fs, n, k) == LastOf(fs, n - 1, k);
      }
    }
  }

  /** After the outcomes `fs[..n]`, a system has details iff some outcome
      of it has targets, and they are those of the last such outcome. */
  lemma {:induction false} DetailsMapLast(fs: seq<Outcome>, n: nat, k: string)
    requires n <= |fs|
    ensures var r, g := DetailsMap(fs, n), LastFind(fs, n, k);
      && (k in r <==> g.Some?)
      && (g.Some? ==> r[k] == fs[g.value].details)
  {
    if n > 0 {
      DetailsMapLast(fs, n - 1, k);
      if fs[n - 1].full == k && |fs[n - 1].targets| > 0 {
        assert LastFind(fs, n, k) == Some(n - 1);
      } else {
        assert LastFind(fs, n, k) == LastFind(fs, n - 1, k);
      }
    }
  }

  /** The second pass, by system: a node iff scanned, with the targets of
      its last scan; details iff some scan found something, with those of
      the last such scan. */
  lemma SystemStepsLast(fs: seq<Outcome>, k: string)
    ensures var d, e, f, g := GraphSteps(fs, |fs|), DetailSteps(fs, |fs|), LastOf(fs, |fs|, k), LastFind(fs, |fs|, k);
      && (k in d.m <==> f.Some?)
      && (f.Some? ==> d.m[k] == Stored(fs[f.value]))
      && (k in e.m <==> g.Some?)
      && (g.Some? ==> e.m[k] == fs[g.value].details)
  {
    StepsMaps(fs, |fs|);
    TargetsMapLast(fs, |fs|, k);
    DetailsMapLast(fs, |fs|, k);
  }

  /** Every outcome is of a system of `all`, and so is each of its targets. */
  ghost predicate OutcomesAmong(fs: seq<Outcome>, all: seq<string>) {
    forall i :: 0 <= i < |fs| ==> fs[i].full in all && forall t :: t in fs[i].targets ==> t in all
  }

  /** The outcomes of scans of systems of `all` against a table of systems
      of `all` stay among them. */
  lemma OutcomesOfAmong(table: ClassTable, all: seq<string>, cs: seq<Scan>)
    requires Valid(table) && forall o :: o in table.m ==> table.m[o].fullName in all
    requires Over(table, cs) && ScansAmong(cs, all)
    ensures OutcomesAmong(Outcomes(table, cs), all)
  {
    var fs := Outcomes(table, cs);
    forall i, t | 0 <= i < |fs| && t in fs[i].targets
      ensures t in all
    {
      assert fs[i] == OutcomeOf(cs[i]);
      TargetsSpec(cs[i], t);
    }
  }

  /** A node of the second pass and each of its targets are systems of
      `all`. */
  lemma AmongAt(fs: seq<Outcome>, all: seq<string>, k: string, t: string)
    requires OutcomesAmong(fs, all)
    requires k in GraphSteps(fs, |fs|).m
    ensures k in all
    ensures t in GraphSteps(fs, |fs|).m[k] ==> t in all
  {
    SystemStepsLast(fs, k);
    var i := LastOf(fs, |fs|, k).value;
    assert fs[i].full in all;
    if t in GraphSteps(fs, |fs|).m[k] {
      assert t in fs[i].targets;
    }
  }

  /** Every node and target of the second pass is a system of `all`. */
  lemma SystemsAmong(fs: seq<Outcome>, all: seq<string>)
    requires OutcomesAmong(fs, all)
    ensures Among(GraphSteps(fs, |fs|), all)
  {
    var g := GraphSteps(fs, |fs|);
    forall k | k in g.m
      ensures k in all && forall t :: t in g.m[k] ==> t in all
    {
      forall t | t in g.m[k]
        ensures t in all
      {
        AmongAt(fs, all, k, t);
      }
      AmongAt(fs, all, k, k);
    }
  }

  /** The final loop: every system not yet a node becomes one with no
      targets; nodes already present keep their targets. */
  function AddStandalone(all: seq<string>, deps: Graph): (r: Graph)
    requires Valid(deps)
    ensures Valid(r)
    ensures forall k :: k in r.m <==> k in deps.m || k in all
    ensures forall k :: k in deps.m ==> r.m[k] == deps.m[k]
    ensures forall k :: k in r.m && k !in deps.m ==> r.m[k] == []
  {
    if |all| == 0 then deps
    else
      var next := if all[0] in deps.m then deps else Put(deps, all[0], []);
      assert next.m == if all[0] in deps.m then deps.m else deps.m[all[0] := []];
      var rest := AddStandalone(all[1..], next);
      assert forall k :: k in all <==> k == all[0] || k in all[1..];
      assert forall k :: k in deps.m ==> k in next.m && next.m[k] == deps.m[k];
      rest
  }

  /** The outcomes of the second pass over `units`: one per system that
      each unit declares, unit after unit. */
  function SystemOutcomes(units: seq<Unit>, lex: Lexer): (fs: seq<Outcome>)
    ensures OutcomesAmong(fs, SystemTableOf(units, lex).1)
    ensures forall i :: 0 <= i < |fs| ==> Fits(fs[i])
  {
    var found := SystemTableOf(units, lex);
    var cs := SystemScans(lex, found.0, found.1, units);
    OutcomesOfAmong(found.0, found.1, cs);
    Outcomes(found.0, cs)
  }

  /** `analyze_systems_only()` over `units`: the graph, the systems found
      and the details.  The nodes are exactly the systems found, every
      target is one of them, no system depends on itself, each target
      occurs once, every edge carries reasons and no detail list names a
      target twice. */
  function AnalyzeSystems(units: seq<Unit>, lex: Lexer): (r: (Graph, seq<string>, Details))
    ensures SystemsInv(r.0, r.2) && Among(r.0, r.1) && Unrepeated(r.2)
    ensures forall s :: s in r.0.m <==> s in r.1
    ensures r.1 == SystemTableOf(units, lex).1
  {
    var all := SystemTableOf(units, lex).1;
    var fs := SystemOutcomes(units, lex);
    var g, d := GraphSteps(fs, |fs|), DetailSteps(fs, |fs|);
    SystemStepsInv(fs, |fs|);
    DetailStepsUnrepeated(fs, |fs|);
    SystemsAmong(fs, all);
    var deps := AddStandalone(all, g);
    assert Explained(deps, d) by {
      forall k, t | k in deps.m && t in deps.m[k]
        ensures k in d.m && exists i :: 0 <= i < |d.m[k]| && d.m[k][i].target == t
      {
        assert k in g.m;
      }
    }
    (deps, all, d)
  }

  /** The parts `analyze_systems_only()` assembles its result from. */
  lemma SystemsParts(units: seq<Unit>, lex: Lexer)
    ensures var found, fs, r := SystemTableOf(units, lex), SystemOutcomes(units, lex), AnalyzeSystems(units, lex);
      && fs == Outcomes(found.0, SystemScans(lex, found.0, found.1, units))
      && r.0 == AddStandalone(found.1, GraphSteps(fs, |fs|)) && r.2 == DetailSteps(fs, |fs|)
  {
  }

  /** A system's last outcome stores the deduplicated targets of that
      outcome: `t` is among them iff the outcome names it. */
  lemma StoredTargets(f: Outcome, t: string)
    ensures t in Stored(f) <==> t in f.targets
  {
  }

  /** The last outcome of `k` is that of its last scan, and names `t` iff
      that scan refers to a symbol whose qualified name is `t`. */
  lemma LastOfTargets(table: ClassTable, cs: seq<Scan>, k: string, t: string)
    requires Valid(table) && Over(table, cs)
    ensures var fs := Outcomes(table, cs); var f := LastOf(fs, |cs|, k);
      && (f.None? ==> forall i :: 0 <= i < |cs| ==> cs[i].full != k)
      && (forall i :: LastScanned(cs, k, i) ==> f == Some(i))
      && (f.Some? ==> (t in fs[f.value].targets <==>
            exists o :: o in table.m && RefersTo(cs[f.value], o) && table.m[o].fullName == t))
  {
    var fs := Outcomes(table, cs);
    LastOfIsLast(table, cs, k);
    var f := LastOf(fs, |cs|, k);
    if f.Some? {
      var i := f.value;
      assert fs[i] == OutcomeOf(cs[i]);
      TargetsSpec(cs[i], t);
      forall j | LastScanned(cs, k, j)
        ensures j == i
      {
      }
    }
  }

  /** The graph of the second pass over the scans `cs`: a system never
      scanned is no node, and one scanned depends on exactly the systems
      its last scan refers to. */
  lemma EdgesOfScans(table: ClassTable, cs: seq<Scan>, k: string, t: string)
    requires Valid(table) && Over(table, cs)
    ensures var g := GraphSteps(Outcomes(table, cs), |cs|);
      && ((forall i :: 0 <= i < |cs| ==> cs[i].full != k) ==> k !in g.m)
      && (forall i :: LastScanned(cs, k, i) ==>
            k in g.m && (t in g.m[k] <==> exists o :: o in table.m && RefersTo(cs[i], o) && table.m[o].fullName == t))
  {
    var fs := Outcomes(table, cs);
    SystemStepsLast(fs, k);
    LastOfTargets(table, cs, k, t);
    var f := LastOf(fs, |fs|, k);
    if f.Some? {
      StoredTargets(fs[f.value], t);
    }
  }

  /** The details of the second pass over the scans `cs`: a system has
      details iff one of its scans finds something, and they are those of
      the last scan that does. */
  lemma DetailsOfScans(table: ClassTable, cs: seq<Scan>, k: string)
    requires Valid(table) && Over(table, cs)
    ensures var d := DetailSteps(Outcomes(table, cs), |cs|);
      && (k in d.m <==> exists i :: 0 <= i < |cs| && cs[i].full == k && |Targets(cs[i])| > 0)
      && (forall i :: LastFinding(table, cs, k, i) ==> k in d.m && d.m[k] == ScanDetails(cs[i]))
  {
    var fs := Outcomes(table, cs);
    SystemStepsLast(fs, k);
    LastFindIsLast(table, cs, k);
    var g := LastFind(fs, |fs|, k);
    if g.Some? {
      var i := g.value;
      assert fs[i] == OutcomeOf(cs[i]);
      assert 0 <= i < |cs| && cs[i].full == k && |Targets(cs[i])| > 0;
      forall j | LastFinding(table, cs, k, j)
        ensures j == i
      {
      }
    }
  }

  /** The edges of the systems graph: a scanned system depends on exactly
      the qualified names of the systems its last scan refers to, which
      may be none, and a system found but never scanned has no targets. */
  lemma SystemEdges(units: seq<Unit>, lex: Lexer, k: string, t: string)
    ensures var r, found := AnalyzeSystems(units, lex), SystemTableOf(units, lex);
      var cs := SystemScans(lex, found.0, found.1, units);
      && (k in r.1 && (forall i :: 0 <= i < |cs| ==> cs[i].full != k) ==> r.0.m[k] == [])
      && (forall i :: LastScanned(cs, k, i) ==>
            k in r.0.m && (t in r.0.m[k] <==> exists o :: o in found.0.m && RefersTo(cs[i], o) && found.0.m[o].fullName == t))
  {
    var found := SystemTableOf(units, lex);
    var cs := SystemScans(lex, found.0, found.1, units);
    SystemsParts(units, lex);
    EdgesOfScans(found.0, cs, k, t);
  }

  /** The details of the systems graph: a system has details iff one of
      its scans finds something, and they are those of the last scan that
      does, even when a later scan of it finds nothing. */
  lemma SystemDetails(units: seq<Unit>, lex: Lexer, k: string)
    ensures var r, found := AnalyzeSystems(units, lex), SystemTableOf(units, lex);
      var cs := SystemScans(lex, found.0, found.1, units);
      && (k in r.2.m <==> exists i :: 0 <= i < |cs| && cs[i].full == k && |Targets(cs[i])| > 0)
      && (forall i :: LastFinding(found.0, cs, k, i) ==> k in r.2.m && r.2.m[k] == ScanDetails(cs[i]))
  {
    var found := SystemTableOf(units, lex);
    var cs := SystemScans(lex, found.0, found.1, units);
    SystemsParts(units, lex);
    DetailsOfScans(found.0, cs, k);
  }
}
