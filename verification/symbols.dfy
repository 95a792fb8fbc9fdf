/** The first passes of the class and systems modes: the tables from a
    short class name to the namespace it was found in and its qualified
    name. */
module Symbols {
  import opened Wrappers
  import opened Text
  import opened Dict
  import opened Patterns
  import opened Nesting

  /** One `.cs` file: its path relative to the scripts folder, and its text. */
  datatype Unit = Unit(path: string, content: string)

  /** `content.split('\n')`. */
  function Lines(u: Unit): seq<string> {
    Split(u.content, '\n')
  }

  /** The namespace a unit declares, `"Global"` when it declares none. */
  function NamespaceOr(lex: Lexer, u: Unit): string {
    lex.namespaceIn(u.content).GetOr("Global")
  }

  /** `f"{namespace}.{name}"`. */
  function Qualify(ns: string, name: string): string {
    ns + "." + name
  }

  /** A table value: the namespace a class was found in and its qualified name. */
  datatype ClassEntry = ClassEntry(namespace: string, fullName: string)

  type ClassTable = Dict<ClassEntry>

  /** Every entry's qualified name is its namespace followed by its own
      short name. */
  predicate SelfQualified(t: ClassTable) {
    forall n :: n in t.m ==> t.m[n].fullName == Qualify(t.m[n].namespace, n)
  }

  // ---------------------------------------------------------------- classes

  /** The name captured by the first class-declaration regex, in catalog
      order, that is found on the stripped line `t`. */
  function FirstDecl(lex: Lexer, t: string, pats: seq<ClassDecl>): (r: Option<string>)
    ensures r.None? <==> forall k :: 0 <= k < |pats| ==> lex.classDecl(pats[k], t).None?
    ensures r.Some? ==> exists k :: (0 <= k < |pats| && lex.classDecl(pats[k], t) == r
      && forall j :: 0 <= j < k ==> lex.classDecl(pats[j], t).None?)
  {
    if |pats| == 0 then None
    else if lex.classDecl(pats[0], t).Some? then lex.classDecl(pats[0], t)
    else
      var r := FirstDecl(lex, t, pats[1..]);
      assert forall k :: 1 <= k < |pats| ==> pats[k] == pats[1..][k - 1];
      r
  }

  /** The class name the first pass takes from line `i`: none on a blank or
      comment line, else the first declaration regex's capture. */
  function DeclaredOn(lines: seq<string>, i: nat, lex: Lexer): Option<string>
    requires i < |lines|
  {
    var t := Strip(lines[i]);
    if Ignorable(t) then None else FirstDecl(lex, t, ClassDeclCatalog)
  }

  /** The class the first pass records from line `i`: a declaration that
      is not nested. */
  function Recorded(lines: seq<string>, i: nat, lex: Lexer): (r: Option<string>)
    requires i < |lines|
    ensures r.Some? <==> DeclaredOn(lines, i, lex).Some? && !IsNested(lines, i, lex)
    ensures r.Some? ==> r == DeclaredOn(lines, i, lex)
  {
    match DeclaredOn(lines, i, lex)
    case Some(n) => if IsNested(lines, i, lex) then None else Some(n)
    case None => None
  }

  /** What the first pass records from each line of a unit, in line order. */
  function Records(lines: seq<string>, lex: Lexer): (recs: seq<Option<string>>)
    ensures |recs| == |lines|
  {
    seq(|lines|, i requires 0 <= i < |lines| => Recorded(lines, i, lex))
  }

  /** Some line of `u` declares `n` at top level. */
  predicate DeclaresTopLevel(lex: Lexer, u: Unit, n: string) {
    Some(n) in Records(Lines(u), lex)
  }

  /** What one unit brings to the first pass: its namespace and what is
      recorded from each of its lines. */
  datatype Contribution = Contribution(ns: string, recs: seq<Option<string>>)

  function Contributions(units: seq<Unit>, lex: Lexer): (cs: seq<Contribution>)
    ensures |cs| == |units|
  {
    seq(|units|, x requires 0 <= x < |units| => Contribution(NamespaceOr(lex, units[x]), Records(Lines(units[x]), lex)))
  }

  /** The per-line loop of the first pass over one unit: each recorded
      class is entered under the unit's namespace, replacing an earlier
      entry of the same name; other entries and the key order stay. */
  function AddClasses(recs: seq<Option<string>>, ns: string, t: ClassTable): (r: ClassTable)
    requires Valid(t)
    ensures Valid(r) && t.keys <= r.keys
    ensures forall n :: n in r.m <==> n in t.m || Some(n) in recs
    ensures forall n :: Some(n) in recs ==> r.m[n] == ClassEntry(ns, Qualify(ns, n))
    ensures forall n :: n in t.m && Some(n) !in recs ==> r.m[n] == t.m[n]
    decreases |recs|
  {
    if |recs| == 0 then t
    else
      var t' := if recs[0].Some? then Put(t, recs[0].value, ClassEntry(ns, Qualify(ns, recs[0].value))) else t;
      var r := AddClasses(recs[1..], ns, t');
      AddClassesStep(recs, ns, t, t', r);
      r
  }

  /** One line of the loop: what holds after the rest of the lines, from
      the table with line 0 entered, holds after all of them. */
  lemma AddClassesStep(recs: seq<Option<string>>, ns: string, t: ClassTable, t': ClassTable, r: ClassTable)
    requires |recs| > 0 && Valid(t)
    requires t' == if recs[0].Some? then Put(t, recs[0].value, ClassEntry(ns, Qualify(ns, recs[0].value))) else t
    requires Valid(r) && t'.keys <= r.keys
    requires forall n :: n in r.m <==> n in t'.m || Some(n) in recs[1..]
    requires forall n :: Some(n) in recs[1..] ==> r.m[n] == ClassEntry(ns, Qualify(ns, n))
    requires forall n :: n in t'.m && Some(n) !in recs[1..] ==> r.m[n] == t'.m[n]
    ensures t.keys <= r.keys
    ensures forall n :: n in r.m <==> n in t.m || Some(n) in recs
    ensures forall n :: Some(n) in recs ==> r.m[n] == ClassEntry(ns, Qualify(ns, n))
    ensures forall n :: n in t.m && Some(n) !in recs ==> r.m[n] == t.m[n]
  {
    assert t.keys <= t'.keys;
    assert forall x :: x in recs <==> x == recs[0] || x in recs[1..];
  }

  /** The first pass over the units' contributions, in order. */
  function AddAll(cs: seq<Contribution>): (t: ClassTable)
    ensures Valid(t) && SelfQualified(t)
    decreases |cs|
  {
    if |cs| == 0 then Empty()
    else AddClasses(cs[|cs| - 1].recs, cs[|cs| - 1].ns, AddAll(cs[..|cs| - 1]))
  }

  lemma {:induction false} AddAllMembers(cs: seq<Contribution>, n: string)
    ensures n in AddAll(cs).m <==> exists x :: 0 <= x < |cs| && Some(n) in cs[x].recs
    decreases |cs|
  {
    if |cs| > 0 {
      var last := |cs| - 1;
      var prefix := cs[..last];
      AddAllMembers(prefix, n);
      if exists x :: 0 <= x < |prefix| && Some(n) in prefix[x].recs {
        var x :| 0 <= x < |prefix| && Some(n) in prefix[x].recs;
        assert cs[x] == prefix[x];
      }
      if exists x :: 0 <= x < |cs| && Some(n) in cs[x].recs {
        var x :| 0 <= x < |cs| && Some(n) in cs[x].recs;
        if x < last {
          assert prefix[x] == cs[x];
        }
      }
    }
  }

  lemma {:induction false} AddAllLastWins(cs: seq<Contribution>, n: string, x: nat)
    requires x < |cs| && Some(n) in cs[x].recs
    requires forall y :: x < y < |cs| ==> Some(n) !in cs[y].recs
    ensures n in AddAll(cs).m && AddAll(cs).m[n] == ClassEntry(cs[x].ns, Qualify(cs[x].ns, n))
    decreases |cs|
  {
    var last := |cs| - 1;
    if x < last {
      var prefix := cs[..last];
      assert prefix[x] == cs[x];
      assert forall y :: x < y < |prefix| ==> prefix[y] == cs[y];
      AddAllLastWins(prefix, n, x);
    }
  }

  /** `all_classes` after the first class-mode pass over `units`, the
      units taken in order. */
  function ClassTableOf(units: seq<Unit>, lex: Lexer): (t: ClassTable)
    ensures Valid(t) && SelfQualified(t)
  {
    AddAll(Contributions(units, lex))
  }

  /** Some unit declares `n` at top level. */
  ghost predicate DeclaredIn(units: seq<Unit>, lex: Lexer, n: string) {
    exists x :: 0 <= x < |units| && DeclaresTopLevel(lex, units[x], n)
  }

  /** A class is in the table iff some unit declares it at top level. */
  lemma ClassTableMembers(units: seq<Unit>, lex: Lexer, n: string)
    ensures n in ClassTableOf(units, lex).m <==> DeclaredIn(units, lex, n)
  {
    var cs := Contributions(units, lex);
    AddAllMembers(cs, n);
    assert forall x :: 0 <= x < |units| ==> cs[x].recs == Records(Lines(units[x]), lex);
  }

  /** A class's entry comes from the last unit that declares it at top level. */
  lemma ClassTableLastWins(units: seq<Unit>, lex: Lexer, n: string, x: nat)
    requires x < |units| && DeclaresTopLevel(lex, units[x], n)
    requires forall y :: x < y < |units| ==> !DeclaresTopLevel(lex, units[y], n)
    ensures n in ClassTableOf(units, lex).m
    ensures ClassTableOf(units, lex).m[n] == ClassEntry(NamespaceOr(lex, units[x]), Qualify(NamespaceOr(lex, units[x]), n))
  {
    var cs := Contributions(units, lex);
    assert forall y :: 0 <= y < |units| ==> cs[y] == Contribution(NamespaceOr(lex, units[y]), Records(Lines(units[y]), lex));
    AddAllLastWins(cs, n, x);
  }

  // ---------------------------------------------------------------- systems

  /** The helper-type filter of the systems pass: non-empty, and not ending
      in `Authoring`, `Baker` or `Data`. */
  predicate IsSystemName(n: string) {
    n != "" && !EndsWith(n, "Authoring") && !EndsWith(n, "Baker") && !EndsWith(n, "Data")
  }

  /** The filter drops the authoring, baker and data helper types by their
      suffix alone, whatever comes before it, and keeps everything else a
      regex captured, a name that merely contains a suffix included. */
  lemma SystemNameFilter(p: string)
    ensures !IsSystemName(p + "Authoring") && !IsSystemName(p + "Baker") && !IsSystemName(p + "Data")
    ensures !IsSystemName("")
    ensures IsSystemName("MovementSystem") && IsSystemName("DataSyncSystem")
  {
    assert (p + "Authoring")[|p|..] == "Authoring";
    assert (p + "Baker")[|p|..] == "Baker";
    assert (p + "Data")[|p|..] == "Data";
  }

  /** The names the system-declaration regexes find in a unit, pattern by
      pattern in catalog order. */
  function FoundSystems(lex: Lexer, content: string, pats: seq<SystemDecl>): (names: seq<string>)
    ensures forall n :: n in names <==> exists k :: 0 <= k < |pats| && n in lex.systemDecls(pats[k], content)
  {
    if |pats| == 0 then []
    else
      var rest := FoundSystems(lex, content, pats[1..]);
      assert forall k :: 1 <= k < |pats| ==> pats[k] == pats[1..][k - 1];
      lex.systemDecls(pats[0], content) + rest
  }

  function FoundIn(lex: Lexer, u: Unit): seq<string> {
    FoundSystems(lex, u.content, SystemDeclCatalog)
  }

  /** `all_systems.add(x)`, keeping the set in order of first discovery. */
  function AddNew(all: seq<string>, x: string): (r: seq<string>)
    ensures forall s :: s in r <==> s in all || s == x
    ensures Distinct(all) ==> Distinct(r)
  {
    if x in all then all else all + [x]
  }

  /** The inner loop of the systems pass over the found names `names` of one
      unit: each name that passes the filter is recorded under the unit's
      namespace and its qualified name joins `all`. */
  function AddSystems(names: seq<string>, ns: string, t: ClassTable, all: seq<string>): (r: (ClassTable, seq<string>))
    requires Valid(t)
    ensures Valid(r.0) && t.keys <= r.0.keys
    ensures forall n :: n in r.0.m <==> n in t.m || (n in names && IsSystemName(n))
    ensures forall n :: n in names && IsSystemName(n) ==> r.0.m[n] == ClassEntry(ns, Qualify(ns, n))
    ensures forall n :: n in t.m && !(n in names && IsSystemName(n)) ==> r.0.m[n] == t.m[n]
    ensures forall s :: s in r.1 <==> s in all || exists n :: n in names && IsSystemName(n) && s == Qualify(ns, n)
    ensures Distinct(all) ==> Distinct(r.1)
    ensures (forall n :: n in t.m ==> t.m[n].fullName in all) ==> forall n :: n in r.0.m ==> r.0.m[n].fullName in r.1
    decreases |names|
  {
    if |names| == 0 then (t, all)
    else
      var step := AddSystem(names[0], ns, t, all);
      var r := AddSystems(names[1..], ns, step.0, step.1);
      assert forall x :: x in names <==> x == names[0] || x in names[1..];
      r
  }

  /** One iteration of that loop, for the found name `n`. */
  function AddSystem(n: string, ns: string, t: ClassTable, all: seq<string>): (r: (ClassTable, seq<string>))
    requires Valid(t)
    ensures Valid(r.0) && t.keys <= r.0.keys
    ensures forall m :: m in r.0.m <==> m in t.m || (m == n && IsSystemName(n))
    ensures IsSystemName(n) ==> r.0.m[n] == ClassEntry(ns, Qualify(ns, n))
    ensures forall m :: m in t.m && !(m == n && IsSystemName(n)) ==> r.0.m[m] == t.m[m]
    ensures forall s :: s in r.1 <==> s in all || (IsSystemName(n) && s == Qualify(ns, n))
    ensures Distinct(all) ==> Distinct(r.1)
    ensures (forall m :: m in t.m ==> t.m[m].fullName in all) ==> forall m :: m in r.0.m ==> r.0.m[m].fullName in r.1
  {
    if IsSystemName(n) then (Put(t, n, ClassEntry(ns, Qualify(ns, n))), AddNew(all, Qualify(ns, n))) else (t, all)
  }

  /** What one unit brings to the systems pass: its namespace and the
      names its regexes find. */
  datatype Finding = Finding(ns: string, names: seq<string>)

  function Findings(units: seq<Unit>, lex: Lexer): (fs: seq<Finding>)
    ensures |fs| == |units|
  {
    seq(|units|, x requires 0 <= x < |units| => Finding(NamespaceOr(lex, units[x]), FoundIn(lex, units[x])))
  }

  /** The systems pass over the units' findings, in order. */
  function AddAllSystems(fs: seq<Finding>): (r: (ClassTable, seq<string>))
    ensures Valid(r.0) && Distinct(r.1) && SelfQualified(r.0)
    ensures forall n :: n in r.0.m ==> r.0.m[n].fullName in r.1
    decreases |fs|
  {
    if |fs| == 0 then (Empty(), [])
    else
      var before := AddAllSystems(fs[..|fs| - 1]);
      AddSystems(fs[|fs| - 1].names, fs[|fs| - 1].ns, before.0, before.1)
  }

  /** `system_classes` and `all_systems` after the first systems-mode
      pass over `units`, the units taken in order; every entry's qualified
      name is in `all_systems`, which holds no name twice. */
  function SystemTableOf(units: seq<Unit>, lex: Lexer): (r: (ClassTable, seq<string>))
    ensures Valid(r.0) && Distinct(r.1) && SelfQualified(r.0)
    ensures forall n :: n in r.0.m ==> r.0.m[n].fullName in r.1
  {
    AddAllSystems(Findings(units, lex))
  }

  lemma {:induction false} AddAllSystemsMembers(fs: seq<Finding>, n: string)
    ensures n in AddAllSystems(fs).0.m <==> IsSystemName(n) && exists x :: 0 <= x < |fs| && n in fs[x].names
    decreases |fs|
  {
    if |fs| > 0 {
      var last := |fs| - 1;
      var prefix := fs[..last];
      var before := AddAllSystems(prefix);
      assert AddAllSystems(fs) == AddSystems(fs[last].names, fs[last].ns, before.0, before.1);
      AddAllSystemsMembers(prefix, n);
      if exists x :: 0 <= x < |prefix| && n in prefix[x].names {
        var x :| 0 <= x < |prefix| && n in prefix[x].names;
        assert fs[x] == prefix[x];
      }
      if exists x :: 0 <= x < |fs| && n in fs[x].names {
        var x :| 0 <= x < |fs| && n in fs[x].names;
        if x < last {
          assert prefix[x] == fs[x];
        }
      }
    }
  }

  lemma {:induction false} AddAllSystemsLastWins(fs: seq<Finding>, n: string, x: nat)
    requires x < |fs| && n in fs[x].names && IsSystemName(n)
    requires forall y :: x < y < |fs| ==> n !in fs[y].names
    ensures n in AddAllSystems(fs).0.m && AddAllSystems(fs).0.m[n] == ClassEntry(fs[x].ns, Qualify(fs[x].ns, n))
    decreases |fs|
  {
    var last := |fs| - 1;
    if x < last {
      var prefix := fs[..last];
      assert prefix[x] == fs[x];
      assert forall y :: x < y < |prefix| ==> prefix[y] == fs[y];
      AddAllSystemsLastWins(prefix, n, x);
    }
  }

  /** `s` is the qualified name formed from the found name `n` of finding `x`. */
  predicate FormedAt(fs: seq<Finding>, s: string, x: nat, n: string) {
    x < |fs| && n in fs[x].names && IsSystemName(n) && s == Qualify(fs[x].ns, n)
  }

  lemma {:induction false} AddAllSystemsAll(fs: seq<Finding>, s: string)
    ensures s in AddAllSystems(fs).1 <==> exists x, n :: FormedAt(fs, s, x, n)
    decreases |fs|
  {
    if |fs| > 0 {
      var last := |fs| - 1;
      var prefix := fs[..last];
      var before := AddAllSystems(prefix);
      var after := AddSystems(fs[last].names, fs[last].ns, before.0, before.1);
      assert AddAllSystems(fs) == after;
      AddAllSystemsAll(prefix, s);
      if s in after.1 {
        if s in before.1 {
          var x: nat, n: string :| FormedAt(prefix, s, x, n);
          assert prefix[x] == fs[x];
          assert FormedAt(fs, s, x, n);
        } else {
          var n :| n in fs[last].names && IsSystemName(n) && s == Qualify(fs[last].ns, n);
          assert FormedAt(fs, s, last, n);
        }
      }
      if exists x, n :: FormedAt(fs, s, x, n) {
        var x: nat, n: string :| FormedAt(fs, s, x, n);
        if x < last {
          assert prefix[x] == fs[x];
          assert FormedAt(prefix, s, x, n);
        }
      }
    }
  }

  /** Some unit's regexes find `n`. */
  ghost predicate FoundInSome(units: seq<Unit>, lex: Lexer, n: string) {
    exists x :: 0 <= x < |units| && n in FoundIn(lex, units[x])
  }

  /** A name is in `system_classes` iff the regexes find it in some unit and
      it passes the helper-type filter. */
  lemma SystemTableMembers(units: seq<Unit>, lex: Lexer, n: string)
    ensures n in SystemTableOf(units, lex).0.m <==> IsSystemName(n) && FoundInSome(units, lex, n)
  {
    var fs := Findings(units, lex);
    AddAllSystemsMembers(fs, n);
    assert forall x :: 0 <= x < |units| ==> fs[x].names == FoundIn(lex, units[x]);
  }

  /** A system's entry comes from the last unit whose regexes find it. */
  lemma SystemTableLastWins(units: seq<Unit>, lex: Lexer, n: string, x: nat)
    requires x < |units| && n in FoundIn(lex, units[x]) && IsSystemName(n)
    requires forall y :: x < y < |units| ==> n !in FoundIn(lex, units[y])
    ensures n in SystemTableOf(units, lex).0.m
    ensures SystemTableOf(units, lex).0.m[n] == ClassEntry(NamespaceOr(lex, units[x]), Qualify(NamespaceOr(lex, units[x]), n))
  {
    var fs := Findings(units, lex);
    assert forall y :: 0 <= y < |units| ==> fs[y] == Finding(NamespaceOr(lex, units[y]), FoundIn(lex, units[y]));
    AddAllSystemsLastWins(fs, n, x);
  }

  /** A qualified name formed in some unit from a found, filtered name. */
  ghost predicate FormedIn(units: seq<Unit>, lex: Lexer, s: string) {
    exists x, n :: 0 <= x < |units| && n in FoundIn(lex, units[x]) && IsSystemName(n)
      && s == Qualify(NamespaceOr(lex, units[x]), n)
  }

  /** `all_systems` holds exactly the qualified names ever formed, including
      those whose short name a later unit took over in `system_classes`. */
  lemma AllSystemsMembers(units: seq<Unit>, lex: Lexer, s: string)
    ensures s in SystemTableOf(units, lex).1 <==> FormedIn(units, lex, s)
  {
    var fs := Findings(units, lex);
    AddAllSystemsAll(fs, s);
    assert forall y :: 0 <= y < |units| ==> fs[y] == Finding(NamespaceOr(lex, units[y]), FoundIn(lex, units[y]));
    if FormedIn(units, lex, s) {
      var x, n :| 0 <= x < |units| && n in FoundIn(lex, units[x]) && IsSystemName(n)
        && s == Qualify(NamespaceOr(lex, units[x]), n);
      assert FormedAt(fs, s, x, n);
    }
  }
}
