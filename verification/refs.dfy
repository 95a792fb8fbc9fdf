/** The per-symbol reference scan of the class and systems modes: for one
    symbol declared in a unit, which other table entries it refers to, and
    the reasons found for each. */
module References {
  import opened Wrappers
  import opened Text
  import opened Dict
  import opened Patterns
  import opened Symbols
  import opened Scanner
  import opened Report

  /** Everything one scan depends on: the table, the qualified name of the
      symbol being scanned, the unit's namespace and custom imports, the
      usage catalog, the numbered lines searched, the unit's path, and the
      short names of the symbols declared in the same unit whose use must
      be legitimate to count (none in systems mode). */
  datatype Scan = Scan(
    lex: Lexer, table: ClassTable, full: string, ns: string, usings: seq<string>,
    catalog: seq<Usage>, lines: seq<(nat, string)>, path: string, colocated: seq<string>)

  /** `name.split('.')[-1] if '.' in name else name`: the text after the
      last dot, or the whole name when it has no dot. */
  function ShortName(n: string): (r: string)
    ensures '.' !in r && EndsWith(n, r)
    ensures '.' in n ==> |r| < |n| && n[|n| - |r| - 1] == '.'
    ensures '.' !in n ==> r == n
  {
    if '.' in n then LastSegment(n) else n
  }

  /** The guards an entry `o` must pass before its usages are looked for:
      it is not the scanned symbol; if a symbol of its short name is
      declared in the same unit, a legitimate usage is present; and its
      namespace is visible from the unit. */
  predicate Admitted(c: Scan, o: string)
    requires o in c.table.m
  {
    var e := c.table.m[o];
    && e.fullName != c.full
    && (ShortName(o) in c.colocated ==> HasLegitimateUsage(c.lex, c.lines, ShortName(o)))
    && Visible(e.namespace, c.ns, c.usings)
  }

  /** The reasons found for `o`: one per line on which a usage is found. */
  function Evidence(c: Scan, o: string): seq<string> {
    ScanLines(c.lex, c.catalog, o, c.path, c.lines)
  }

  /** The scanned symbol depends on entry `o`. */
  predicate RefersTo(c: Scan, o: string)
    requires o in c.table.m
  {
    Admitted(c, o) && |Evidence(c, o)| > 0
  }

  /** What entry `o` contributes to the scan: its qualified name and the
      reasons found, when the symbol refers to it. */
  function Hit(c: Scan, o: string): (h: Option<(string, seq<string>)>)
    requires o in c.table.m
    ensures h.Some? <==> RefersTo(c, o)
    ensures h.Some? ==> h.value.0 == c.table.m[o].fullName && h.value.0 != c.full && |h.value.1| > 0
  {
    if RefersTo(c, o) then Some((c.table.m[o].fullName, Evidence(c, o))) else None
  }

  /** The contributions of `others`, entry by entry. */
  function Hits(c: Scan, others: seq<string>): (hs: seq<Option<(string, seq<string>)>>)
    requires forall o :: o in others ==> o in c.table.m
    ensures |hs| == |others| && forall i :: 0 <= i < |others| ==> hs[i] == Hit(c, others[i])
  {
    seq(|others|, i requires 0 <= i < |others| => Hit(c, others[i]))
  }

  /** The loop body over the contributions, in order: every hit appends its
      target to the target list and its reasons to the target's reasons. */
  function Gather(hs: seq<Option<(string, seq<string>)>>): (r: (seq<string>, Dict<seq<string>>))
    requires forall i :: 0 <= i < |hs| && hs[i].Some? ==> |hs[i].value.1| > 0
    ensures Valid(r.1)
    ensures forall t :: t in r.1.m <==> t in r.0
    ensures forall t :: t in r.1.m ==> |r.1.m[t]| > 0
    ensures forall t :: t in r.0 <==> exists i :: 0 <= i < |hs| && hs[i].Some? && hs[i].value.0 == t
    decreases |hs|
  {
    if |hs| == 0 then ([], Empty())
    else
      var before := Gather(hs[..|hs| - 1]);
      assert forall i :: 0 <= i < |hs| - 1 ==> hs[..|hs| - 1][i] == hs[i];
      match hs[|hs| - 1]
      case None => before
      case Some(h) => (before.0 + [h.0], Append(before.1, h.0, h.1))
  }

  /** `det` holds, for each target, exactly the reasons of those of the
      first `n` contributions that name it. */
  ghost predicate Gathered(hs: seq<Option<(string, seq<string>)>>, n: nat, det: Dict<seq<string>>)
    requires n <= |hs|
  {
    forall t, x :: t in det.m ==> (x in det.m[t] <==> exists i :: 0 <= i < n && hs[i].Some? && hs[i].value.0 == t && x in hs[i].value.1)
  }

  /** The reasons gathered for a target from the first `n` contributions
      are exactly the reasons of those that name it. */
  lemma {:induction false} GatherReasons(hs: seq<Option<(string, seq<string>)>>, n: nat)
    requires n <= |hs| && forall i :: 0 <= i < |hs| && hs[i].Some? ==> |hs[i].value.1| > 0
    ensures Gathered(hs, n, Gather(hs[..n]).1)
  {
    if n > 0 {
      GatherReasons(hs, n - 1);
      assert hs[..n][..n - 1] == hs[..n - 1] && hs[..n][n - 1] == hs[n - 1];
      var before := Gather(hs[..n - 1]);
      if hs[n - 1].Some? {
        assert forall i :: 0 <= i < n - 1 && hs[i].Some? ==> hs[i].value.0 in before.0 by {
          assert forall i :: 0 <= i < n - 1 ==> hs[..n - 1][i] == hs[i];
        }
        assert Gather(hs[..n]).1 == Append(before.1, hs[n - 1].value.0, hs[n - 1].value.1);
        GatherStep(hs, n, before.1, Gather(hs[..n]).1);
      } else {
        assert Gather(hs[..n]) == before;
        GatherSkip(hs, n, before.1);
      }
    }
  }

  /** A contribution that names nothing adds no reason. */
  lemma GatherSkip(hs: seq<Option<(string, seq<string>)>>, n: nat, det: Dict<seq<string>>)
    requires 0 < n <= |hs| && hs[n - 1].None? && Gathered(hs, n - 1, det)
    ensures Gathered(hs, n, det)
  {
  }

  /** The reasons of `t` after contribution `n - 1`: those gathered
      before, plus the new ones when that contribution names `t`. */
  lemma GatherStep(hs: seq<Option<(string, seq<string>)>>, n: nat, det: Dict<seq<string>>, det': Dict<seq<string>>)
    requires 0 < n <= |hs| && hs[n - 1].Some? && Valid(det) && Gathered(hs, n - 1, det)
    requires forall i :: 0 <= i < n - 1 && hs[i].Some? ==> hs[i].value.0 in det.m
    requires det' == Append(det, hs[n - 1].value.0, hs[n - 1].value.1)
    ensures Gathered(hs, n, det')
  {
    var h := hs[n - 1].value;
    forall t, x | t in det'.m
      ensures x in det'.m[t] <==> exists i :: 0 <= i < n && hs[i].Some? && hs[i].value.0 == t && x in hs[i].value.1
    {
      if t == h.0 && x in h.1 {
        assert hs[n - 1].Some? && hs[n - 1].value.0 == t && x in hs[n - 1].value.1;
      } else if t != h.0 {
        assert t in det.m;
      } else if t !in det.m {
        assert forall i :: 0 <= i < n - 1 && hs[i].Some? ==> hs[i].value.0 != t;
      }
    }
  }

  /** The loop over the entries `others` (in table order): the targets
      found and the reasons gathered per target, never the scanned symbol. */
  function ScanOthers(c: Scan, others: seq<string>): (r: (seq<string>, Dict<seq<string>>))
    requires forall o :: o in others ==> o in c.table.m
    ensures Valid(r.1)
    ensures forall t :: t in r.1.m <==> t in r.0
    ensures forall t :: t in r.1.m ==> |r.1.m[t]| > 0
    ensures c.full !in r.0
    ensures forall t, x :: t in r.1.m ==> (x in r.1.m[t] <==> exists o :: o in others && RefersTo(c, o) && c.table.m[o].fullName == t && x in Evidence(c, o))
  {
    var hs := Hits(c, others);
    var r := Gather(hs);
    GatherReasons(hs, |hs|);
    assert hs[..|hs|] == hs;
    forall t, x | t in r.1.m
      ensures x in r.1.m[t] <==> exists o :: o in others && RefersTo(c, o) && c.table.m[o].fullName == t && x in Evidence(c, o)
    {
      if o :| o in others && RefersTo(c, o) && c.table.m[o].fullName == t && x in Evidence(c, o) {
        var i :| 0 <= i < |others| && others[i] == o;
        assert hs[i].Some? && hs[i].value.0 == t && x in hs[i].value.1;
      }
      if i :| 0 <= i < |hs| && hs[i].Some? && hs[i].value.0 == t && x in hs[i].value.1 {
        assert others[i] in others && RefersTo(c, others[i]) && c.table.m[others[i]].fullName == t && x in Evidence(c, others[i]);
      }
    }
    r
  }

  /** The targets of the loop are exactly the qualified names of the
      entries among `others` that the symbol refers to. */
  lemma ScanOthersTargets(c: Scan, others: seq<string>, t: string)
    requires forall o :: o in others ==> o in c.table.m
    ensures t in ScanOthers(c, others).0 <==> exists o :: o in others && RefersTo(c, o) && c.table.m[o].fullName == t
  {
    var hs := Hits(c, others);
    assert t in ScanOthers(c, others).0 <==> exists i :: 0 <= i < |hs| && hs[i].Some? && hs[i].value.0 == t;
    if o :| o in others && RefersTo(c, o) && c.table.m[o].fullName == t {
      var i :| 0 <= i < |others| && others[i] == o;
      assert hs[i].Some? && hs[i].value.0 == t;
    }
    if i :| 0 <= i < |hs| && hs[i].Some? && hs[i].value.0 == t {
      assert others[i] in others && RefersTo(c, others[i]) && c.table.m[others[i]].fullName == t;
    }
  }

  /** The targets of the scan over the whole table. */
  function Targets(c: Scan): (ts: seq<string>)
    requires Valid(c.table)
    ensures c.full !in ts
  {
    ScanOthers(c, c.table.keys).0
  }

  /** The symbol's targets are exactly the qualified names of the table
      entries it refers to; in particular it is never its own target. */
  lemma TargetsSpec(c: Scan, t: string)
    requires Valid(c.table)
    ensures t in Targets(c) <==> exists o :: o in c.table.m && RefersTo(c, o) && c.table.m[o].fullName == t
  {
    ScanOthersTargets(c, c.table.keys, t);
  }

  /** `[(target, list(set(reasons))) for target, reasons in details.items()]`. */
  function DetailsOf(det: Dict<seq<string>>): (ds: seq<Detail>)
    requires Valid(det) && forall t :: t in det.m ==> |det.m[t]| > 0
    ensures |ds| == |det.keys|
    ensures forall i :: 0 <= i < |ds| ==> ds[i].target == det.keys[i] && |ds[i].reasons| > 0
    ensures forall i :: 0 <= i < |ds| ==> forall x :: x in ds[i].reasons <==> x in det.m[det.keys[i]]
    ensures OnePerTarget(ds)
  {
    seq(|det.keys|, i requires 0 <= i < |det.keys| => Detail(det.keys[i], Dedup(det.m[det.keys[i]])))
  }

  /** The reasons of each detail are exactly the evidence lines found for
      the entries whose qualified name is the detail's target. */
  ghost predicate ReasonsAreEvidence(c: Scan, ds: seq<Detail>)
    requires Valid(c.table)
  {
    forall i, x :: 0 <= i < |ds| ==>
      (x in ds[i].reasons <==> exists o :: o in c.table.m && RefersTo(c, o) && c.table.m[o].fullName == ds[i].target && x in Evidence(c, o))
  }

  /** The details of a scan: one entry per target, each with the evidence
      found for it. */
  function ScanDetails(c: Scan): (ds: seq<Detail>)
    requires Valid(c.table)
    ensures forall i :: 0 <= i < |ds| ==> ds[i].target in Targets(c) && |ds[i].reasons| > 0
    ensures forall t :: t in Targets(c) ==> exists i :: (0 <= i < |ds| && ds[i].target == t)
    ensures ReasonsAreEvidence(c, ds)
    ensures OnePerTarget(ds)
  {
    var r := ScanOthers(c, c.table.keys);
    var ds := DetailsOf(r.1);
    DetailsReasons(c, r.1, ds);
    DetailsCover(r.1, r.0, ds);
    ds
  }

  /** Each detail's reasons are the evidence of the entries that name its
      target, when the dictionary it is built from gathered exactly those. */
  lemma DetailsReasons(c: Scan, det: Dict<seq<string>>, ds: seq<Detail>)
    requires Valid(c.table) && Valid(det) && forall t :: t in det.m ==> |det.m[t]| > 0
    requires forall t, x :: t in det.m ==> (x in det.m[t] <==> exists o :: o in c.table.keys && RefersTo(c, o) && c.table.m[o].fullName == t && x in Evidence(c, o))
    requires ds == DetailsOf(det)
    ensures ReasonsAreEvidence(c, ds)
  {
    forall i, x | 0 <= i < |ds|
      ensures x in ds[i].reasons <==> exists o :: o in c.table.m && RefersTo(c, o) && c.table.m[o].fullName == ds[i].target && x in Evidence(c, o)
    {
      var t := det.keys[i];
      assert t in det.m && ds[i].target == t;
      assert x in ds[i].reasons <==> x in det.m[t];
    }
  }

  /** The details of a dictionary whose keys are the targets `ts` name
      every target exactly once. */
  lemma DetailsCover(det: Dict<seq<string>>, ts: seq<string>, ds: seq<Detail>)
    requires Valid(det) && forall t :: t in det.m ==> |det.m[t]| > 0
    requires forall t :: t in det.m <==> t in ts
    requires ds == DetailsOf(det)
    ensures forall i :: 0 <= i < |ds| ==> ds[i].target in ts && |ds[i].reasons| > 0
    ensures forall t :: t in ts ==> exists i :: (0 <= i < |ds| && ds[i].target == t)
    ensures OnePerTarget(ds)
  {
    forall t | t in ts
      ensures exists i :: 0 <= i < |ds| && ds[i].target == t
    {
      assert t in det.keys;
      var i :| 0 <= i < |det.keys| && det.keys[i] == t;
      assert ds[i].target == t;
    }
  }

  /** The symbols of the table declared in a unit: entries whose namespace
      is the unit's and whose name the unit declares, in table order. */
  function DeclaredHere(lex: Lexer, table: ClassTable, ns: string, content: string): (cur: seq<(string, string)>)
    requires Valid(table)
    ensures forall p :: p in cur <==> (p.0 in table.m && table.m[p.0].namespace == ns
      && lex.declares(p.0, content) && p.1 == table.m[p.0].fullName)
  {
    DeclaredAmong(lex, table, ns, content, table.keys)
  }

  function DeclaredAmong(lex: Lexer, table: ClassTable, ns: string, content: string, ks: seq<string>): (cur: seq<(string, string)>)
    requires forall k :: k in ks ==> k in table.m
    ensures forall p :: p in cur <==> (p.0 in ks && table.m[p.0].namespace == ns
      && lex.declares(p.0, content) && p.1 == table.m[p.0].fullName)
  {
    if |ks| == 0 then []
    else
      var rest := DeclaredAmong(lex, table, ns, content, ks[1..]);
      assert forall k :: k in ks <==> k == ks[0] || k in ks[1..];
      var e := table.m[ks[0]];
      if e.namespace == ns && lex.declares(ks[0], content) then [(ks[0], e.fullName)] + rest else rest
  }
}
