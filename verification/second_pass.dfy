/** What the second pass of the class and systems modes takes from each
    scan, and which scan decides the final entries of a symbol: the
    second pass overwrites `dependencies[full]` once per declaration of
    `full`, so the last scan of a symbol wins. */
module SecondPass {
  import opened Wrappers
  import opened Dict
  import opened Scanner
  import opened Symbols
  import opened References
  import opened Report

  /** What the second pass takes from the scan of one symbol: the symbol's
      qualified name, its targets and its details. */
  datatype Outcome = Outcome(full: string, targets: seq<string>, details: seq<Detail>)

  /** An outcome names each target in at most one detail; one with
      targets has distinct targets without the symbol itself once
      deduplicated, and details with reasons that explain exactly those
      targets. */
  ghost predicate Fits(f: Outcome) {
    && OnePerTarget(f.details)
    && (|f.targets| > 0 ==>
      var d := Dedup(f.targets);
      && |d| > 0 && f.full !in d
      && (forall i :: 0 <= i < |f.details| ==> f.details[i].target in d && |f.details[i].reasons| > 0)
      && (forall t :: t in d ==> exists i :: 0 <= i < |f.details| && f.details[i].target == t))
  }

  /** The outcome of scan `c` never names the symbol itself, and its
      details explain exactly its targets. */
  function OutcomeOf(c: Scan): (f: Outcome)
    requires Valid(c.table)
    ensures Fits(f)
    ensures f.full == c.full && f.targets == Targets(c) && f.details == ScanDetails(c)
  {
    var f := Outcome(c.full, Targets(c), ScanDetails(c));
    if |f.targets| > 0 then
      assert f.targets[0] in Dedup(f.targets);
      f
    else f
  }

  /** Every scan is over `table`. */
  ghost predicate Over(table: ClassTable, cs: seq<Scan>) {
    forall i :: 0 <= i < |cs| ==> cs[i].table == table
  }

  /** The outcomes of the scans, in order. */
  function Outcomes(table: ClassTable, cs: seq<Scan>): (fs: seq<Outcome>)
    requires Valid(table) && Over(table, cs)
    ensures |fs| == |cs|
    ensures forall i :: 0 <= i < |fs| ==> fs[i] == OutcomeOf(cs[i])
  {
    seq(|cs|, i requires 0 <= i < |cs| => OutcomeOf(cs[i]))
  }

  /** The index of the last outcome of `k` among `fs[..n]` that has
      targets, searched backwards; none when there is no such outcome. */
  function LastFind(fs: seq<Outcome>, n: nat, k: string): (r: Option<nat>)
    requires n <= |fs|
    ensures r.Some? ==> r.value < n && fs[r.value].full == k && |fs[r.value].targets| > 0
    ensures r.Some? ==> forall j :: r.value < j < n && fs[j].full == k ==> |fs[j].targets| == 0
    ensures r.None? ==> forall j :: 0 <= j < n && fs[j].full == k ==> |fs[j].targets| == 0
  {
    if n == 0 then None
    else if fs[n - 1].full == k && |fs[n - 1].targets| > 0 then Some(n - 1)
    else LastFind(fs, n - 1, k)
  }

  /** Scan `i` is the last scan of `k` that finds something. */
  ghost predicate LastFinding(table: ClassTable, cs: seq<Scan>, k: string, i: int)
    requires Valid(table) && Over(table, cs)
  {
    && 0 <= i < |cs| && cs[i].full == k && |Targets(cs[i])| > 0
    && forall j :: i < j < |cs| && cs[j].full == k ==> |Targets(cs[j])| == 0
  }

  /** The last outcome with targets is the last scan that finds
      something. */
  lemma LastFindIsLast(table: ClassTable, cs: seq<Scan>, k: string)
    requires Valid(table) && Over(table, cs)
    ensures var f := LastFind(Outcomes(table, cs), |cs|, k);
      && (f.Some? ==> LastFinding(table, cs, k, f.value))
      && (f.None? ==> forall i :: 0 <= i < |cs| && cs[i].full == k ==> |Targets(cs[i])| == 0)
  {
    var fs := Outcomes(table, cs);
    var f := LastFind(fs, |cs|, k);
    if f.Some? {
      forall j | f.value < j < |cs| && cs[j].full == k
        ensures |Targets(cs[j])| == 0
      {
        assert fs[j] == OutcomeOf(cs[j]);
      }
      assert fs[f.value] == OutcomeOf(cs[f.value]);
    } else {
      forall i | 0 <= i < |cs| && cs[i].full == k
        ensures |Targets(cs[i])| == 0
      {
        assert fs[i] == OutcomeOf(cs[i]);
      }
    }
  }

  /** The index of the last outcome of `k` among `fs[..n]`, searched
      backwards; none when `k` is never scanned. */
  function LastOf(fs: seq<Outcome>, n: nat, k: string): (r: Option<nat>)
    requires n <= |fs|
    ensures r.Some? ==> r.value < n && fs[r.value].full == k
    ensures r.Some? ==> forall j :: r.value < j < n ==> fs[j].full != k
    ensures r.None? ==> forall j :: 0 <= j < n ==> fs[j].full != k
  {
    if n == 0 then None
    else if fs[n - 1].full == k then Some(n - 1)
    else LastOf(fs, n - 1, k)
  }

  /** Scan `i` is the last scan of `k`. */
  ghost predicate LastScanned(cs: seq<Scan>, k: string, i: int) {
    && 0 <= i < |cs| && cs[i].full == k
    && forall j :: i < j < |cs| ==> cs[j].full != k
  }

  /** The last outcome of `k` is that of its last scan. */
  lemma LastOfIsLast(table: ClassTable, cs: seq<Scan>, k: string)
    requires Valid(table) && Over(table, cs)
    ensures var f := LastOf(Outcomes(table, cs), |cs|, k);
      && (f.Some? ==> LastScanned(cs, k, f.value))
      && (f.None? ==> forall i :: 0 <= i < |cs| ==> cs[i].full != k)
  {
    var fs := Outcomes(table, cs);
    var f := LastOf(fs, |cs|, k);
    if f.Some? {
      forall j | f.value < j < |cs|
        ensures cs[j].full != k
      {
        assert fs[j] == OutcomeOf(cs[j]);
      }
      assert fs[f.value] == OutcomeOf(cs[f.value]);
    } else {
      forall i | 0 <= i < |cs|
        ensures cs[i].full != k
      {
        assert fs[i] == OutcomeOf(cs[i]);
      }
    }
  }
}
