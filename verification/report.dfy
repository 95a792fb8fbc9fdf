/** What every analysis mode returns besides the graph: for each source
    symbol, the list of its targets together with the evidence for each
    (usage descriptions with locations, or `path:line` of `using` lines). */
module Report {
  import opened Dict
  import opened Graph

  datatype Detail = Detail(target: string, reasons: seq<string>)

  type Details = Dict<seq<Detail>>

  /** No symbol depends on itself. */
  predicate NoSelfEdges(deps: Graph) {
    forall k :: k in deps.m ==> k !in deps.m[k]
  }

  /** Every edge has a detail entry naming its target. */
  predicate Explained(deps: Graph, details: Details) {
    forall k, t :: k in deps.m && t in deps.m[k] ==>
      k in details.m && exists i :: 0 <= i < |details.m[k]| && details.m[k][i].target == t
  }

  /** No two details of a list name the same target. */
  predicate OnePerTarget(ds: seq<Detail>) {
    forall i, j :: 0 <= i < j < |ds| ==> ds[i].target != ds[j].target
  }

  /** Every symbol's detail list names each target once. */
  predicate Unrepeated(details: Details) {
    forall k :: k in details.m ==> OnePerTarget(details.m[k])
  }

  /** Every detail entry carries at least one piece of evidence. */
  predicate Substantiated(details: Details) {
    forall k, i :: k in details.m && 0 <= i < |details.m[k]| ==> |details.m[k][i].reasons| > 0
  }

  /** Every detail entry belongs to an edge of the graph. */
  predicate WithinEdges(deps: Graph, details: Details) {
    forall k, i :: k in details.m && 0 <= i < |details.m[k]| ==>
      k in deps.m && details.m[k][i].target in deps.m[k]
  }

  /** Replacing the targets of `k` and its details together keeps every
      edge explained, provided each new target has a detail. */
  lemma PutExplained(deps: Graph, details: Details, k: string, d: seq<string>, ds: seq<Detail>)
    requires Valid(deps) && Valid(details) && Explained(deps, details)
    requires forall t :: t in d ==> exists i :: 0 <= i < |ds| && ds[i].target == t
    ensures Explained(Put(deps, k, d), Put(details, k, ds))
  {
    var deps', details' := Put(deps, k, d), Put(details, k, ds);
    forall a, t | a in deps'.m && t in deps'.m[a]
      ensures a in details'.m && exists i :: 0 <= i < |details'.m[a]| && details'.m[a][i].target == t
    {
      if a != k {
        assert t in deps.m[a];
      }
    }
  }

  /** Storing a list that names each target once keeps every list so. */
  lemma PutUnrepeated(details: Details, k: string, ds: seq<Detail>)
    requires Valid(details) && Unrepeated(details) && OnePerTarget(ds)
    ensures Unrepeated(Put(details, k, ds))
  {
  }

  /** Emptying the targets of `k` keeps every edge explained. */
  lemma PutEmptyExplained(deps: Graph, details: Details, k: string)
    requires Valid(deps) && Explained(deps, details)
    ensures Explained(Put(deps, k, []), details)
  {
    var deps' := Put(deps, k, []);
    forall a, t | a in deps'.m && t in deps'.m[a]
      ensures a in details.m && exists i :: 0 <= i < |details.m[a]| && details.m[a][i].target == t
    {
      assert a != k;
      assert t in deps.m[a];
    }
  }
}
