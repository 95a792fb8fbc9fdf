/** Python's insertion-ordered `dict`: a sequence of distinct keys in
    insertion order and the map behind them.  Assigning to an existing key
    replaces its value and keeps its position. */
module Dict {

  datatype Dict<V> = Dict(keys: seq<string>, m: map<string, V>)

  predicate Distinct(xs: seq<string>) {
    forall i, j :: 0 <= i < j < |xs| ==> xs[i] != xs[j]
  }

  predicate Valid<V>(d: Dict<V>) {
    && Distinct(d.keys)
    && (forall k :: k in d.m ==> k in d.keys)
    && (forall i :: 0 <= i < |d.keys| ==> d.keys[i] in d.m)
  }

  function Empty<V>(): (d: Dict<V>)
    ensures Valid(d) && |d.keys| == 0
  {
    Dict([], map[])
  }

  /** `d[k] = v`. */
  function Put<V>(d: Dict<V>, k: string, v: V): (r: Dict<V>)
    requires Valid(d)
    ensures Valid(r)
    ensures r.m == d.m[k := v]
    ensures k in d.m ==> r.keys == d.keys
    ensures k !in d.m ==> r.keys == d.keys + [k]
  {
    if k in d.m then Dict(d.keys, d.m[k := v]) else Dict(d.keys + [k], d.m[k := v])
  }

  /** `d.get(k, default)`. */
  function Get<V>(d: Dict<V>, k: string, default: V): V {
    if k in d.m then d.m[k] else default
  }

  /** `d[k].append(...)` on a `defaultdict(list)`: extends the list stored at
      `k`, starting from the empty list. */
  function Append<V>(d: Dict<seq<V>>, k: string, xs: seq<V>): (r: Dict<seq<V>>)
    requires Valid(d)
    ensures Valid(r)
    ensures k in r.m && r.m[k] == Get(d, k, []) + xs
    ensures forall k' :: k' != k ==> (k' in r.m <==> k' in d.m)
    ensures forall k' :: k' != k && k' in d.m ==> r.m[k'] == d.m[k']
  {
    Put(d, k, Get(d, k, []) + xs)
  }

  /** `list(set(xs))`.  Python leaves the order of the result unspecified;
      this model keeps first occurrences, and every property of it is stated
      up to set equality. */
  function Dedup(xs: seq<string>): (r: seq<string>)
    ensures Distinct(r)
    ensures forall x :: x in r <==> x in xs
    ensures |r| <= |xs|
  {
    var r := DedupFrom(xs, []);
    assert [] + r == r;
    r
  }

  function DedupFrom(xs: seq<string>, seen: seq<string>): (r: seq<string>)
    requires Distinct(seen)
    ensures Distinct(seen + r)
    ensures forall x :: x in r <==> x in xs && x !in seen
    ensures |r| <= |xs|
    decreases |xs|
  {
    if |xs| == 0 then []
    else if xs[0] in seen then DedupFrom(xs[1..], seen)
    else
      var rest := DedupFrom(xs[1..], seen + [xs[0]]);
      assert seen + [xs[0]] + rest == seen + ([xs[0]] + rest);
      [xs[0]] + rest
  }
}
