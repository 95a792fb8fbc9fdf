/** `generate_dot_content`: the Graphviz text of a dependency graph.  Nodes
    on a reported cycle are filled light coral and the others light green;
    edges on a reported cycle are red and carry the evidence as a label,
    the others are dark green and unlabelled. */
module Dot {
  import opened Wrappers
  import opened Text
  import opened Dict
  import opened Graph
  import opened Report
  import opened Quoting

  type Edge = (string, string)

  const Header: string := "digraph Dependencies {\n  rankdir=TB;\n  node [shape=box, style=filled];\n  edge [fontsize=8];\n\n"

  /** Both ends of every reported edge. */
  function CircularNodes(circular: set<Edge>): (ns: set<string>)
    ensures forall n :: n in ns <==> exists e :: e in circular && (e.0 == n || e.1 == n)
  {
    (set e | e in circular :: e.0) + (set e | e in circular :: e.1)
  }

  function NodeColor(n: string, circular: set<Edge>): string {
    if n in CircularNodes(circular) then "lightcoral" else "lightgreen"
  }

  function NodeLine(n: string, circular: set<Edge>): string {
    "  \"" + Escape(n) + "\" [fillcolor=" + NodeColor(n, circular) + "];\n"
  }

  /** The node lines, one per node in the order given. */
  function NodeLines(order: seq<string>, circular: set<Edge>): (ls: seq<string>)
    ensures |ls| == |order| && forall i :: 0 <= i < |order| ==> ls[i] == NodeLine(order[i], circular)
  {
    seq(|order|, i requires 0 <= i < |order| => NodeLine(order[i], circular))
  }

  /** The evidence shown on an edge: all of at most two reasons, or the
      first one and how many more there are, separated by line-break
      escapes.  A reader recovers the first reason and the count from the
      long form. */
  function RawLabel(reasons: seq<string>): (l: string)
    ensures |reasons| == 0 ==> l == ""
    ensures |reasons| == 1 ==> l == reasons[0]
    ensures |reasons| == 2 ==> l == reasons[0] + "\\n" + reasons[1]
    ensures |reasons| > 2 ==> ReadMore(l) == Some((reasons[0], |reasons| - 1))
  {
    if |reasons| <= 2 then
      assert |reasons| == 2 ==> Join(reasons[1..], "\\n") == reasons[1];
      Join(reasons, "\\n")
    else
      ReadMoreOf(reasons[0], |reasons| - 1);
      reasons[0] + MoreTail(|reasons| - 1)
  }

  /** What follows the first reason in the long form: a line-break escape
      and how many reasons are left out. */
  function MoreTail(n: nat): string {
    "\\n...and " + NatToString(n) + " more"
  }

  /** How a reader takes the long form of a label apart: the reason shown
      and the number of reasons left out. */
  function ReadMore(l: string): Option<(string, nat)> {
    if !EndsWith(l, " more") then None
    else match TrailingNat(l[..|l| - 5])
      case None => None
      case Some(p) => if EndsWith(p.0, "\\n...and ") then Some((p.0[..|p.0| - 9], p.1)) else None
  }

  /** The long form of a label reads back as its first reason and count. */
  lemma ReadMoreOf(first: string, n: nat)
    ensures ReadMore(first + MoreTail(n)) == Some((first, n))
  {
    var head := first + "\\n...and ";
    var l := first + MoreTail(n);
    assert l == head + NatToString(n) + " more";
    assert l[..|l| - 5] == head + NatToString(n);
    TrailingNatOf(head, n);
    assert head[..|head| - 9] == first;
  }

  /** Breaking the lines of a long label touches only the first reason. */
  lemma LongLabel(reasons: seq<string>)
    requires |reasons| > 2
    ensures BreakLines(RawLabel(reasons)) == BreakLines(reasons[0]) + MoreTail(|reasons| - 1)
    ensures ReadMore(BreakLines(RawLabel(reasons))) == Some((BreakLines(reasons[0]), |reasons| - 1))
    ensures Closable(BreakLines(RawLabel(reasons)))
  {
    BrokenLongForm(reasons[0], |reasons| - 1);
  }

  /** The long form with its lines broken, for any first reason and count. */
  lemma BrokenLongForm(first: string, n: nat)
    ensures BreakLines(first + MoreTail(n)) == BreakLines(first) + MoreTail(n)
    ensures ReadMore(BreakLines(first + MoreTail(n))) == Some((BreakLines(first), n))
    ensures Closable(BreakLines(first + MoreTail(n)))
  {
    TailUnbroken(n);
    BreakBefore(first, MoreTail(n));
    ReadMoreOf(BreakLines(first), n);
  }

  /** Breaking lines of a text followed by a text without newlines. */
  lemma BreakBefore(first: string, tail: string)
    requires ReplaceChar(tail, '\n', "\\n") == tail && |tail| > 0
    ensures BreakLines(first + tail) == BreakLines(first) + tail
    ensures Closable(BreakLines(first + tail)) <==> tail[|tail| - 1] != '\\'
  {
    ReplaceConcat(first, tail, '\n', "\\n");
  }

  /** The count part of a long label holds no newline. */
  lemma TailUnbroken(n: nat)
    ensures ReplaceChar(MoreTail(n), '\n', "\\n") == MoreTail(n) && MoreTail(n)[|MoreTail(n)| - 1] == 'e'
  {
    var d := NatToString(n);
    var tail := MoreTail(n);
    assert forall k :: 0 <= k < |d| ==> d[k] != '\n';
    assert forall k :: 0 <= k < |tail| ==> tail[k] != '\n';
    ReplaceAbsent(tail, '\n', "\\n");
  }

  /** The label text: quotes escaped, newlines turned into line-break
      escapes; quoted, it reads back as the evidence with its line breaks. */
  function EdgeLabel(reasons: seq<string>): (l: string)
    ensures '\n' !in l
    ensures l == "" <==> RawLabel(reasons) == ""
    ensures Closable(BreakLines(RawLabel(reasons))) ==> ReadQuoted(l + "\"") == Some((BreakLines(RawLabel(reasons)), ""))
  {
    var l := BreakLines(Escape(RawLabel(reasons)));
    ReplaceEmpty(RawLabel(reasons), '"', "\\\"");
    ReplaceEmpty(Escape(RawLabel(reasons)), '\n', "\\n");
    if Closable(BreakLines(RawLabel(reasons))) then
      EscapeBreakCommute(RawLabel(reasons));
      ReadEscaped(BreakLines(RawLabel(reasons)), "");
      assert l + "\"" + "" == l + "\"";
      l
    else l
  }

  /** The label of the first detail entry for `to`, or none. */
  function FirstLabel(ds: seq<Detail>, to: string): (l: string)
    ensures (forall i :: 0 <= i < |ds| ==> ds[i].target != to) ==> l == ""
    ensures forall i :: ((0 <= i < |ds| && ds[i].target == to && (forall j :: 0 <= j < i ==> ds[j].target != to))
      ==> l == EdgeLabel(ds[i].reasons))
  {
    if |ds| == 0 then ""
    else if ds[0].target == to then EdgeLabel(ds[0].reasons)
    else
      var l := FirstLabel(ds[1..], to);
      assert forall i :: 1 <= i < |ds| ==> ds[i] == ds[1..][i - 1];
      l
  }

  /** The label of edge `from -> to`: only red edges of a source with
      details get one. */
  function LabelOf(from: string, to: string, circular: set<Edge>, details: Details): (l: string)
    ensures (from, to) !in circular || from !in details.m ==> l == ""
  {
    if (from, to) in circular && from in details.m then FirstLabel(details.m[from], to) else ""
  }

  function EdgeLine(from: string, to: string, circular: set<Edge>, details: Details): string {
    "  \"" + Escape(from) + "\" -> \"" + Escape(to) + "\"" + Attributes(from, to, circular, details)
  }

  /** The attribute list of an edge: red exactly for a reported edge and
      dark green otherwise, and the label when there is one; a reader gets
      both back. */
  function Attributes(from: string, to: string, circular: set<Edge>, details: Details): (a: string)
    ensures StartsWith(a, " [color=red") <==> (from, to) in circular
    ensures ReadAttributes(a) == Some((if (from, to) in circular then "red" else "darkgreen",
      if LabelOf(from, to, circular, details) == "" then None else Some(LabelOf(from, to, circular, details))))
  {
    var color := if (from, to) in circular then "red" else "darkgreen";
    var caption := LabelOf(from, to, circular, details);
    ColorPrefix(color, if caption != "" then ", label=\"" + caption + "\"];\n" else "];\n");
    if caption != "" then
      ReadLabelled(color, caption);
      " [color=" + color + ", label=\"" + caption + "\"];\n"
    else
      ReadPlain(color);
      " [color=" + color + "];\n"
  }

  /** The position of the first `c` in `s`, or its length when there is none. */
  function UpTo(s: string, c: char): (k: nat)
    ensures k <= |s| && (k < |s| ==> s[k] == c)
    ensures forall j :: 0 <= j < k ==> s[j] != c
  {
    if |s| == 0 || s[0] == c then 0 else 1 + UpTo(s[1..], c)
  }

  lemma {:induction false} UpToOf(x: string, y: string, c: char)
    requires c !in x && (|y| == 0 || y[0] == c)
    ensures UpTo(x + y, c) == |x|
    decreases |x|
  {
    if |x| > 0 {
      assert (x + y)[1..] == x[1..] + y;
      UpToOf(x[1..], y, c);
    } else {
      assert x + y == y;
    }
  }

  /** How a DOT reader takes an edge's attribute list apart: the colour,
      and the label text as written between its quotes, if any. */
  function ReadAttributes(a: string): Option<(string, Option<string>)> {
    if !(StartsWith(a, " [color=") && EndsWith(a, "];\n") && 11 <= |a|) then None
    else ReadSettings(a[8..|a| - 3])
  }

  /** The settings between `[color=` and `]`: the colour up to the first
      comma, then an optional quoted label. */
  function ReadSettings(mid: string): Option<(string, Option<string>)> {
    var k := UpTo(mid, ',');
    if k == |mid| then Some((mid, None))
    else
      var rest := mid[k..];
      if StartsWith(rest, ", label=\"") && EndsWith(rest, "\"") && 10 <= |rest|
      then Some((mid[..k], Some(rest[9..|rest| - 1]))) else None
  }

  /** The colour decides the first eleven characters of the list. */
  lemma ColorPrefix(color: string, tail: string)
    requires color == "red" || color == "darkgreen"
    ensures StartsWith(" [color=" + color + tail, " [color=red") <==> color == "red"
  {
    var a := " [color=" + color + tail;
    assert a[8] == color[0];
    assert color == "red" ==> a[..11] == " [color=red";
  }

  /** An attribute list reads back as the settings it frames. */
  lemma ReadFramed(mid: string)
    requires 3 <= |mid|
    ensures ReadAttributes(" [color=" + mid + "];\n") == ReadSettings(mid)
  {
    var a := " [color=" + mid + "];\n";
    assert a[8..|a| - 3] == mid;
    assert a[..8] == " [color=";
    assert a[|a| - 3..] == "];\n";
  }

  /** An unlabelled attribute list reads back as its colour. */
  lemma ReadPlain(color: string)
    requires color == "red" || color == "darkgreen"
    ensures ReadAttributes(" [color=" + color + "];\n") == Some((color, None))
  {
    ReadFramed(color);
    UpToOf(color, "", ',');
    assert color + "" == color;
  }

  /** A labelled attribute list reads back as its colour and label. */
  lemma ReadLabelled(color: string, caption: string)
    requires color == "red" || color == "darkgreen"
    ensures ReadAttributes(" [color=" + color + ", label=\"" + caption + "\"];\n") == Some((color, Some(caption)))
  {
    var rest := ", label=\"" + caption + "\"";
    var mid := color + rest;
    assert " [color=" + color + ", label=\"" + caption + "\"];\n" == " [color=" + mid + "];\n";
    ReadFramed(mid);
    ReadLabelledSettings(color, caption);
  }

  /** The settings of a labelled list read back as its colour and label. */
  lemma ReadLabelledSettings(color: string, caption: string)
    requires color == "red" || color == "darkgreen"
    ensures ReadSettings(color + (", label=\"" + caption + "\"")) == Some((color, Some(caption)))
  {
    var rest := ", label=\"" + caption + "\"";
    var mid := color + rest;
    UpToOf(color, rest, ',');
    assert mid[|color|..] == rest && mid[..|color|] == color;
    assert rest[..9] == ", label=\"";
    assert rest[9..|rest| - 1] == caption;
    assert rest[|rest| - 1..] == "\"";
  }

  /** The edges of `keys` in dictionary order, each source's targets in
      list order. */
  function EdgesOf(g: Graph, keys: seq<string>): (es: seq<Edge>)
    requires forall k :: k in keys ==> k in g.m
    ensures forall a, b :: (a, b) in es <==> a in keys && b in g.m[a]
    decreases |keys|
  {
    if |keys| == 0 then []
    else
      var k := keys[|keys| - 1];
      var before := EdgesOf(g, keys[..|keys| - 1]);
      assert forall a :: a in keys <==> a in keys[..|keys| - 1] || a == k;
      before + From(k, g.m[k])
  }

  /** The edges from `k` to each of `ts`, in order. */
  function From(k: string, ts: seq<string>): (es: seq<Edge>)
    ensures forall a, b :: (a, b) in es <==> a == k && b in ts
  {
    if |ts| == 0 then [] else [(k, ts[0])] + From(k, ts[1..])
  }

  /** Every edge of the graph, in the order the renderer visits them. */
  function Edges(g: Graph): (es: seq<Edge>)
    requires Valid(g)
    ensures forall a, b :: (a, b) in es <==> IsEdge(g, a, b)
  {
    EdgesOf(g, g.keys)
  }

  function EdgeLines(es: seq<Edge>, circular: set<Edge>, details: Details): (ls: seq<string>)
    ensures |ls| == |es| && forall i :: 0 <= i < |es| ==> ls[i] == EdgeLine(es[i].0, es[i].1, circular, details)
  {
    seq(|es|, i requires 0 <= i < |es| => EdgeLine(es[i].0, es[i].1, circular, details))
  }

  function Concat(ls: seq<string>): string {
    if |ls| == 0 then "" else ls[0] + Concat(ls[1..])
  }

  /** The node order of the Python set: every node exactly once. */
  ghost predicate NodeOrder(g: Graph, order: seq<string>) {
    Distinct(order) && forall n :: n in order <==> n in Nodes(g)
  }

  /** The whole DOT text: the header, a line per node, a blank line, a
      line per edge, and the closing brace.  The line of every node and of
      every edge of the graph occurs in it. */
  function Render(g: Graph, circular: set<Edge>, details: Details, order: seq<string>): (text: string)
    requires Valid(g) && NodeOrder(g, order)
    ensures StartsWith(text, Header) && EndsWith(text, "}")
    ensures forall n :: n in Nodes(g) ==> Occurs(text, NodeLine(n, circular))
    ensures forall a, b :: IsEdge(g, a, b) ==> Occurs(text, EdgeLine(a, b, circular, details))
  {
    var body := Concat(NodeLines(order, circular)) + "\n" + Concat(EdgeLines(Edges(g), circular, details));
    Framed(Header, body, "}");
    RenderedLines(g, circular, details, order, Header, "}");
    Header + body + "}"
  }

  /** `line` occurs somewhere in `text`. */
  ghost predicate Occurs(text: string, line: string) {
    exists x, y :: 0 <= x <= y <= |text| && text[x..y] == line
  }

  /** What occurs in a text occurs in it with anything appended. */
  lemma OccursLeft(a: string, b: string, line: string)
    requires Occurs(a, line)
    ensures Occurs(a + b, line)
  {
    var x, y :| 0 <= x <= y <= |a| && a[x..y] == line;
    assert (a + b)[x..y] == a[x..y];
  }

  /** What occurs in a text occurs in it with anything prepended. */
  lemma OccursRight(a: string, b: string, line: string)
    requires Occurs(b, line)
    ensures Occurs(a + b, line)
  {
    var x, y :| 0 <= x <= y <= |b| && b[x..y] == line;
    assert (a + b)[|a| + x..|a| + y] == b[x..y];
  }

  /** Every line of a concatenation occurs in it. */
  lemma {:induction false} ConcatOccurs(ls: seq<string>, i: nat)
    requires i < |ls|
    ensures Occurs(Concat(ls), ls[i])
  {
    var t := Concat(ls);
    assert t == ls[0] + Concat(ls[1..]);
    if i == 0 {
      assert t[0..|ls[0]|] == ls[0];
    } else {
      ConcatOccurs(ls[1..], i - 1);
      OccursRight(ls[0], Concat(ls[1..]), ls[i]);
    }
  }

  /** What occurs in the body occurs in the framed text. */
  lemma OccursFramed(pre: string, body: string, post: string, line: string)
    requires Occurs(body, line)
    ensures Occurs(pre + body + post, line)
  {
    OccursRight(pre, body, line);
    OccursLeft(pre + body, post, line);
  }

  /** Every line of either block occurs in the framed text. */
  lemma FramedOccurs(pre: string, nls: seq<string>, els: seq<string>, post: string)
    ensures var text := pre + (Concat(nls) + "\n" + Concat(els)) + post;
      && (forall i :: 0 <= i < |nls| ==> Occurs(text, nls[i]))
      && (forall i :: 0 <= i < |els| ==> Occurs(text, els[i]))
  {
    var nl, el := Concat(nls), Concat(els);
    forall i | 0 <= i < |nls|
      ensures Occurs(pre + (nl + "\n" + el) + post, nls[i])
    {
      ConcatOccurs(nls, i);
      OccursLeft(nl, "\n", nls[i]);
      OccursLeft(nl + "\n", el, nls[i]);
      OccursFramed(pre, nl + "\n" + el, post, nls[i]);
    }
    forall i | 0 <= i < |els|
      ensures Occurs(pre + (nl + "\n" + el) + post, els[i])
    {
      ConcatOccurs(els, i);
      OccursRight(nl + "\n", el, els[i]);
      OccursFramed(pre, nl + "\n" + el, post, els[i]);
    }
  }

  /** The node and edge lines of the graph all occur in the rendered text. */
  lemma RenderedLines(g: Graph, circular: set<Edge>, details: Details, order: seq<string>, pre: string, post: string)
    requires Valid(g) && NodeOrder(g, order)
    ensures var nl, el := Concat(NodeLines(order, circular)), Concat(EdgeLines(Edges(g), circular, details));
      var text := pre + (nl + "\n" + el) + post;
      && (forall n :: n in Nodes(g) ==> Occurs(text, NodeLine(n, circular)))
      && (forall a, b :: IsEdge(g, a, b) ==> Occurs(text, EdgeLine(a, b, circular, details)))
  {
    var nls, els := NodeLines(order, circular), EdgeLines(Edges(g), circular, details);
    var text := pre + (Concat(nls) + "\n" + Concat(els)) + post;
    FramedOccurs(pre, nls, els, post);
    NodeLinesOccur(g, circular, order, text);
    EdgeLinesOccur(g, circular, details, text);
  }

  /** Every node has a line among the node lines. */
  lemma NodeLinesOccur(g: Graph, circular: set<Edge>, order: seq<string>, text: string)
    requires NodeOrder(g, order)
    requires var nls := NodeLines(order, circular); forall i :: 0 <= i < |nls| ==> Occurs(text, nls[i])
    ensures forall n :: n in Nodes(g) ==> Occurs(text, NodeLine(n, circular))
  {
    var nls := NodeLines(order, circular);
    forall n | n in Nodes(g)
      ensures Occurs(text, NodeLine(n, circular))
    {
      var i :| 0 <= i < |order| && order[i] == n;
      assert Occurs(text, nls[i]);
    }
  }

  /** Every edge has a line among the edge lines. */
  lemma EdgeLinesOccur(g: Graph, circular: set<Edge>, details: Details, text: string)
    requires Valid(g)
    requires var els := EdgeLines(Edges(g), circular, details); forall i :: 0 <= i < |els| ==> Occurs(text, els[i])
    ensures forall a, b :: IsEdge(g, a, b) ==> Occurs(text, EdgeLine(a, b, circular, details))
  {
    var es := Edges(g);
    var els := EdgeLines(es, circular, details);
    forall a, b | IsEdge(g, a, b)
      ensures Occurs(text, EdgeLine(a, b, circular, details))
    {
      assert (a, b) in es;
      var i :| 0 <= i < |es| && es[i] == (a, b);
      assert Occurs(text, els[i]);
    }
  }

  /** A concatenation starts with its first part and ends with its last. */
  lemma Framed(a: string, b: string, c: string)
    ensures StartsWith(a + b + c, a) && EndsWith(a + b + c, c)
  {
    assert (a + b + c)[..|a|] == a;
    assert (a + b + c)[|a + b + c| - |c|..] == c;
  }

  /** How a DOT reader takes a node line apart: the node name and its
      fill colour. */
  function ReadNode(line: string): (r: Option<(string, string)>) {
    if !StartsWith(line, "  \"") then None
    else match ReadQuoted(line[3..])
      case None => None
      case Some(p) =>
        var pre := " [fillcolor=";
        var post := "];\n";
        if StartsWith(p.1, pre) && EndsWith(p.1, post) && |pre| + |post| <= |p.1|
        then Some((p.0, p.1[|pre|..|p.1| - |post|])) else None
  }

  /** The middle of a concatenation of three parts. */
  lemma Middle(a: string, b: string, c: string)
    ensures |a| + |c| <= |a + b + c| && (a + b + c)[|a|..|a + b + c| - |c|] == b
  {
  }

  /** A line that opens a quoted name is read from just after the quote. */
  lemma Opened(x: string)
    ensures StartsWith("  \"" + x, "  \"") && ("  \"" + x)[3..] == x
  {
    Framed("  \"", x, "");
    assert "  \"" + x + "" == "  \"" + x;
  }

  /** The attribute part of a node line yields its colour. */
  lemma NodeTail(color: string)
    ensures var rest := " [fillcolor=" + color + "];\n";
      StartsWith(rest, " [fillcolor=") && EndsWith(rest, "];\n") && |" [fillcolor="| + |"];\n"| <= |rest|
      && rest[|" [fillcolor="|..|rest| - |"];\n"|] == color
  {
    Framed(" [fillcolor=", color, "];\n");
    Middle(" [fillcolor=", color, "];\n");
  }

  /** A node line is the opening quote followed by the escaped name, the
      closing quote and the attribute part. */
  lemma NodeLineShape(e: string, color: string)
    ensures "  \"" + e + "\" [fillcolor=" + color + "];\n" == "  \"" + (e + "\"" + (" [fillcolor=" + color + "];\n"))
  {
  }

  /** A node line for any colour reads back as its node and colour. */
  lemma ReadNodeOf(n: string, color: string)
    requires Closable(n)
    ensures ReadNode("  \"" + Escape(n) + "\" [fillcolor=" + color + "];\n") == Some((n, color))
  {
    var rest := " [fillcolor=" + color + "];\n";
    NodeLineShape(Escape(n), color);
    Opened(Escape(n) + "\"" + rest);
    ReadEscaped(n, rest);
    NodeTail(color);
  }

  /** Reading a node line back gives the node and its colour: light coral
      exactly for nodes on a reported cycle. */
  lemma ReadNodeLine(n: string, circular: set<Edge>)
    requires Closable(n)
    ensures ReadNode(NodeLine(n, circular)) == Some((n, NodeColor(n, circular)))
    ensures NodeColor(n, circular) == "lightcoral" <==> exists e :: e in circular && (e.0 == n || e.1 == n)
  {
    ReadNodeOf(n, NodeColor(n, circular));
  }

  /** How a DOT reader takes an edge line apart: both ends and the text of
      the attribute list. */
  function ReadEdge(line: string): (r: Option<(string, string, string)>) {
    if !StartsWith(line, "  \"") then None
    else match ReadQuoted(line[3..])
      case None => None
      case Some(p) =>
        if !StartsWith(p.1, " -> \"") then None
        else match ReadQuoted(p.1[5..])
          case None => None
          case Some(q) => Some((p.0, q.0, q.1))
  }

  /** The part of an edge line after the source reads back as the target
      and the attributes. */
  lemma EdgeMid(to: string, attrs: string)
    requires Closable(to)
    ensures var mid := " -> \"" + Escape(to) + "\"" + attrs;
      StartsWith(mid, " -> \"") && ReadQuoted(mid[5..]) == Some((to, attrs))
  {
    var mid := " -> \"" + Escape(to) + "\"" + attrs;
    Framed(" -> \"", Escape(to) + "\"" + attrs, "");
    assert mid == " -> \"" + (Escape(to) + "\"" + attrs) + "";
    assert mid[5..] == Escape(to) + "\"" + attrs;
    ReadEscaped(to, attrs);
  }

  /** An edge line is the opening quote followed by the escaped source,
      the closing quote and the rest of the line. */
  lemma EdgeLineShape(ef: string, et: string, attrs: string)
    ensures "  \"" + ef + "\" -> \"" + et + "\"" + attrs == "  \"" + (ef + "\"" + (" -> \"" + et + "\"" + attrs))
  {
  }

  /** An edge line with any attributes reads back as its two ends and
      those attributes. */
  lemma ReadEdgeOf(from: string, to: string, attrs: string)
    requires Closable(from) && Closable(to)
    ensures ReadEdge("  \"" + Escape(from) + "\" -> \"" + Escape(to) + "\"" + attrs) == Some((from, to, attrs))
  {
    var mid := " -> \"" + Escape(to) + "\"" + attrs;
    EdgeLineShape(Escape(from), Escape(to), attrs);
    Opened(Escape(from) + "\"" + mid);
    ReadEscaped(from, mid);
    EdgeMid(to, attrs);
  }

  /** Reading an edge line back gives the edge's two ends and its
      attributes; a label appears only on a reported edge. */
  lemma ReadEdgeLine(from: string, to: string, circular: set<Edge>, details: Details)
    requires Closable(from) && Closable(to)
    ensures ReadEdge(EdgeLine(from, to, circular, details)) == Some((from, to, Attributes(from, to, circular, details)))
    ensures LabelOf(from, to, circular, details) != "" ==> (from, to) in circular
  {
    ReadEdgeOf(from, to, Attributes(from, to, circular, details));
  }

  /** The label is a well-formed quoted string: the reader recovers the
      evidence text with its newlines as line-break escapes, and reading
      stops at the quote that closes the label. */
  lemma ReadLabel(reasons: seq<string>, rest: string)
    requires Closable(BreakLines(RawLabel(reasons)))
    ensures ReadQuoted(EdgeLabel(reasons) + "\"" + rest) == Some((BreakLines(RawLabel(reasons)), rest))
  {
    EscapeBreakCommute(RawLabel(reasons));
    ReadEscaped(BreakLines(RawLabel(reasons)), rest);
  }

  /** Entry `i` is the first detail entry naming `to`. */
  ghost predicate FirstFor(ds: seq<Detail>, to: string, i: int) {
    0 <= i < |ds| && ds[i].target == to && forall j :: 0 <= j < i ==> ds[j].target != to
  }

  /** A reported edge whose evidence has more than two reasons: its line
      reads back as the edge with a red attribute list, whose label reads
      back as the first reason and the number of the others. */
  lemma ReportedEdgeLabel(from: string, to: string, circular: set<Edge>, details: Details, i: nat)
    requires (from, to) in circular && from in details.m && FirstFor(details.m[from], to, i)
    requires Closable(from) && Closable(to) && |details.m[from][i].reasons| > 2
    ensures var rs, attrs := details.m[from][i].reasons, Attributes(from, to, circular, details);
      && ReadEdge(EdgeLine(from, to, circular, details)) == Some((from, to, attrs))
      && ReadAttributes(attrs) == Some(("red", Some(EdgeLabel(rs))))
      && ReadQuoted(EdgeLabel(rs) + "\"") == Some((BreakLines(RawLabel(rs)), ""))
      && ReadMore(BreakLines(RawLabel(rs))) == Some((BreakLines(rs[0]), |rs| - 1))
  {
    var rs := details.m[from][i].reasons;
    ReadEdgeLine(from, to, circular, details);
    assert LabelOf(from, to, circular, details) == EdgeLabel(rs);
    LongLabel(rs);
    assert RawLabel(rs) != "";
  }

  /** The rendered node lines name every node of the graph exactly once
      and nothing else. */
  lemma NodesRendered(g: Graph, order: seq<string>, circular: set<Edge>)
    requires Valid(g) && NodeOrder(g, order)
    requires forall n :: n in Nodes(g) ==> Closable(n)
    ensures forall n :: n in Nodes(g) <==> exists i :: 0 <= i < |order| && ReadNode(NodeLines(order, circular)[i]) == Some((n, NodeColor(n, circular)))
  {
    forall i | 0 <= i < |order|
      ensures ReadNode(NodeLines(order, circular)[i]) == Some((order[i], NodeColor(order[i], circular)))
    {
      ReadNodeLine(order[i], circular);
    }
  }

  /** The rendered edge lines name exactly the edges of the graph. */
  lemma EdgesRendered(g: Graph, circular: set<Edge>, details: Details)
    requires Valid(g)
    requires forall n :: n in Nodes(g) ==> Closable(n)
    ensures var es := Edges(g);
      forall a, b :: IsEdge(g, a, b) <==> exists i :: 0 <= i < |es| && ReadEdge(EdgeLines(es, circular, details)[i]) == Some((a, b, Attributes(a, b, circular, details)))
  {
    var es := Edges(g);
    forall i | 0 <= i < |es|
      ensures IsEdge(g, es[i].0, es[i].1)
      ensures ReadEdge(EdgeLines(es, circular, details)[i]) == Some((es[i].0, es[i].1, Attributes(es[i].0, es[i].1, circular, details)))
    {
      assert es[i] in es;
      assert es[i].0 in g.m && es[i].1 in Nodes(g);
      ReadEdgeLine(es[i].0, es[i].1, circular, details);
    }
    forall a, b | IsEdge(g, a, b)
      ensures exists i :: 0 <= i < |es| && ReadEdge(EdgeLines(es, circular, details)[i]) == Some((a, b, Attributes(a, b, circular, details)))
    {
      assert (a, b) in es;
      var i :| 0 <= i < |es| && es[i] == (a, b);
      assert ReadEdge(EdgeLines(es, circular, details)[i]) == Some((a, b, Attributes(a, b, circular, details)));
    }
  }

  /** Every node of the graph can be read out of the rendered text, with
      its colour. */
  lemma RenderShowsNode(g: Graph, circular: set<Edge>, details: Details, order: seq<string>, n: string)
    requires Valid(g) && NodeOrder(g, order) && n in Nodes(g) && Closable(n)
    ensures var text := Render(g, circular, details, order);
      exists x, y :: 0 <= x <= y <= |text| && ReadNode(text[x..y]) == Some((n, NodeColor(n, circular)))
  {
    var text := Render(g, circular, details, order);
    var line := NodeLine(n, circular);
    ReadNodeLine(n, circular);
  }

  /** Every edge of the graph can be read out of the rendered text, with
      its attribute list. */
  lemma RenderShowsEdge(g: Graph, circular: set<Edge>, details: Details, order: seq<string>, a: string, b: string)
    requires Valid(g) && NodeOrder(g, order) && IsEdge(g, a, b) && Closable(a) && Closable(b)
    ensures var text := Render(g, circular, details, order);
      exists x, y :: 0 <= x <= y <= |text| && ReadEdge(text[x..y]) == Some((a, b, Attributes(a, b, circular, details)))
  {
    var text := Render(g, circular, details, order);
    var line := EdgeLine(a, b, circular, details);
    ReadEdgeLine(a, b, circular, details);
  }
}
