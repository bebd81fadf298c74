/** `export_graphviz`: the Graphviz DOT text of a graph, built as a list of
    lines (header, layout option, one statement per node, one per edge,
    closing brace) joined by newlines. The file write is not modelled; the
    text it would write is the result. */
module Graphviz {
  import opened Wrappers
  import opened BaseGraph

  /** The opening line: a digraph for a directed graph, a graph otherwise,
      including a graph object that has no direction flag (None). */
  function Head(dirigido: Option<bool>): (r: string)
    ensures r == "digraph G {" <==> dirigido == Some(true)
    ensures r == "graph G {" <==> dirigido != Some(true)
  {
    if dirigido == Some(true) then "digraph G {" else "graph G {"
  }

  /** The edge connector matching the opening line. */
  function Conn(dirigido: Option<bool>): (r: string)
    ensures r == "->" <==> Head(dirigido) == "digraph G {"
    ensures r == "--" <==> Head(dirigido) == "graph G {"
  {
    if dirigido == Some(true) then "->" else "--"
  }

  const Overlap: string := "  overlap=false;"
  const Close: string := "}"

  /** `str(x)` of a coordinate and the `:.2f` rendering of a weight are
      parameters: float formatting is not modelled. */
  function NodeLine(n: Node, num: real -> string): string
  {
    if n.x.Some? && n.y.Some? then
      "  \"" + n.id + "\" [pos=\"" + num(n.x.value) + "," + num(n.y.value) + "!\"];"
    else
      "  \"" + n.id + "\";"
  }

  /** An edge statement; `weight` is the rendered weight when a weight
      function was given. */
  function EdgeLine(e: Edge, conn: string, weight: Option<string>): string
  {
    if weight.None? then
      "  \"" + e.origen + "\" " + conn + " \"" + e.destino + "\";"
    else
      "  \"" + e.origen + "\" " + conn + " \"" + e.destino + "\" [label=\"" + weight.value + "\"];"
  }

  /** The rendered weight of e, when a weight function was given. */
  function EdgeWeight(e: Edge, pesoFn: Option<(NodeId, NodeId) -> real>, fmt: real -> string): Option<string>
  {
    if pesoFn.None? then None else Some(fmt(pesoFn.value(e.origen, e.destino)))
  }

  /** A node statement carries an attribute list, which is where its
      closing `]` sits, exactly when both coordinates are present. */
  lemma NodeLineHasPos(n: Node, num: real -> string)
    ensures var l := NodeLine(n, num);
      |l| >= 2 && (l[|l| - 2] == ']' <==> n.x.Some? && n.y.Some?)
  {
  }

  /** An edge statement carries a label attribute exactly when a weight was
      rendered; it starts with the quoted origin and holds the connector. */
  lemma EdgeLineHasLabel(e: Edge, conn: string, weight: Option<string>)
    ensures var l := EdgeLine(e, conn, weight);
      && |l| >= 2 && (l[|l| - 2] == ']' <==> weight.Some?)
      && l[..|e.origen| + 4] == "  \"" + e.origen + "\""
      && l[|e.origen| + 5..|e.origen| + 5 + |conn|] == conn
  {
    var l := EdgeLine(e, conn, weight);
    var p := "  \"" + e.origen + "\" " + conn;
    assert l == p + l[|p|..];
  }

  /** One statement per node, in order. */
  function NodeLines(nodos: seq<Node>, num: real -> string): (r: seq<string>)
    ensures |r| == |nodos| && forall i :: 0 <= i < |nodos| ==> r[i] == NodeLine(nodos[i], num)
  {
    seq(|nodos|, i requires 0 <= i < |nodos| => NodeLine(nodos[i], num))
  }

  /** One statement per edge, in order. */
  function EdgeLines(aristas: seq<Edge>, conn: string, pesoFn: Option<(NodeId, NodeId) -> real>, fmt: real -> string)
    : (r: seq<string>)
    ensures |r| == |aristas|
    ensures forall i :: 0 <= i < |aristas| ==> r[i] == EdgeLine(aristas[i], conn, EdgeWeight(aristas[i], pesoFn, fmt))
  {
    seq(|aristas|, i requires 0 <= i < |aristas| => EdgeLine(aristas[i], conn, EdgeWeight(aristas[i], pesoFn, fmt)))
  }

  /** The lines of the DOT text of a graph. */
  function DotLines(dirigido: Option<bool>, nodos: seq<Node>, aristas: seq<Edge>,
                    pesoFn: Option<(NodeId, NodeId) -> real>, num: real -> string, fmt: real -> string)
    : seq<string>
  {
    [Head(dirigido), Overlap] + NodeLines(nodos, num) + EdgeLines(aristas, Conn(dirigido), pesoFn, fmt) + [Close]
  }

  /** The DOT lines are the opening line, the layout option, one statement
      per node and one per edge, both in order, and the closing brace. */
  lemma DotLinesShape(dirigido: Option<bool>, nodos: seq<Node>, aristas: seq<Edge>,
                      pesoFn: Option<(NodeId, NodeId) -> real>, num: real -> string, fmt: real -> string)
    ensures var r := DotLines(dirigido, nodos, aristas, pesoFn, num, fmt);
      && |r| == 3 + |nodos| + |aristas|
      && r[0] == Head(dirigido) && r[1] == Overlap && r[|r| - 1] == Close
      && (forall i :: 0 <= i < |nodos| ==> r[2 + i] == NodeLine(nodos[i], num))
      && (forall i :: 0 <= i < |aristas| ==>
            r[2 + |nodos| + i] == EdgeLine(aristas[i], Conn(dirigido), EdgeWeight(aristas[i], pesoFn, fmt)))
  {
    var ns, es := NodeLines(nodos, num), EdgeLines(aristas, Conn(dirigido), pesoFn, fmt);
    var r := [Head(dirigido), Overlap] + ns + es + [Close];
    assert forall i :: 0 <= i < |nodos| ==> r[2 + i] == ns[i];
    assert forall i :: 0 <= i < |aristas| ==> r[2 + |nodos| + i] == es[i];
  }

  /** Lines 15-38: the lines of the DOT text of a graph with direction flag
      `dirigido`, nodes `nodos` and edges `aristas`. */
  method ExportLines(dirigido: Option<bool>, nodos: seq<Node>, aristas: seq<Edge>,
                     pesoFn: Option<(NodeId, NodeId) -> real>, num: real -> string, fmt: real -> string)
    returns (lines: seq<string>)
    ensures lines == DotLines(dirigido, nodos, aristas, pesoFn, num, fmt)
  {
    var conn := Conn(dirigido);
    ghost var ns, es := NodeLines(nodos, num), EdgeLines(aristas, conn, pesoFn, fmt);
    lines := [Head(dirigido)];
    lines := lines + [Overlap];
    for i := 0 to |nodos|
      invariant lines == [Head(dirigido), Overlap] + ns[..i]
    {
      assert ns[..i + 1] == ns[..i] + [NodeLine(nodos[i], num)];
      lines := lines + [NodeLine(nodos[i], num)];
    }
    assert ns[..|nodos|] == ns;
    for i := 0 to |aristas|
      invariant lines == [Head(dirigido), Overlap] + ns + es[..i]
    {
      var e := aristas[i];
      assert es[..i + 1] == es[..i] + [EdgeLine(e, conn, EdgeWeight(e, pesoFn, fmt))];
      if pesoFn.None? {
        lines := lines + [EdgeLine(e, conn, None)];
      } else {
        var w := pesoFn.value(e.origen, e.destino);
        lines := lines + [EdgeLine(e, conn, Some(fmt(w)))];
      }
    }
    assert es[..|aristas|] == es;
    lines := lines + [Close];
  }

  /** `"\n".join(lines)`. */
  function Join(lines: seq<string>): string
  {
    if |lines| == 0 then ""
    else if |lines| == 1 then lines[0]
    else lines[0] + "\n" + Join(lines[1..])
  }

  /** Cutting a text at every newline: the inverse of `Join`. */
  function Split(s: string): (r: seq<string>)
    ensures |r| >= 1
  {
    if s == [] then [""]
    else
      var rest := Split(s[1..]);
      if s[0] == '\n' then [""] + rest else [[s[0]] + rest[0]] + rest[1..]
  }

  /** A text without newlines is one line. */
  lemma {:induction false} SplitLine(a: string)
    requires '\n' !in a
    ensures Split(a) == [a]
  {
    if a != [] {
      SplitLine(a[1..]);
      assert [a[0]] + a[1..] == a;
    }
  }

  /** A line without newlines, a newline, then the rest: the line comes
      first, then the lines of the rest. */
  lemma {:induction false} SplitFirst(a: string, b: string)
    requires '\n' !in a
    ensures Split(a + "\n" + b) == [a] + Split(b)
  {
    if a == [] {
      assert a + "\n" + b == ['\n'] + b;
      assert (['\n'] + b)[1..] == b;
    } else {
      assert (a + "\n" + b)[1..] == a[1..] + "\n" + b;
      SplitFirst(a[1..], b);
      assert [a[0]] + a[1..] == a;
    }
  }

  /** No line holds a newline. */
  predicate NoNewline(lines: seq<string>)
  {
    forall i :: 0 <= i < |lines| ==> '\n' !in lines[i]
  }

  /** Joining lines free of newlines and cutting the text at its newlines
      gives the lines back, so the text has exactly one line per entry. */
  lemma {:induction false} SplitJoin(lines: seq<string>)
    requires |lines| >= 1 && NoNewline(lines)
    ensures Split(Join(lines)) == lines
  {
    if |lines| == 1 {
      SplitLine(lines[0]);
    } else {
      SplitJoin(lines[1..]);
      SplitFirst(lines[0], Join(lines[1..]));
    }
  }

  /** The text ends with the last line: with no newline after it. */
  lemma {:induction false} JoinEnds(lines: seq<string>)
    requires |lines| >= 1 && lines[|lines| - 1] != []
    ensures |Join(lines)| >= 1 && Join(lines)[|Join(lines)| - 1] == lines[|lines| - 1][|lines[|lines| - 1]| - 1]
  {
    if |lines| > 1 {
      JoinEnds(lines[1..]);
    }
  }

  /** The text `export_graphviz` writes: the lines joined by newlines,
      whatever the ids and rendered numbers hold. When no id and no
      rendered number holds a newline, the text has
      3 + |nodos| + |aristas| lines, these being the statements above, and
      ends with the closing brace. */
  method ExportGraphviz(dirigido: Option<bool>, nodos: seq<Node>, aristas: seq<Edge>,
                        pesoFn: Option<(NodeId, NodeId) -> real>, num: real -> string, fmt: real -> string)
    returns (text: string)
    ensures text == Join(DotLines(dirigido, nodos, aristas, pesoFn, num, fmt))
    ensures |text| >= 1 && text[|text| - 1] == '}'
    ensures NoNewlineIn(nodos, aristas, num, fmt) ==>
      var ls := Split(text);
      && |ls| == 3 + |nodos| + |aristas|
      && ls[0] == Head(dirigido) && ls[1] == Overlap && ls[|ls| - 1] == Close
      && (forall i :: 0 <= i < |nodos| ==> ls[2 + i] == NodeLine(nodos[i], num))
      && (forall i :: 0 <= i < |aristas| ==>
            ls[2 + |nodos| + i] == EdgeLine(aristas[i], Conn(dirigido), EdgeWeight(aristas[i], pesoFn, fmt)))
  {
    var lines := ExportLines(dirigido, nodos, aristas, pesoFn, num, fmt);
    text := Join(lines);
    DotLinesShape(dirigido, nodos, aristas, pesoFn, num, fmt);
    JoinEnds(lines);
    if NoNewlineIn(nodos, aristas, num, fmt) {
      LinesNoNewline(dirigido, nodos, aristas, pesoFn, num, fmt, lines);
      SplitJoin(lines);
    }
  }

  /** No id and no rendered coordinate or weight holds a newline. */
  ghost predicate NoNewlineIn(nodos: seq<Node>, aristas: seq<Edge>, num: real -> string, fmt: real -> string)
  {
    && (forall i :: 0 <= i < |nodos| ==> '\n' !in nodos[i].id)
    && (forall i :: 0 <= i < |aristas| ==> '\n' !in aristas[i].origen && '\n' !in aristas[i].destino)
    && (forall r :: '\n' !in num(r))
    && (forall r :: '\n' !in fmt(r))
  }

  /** Then no line of the export holds a newline. */
  lemma LinesNoNewline(dirigido: Option<bool>, nodos: seq<Node>, aristas: seq<Edge>,
                       pesoFn: Option<(NodeId, NodeId) -> real>, num: real -> string, fmt: real -> string,
                       lines: seq<string>)
    requires NoNewlineIn(nodos, aristas, num, fmt)
    requires |lines| == 3 + |nodos| + |aristas|
    requires lines[0] == Head(dirigido) && lines[1] == Overlap && lines[|lines| - 1] == Close
    requires forall i :: 0 <= i < |nodos| ==> lines[2 + i] == NodeLine(nodos[i], num)
    requires forall i :: 0 <= i < |aristas| ==>
      lines[2 + |nodos| + i] == EdgeLine(aristas[i], Conn(dirigido), EdgeWeight(aristas[i], pesoFn, fmt))
    ensures NoNewline(lines)
  {
    forall i | 0 <= i < |lines| ensures '\n' !in lines[i] {
      if 2 <= i < 2 + |nodos| {
        NodeLineNoNewline(nodos[i - 2], num);
      } else if 2 + |nodos| <= i < |lines| - 1 {
        var e := aristas[i - 2 - |nodos|];
        assert Conn(dirigido) == "->" || Conn(dirigido) == "--";
        if pesoFn.Some? {
          var x := pesoFn.value(e.origen, e.destino);
          assert '\n' !in fmt(x);
        }
        EdgeLineNoNewline(e, Conn(dirigido), EdgeWeight(e, pesoFn, fmt));
      }
    }
  }

  lemma NodeLineNoNewline(n: Node, num: real -> string)
    requires '\n' !in n.id && forall r :: '\n' !in num(r)
    ensures '\n' !in NodeLine(n, num)
  {
    if n.x.Some? && n.y.Some? {
      var x: real, y: real := n.x.value, n.y.value;
      var a, b := num(x), num(y);
      assert '\n' !in a && '\n' !in b;
      assert NodeLine(n, num) == "  \"" + n.id + "\" [pos=\"" + a + "," + b + "!\"];";
    }
  }

  lemma EdgeLineNoNewline(e: Edge, conn: string, weight: Option<string>)
    requires '\n' !in e.origen && '\n' !in e.destino && '\n' !in conn
    requires weight.Some? ==> '\n' !in weight.value
    ensures '\n' !in EdgeLine(e, conn, weight)
  {
  }
}
