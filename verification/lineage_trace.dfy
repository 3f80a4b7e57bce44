/**
 * Tracing and drawing lineage, the second half of `process_lineage_json.py`:
 * a depth-first walk from the target object through `forward_graph`
 * (downstream: what uses it) or `reverse_graph` (upstream: what it is made
 * from), emitting every followed edge as `(source, target)`, and the
 * Mermaid lines drawn from those edges.
 */
module LineageTrace {
  import opened Text
  import opened Seqs
  import opened LineageGraph

  datatype Direction = Downstream | Upstream

  /** `forward_graph if direction == "DOWNSTREAM" else reverse_graph` */
  function Chosen(g: Graph, dir: Direction): Adjacency {
    if dir == Downstream then g.forward else g.reverse
  }

  /** The edge emitted when `relative` is found from `node`: always source first. */
  function Oriented(dir: Direction, node: Node, relative: Node): Edge {
    if dir == Downstream then (node, relative) else (relative, node)
  }

  /** The end of an emitted edge from which it was found. */
  function Expanded(dir: Direction, e: Edge): Node {
    if dir == Downstream then e.0 else e.1
  }

  /** The end of an emitted edge that was found. */
  function Reached(dir: Direction, e: Edge): Node {
    if dir == Downstream then e.1 else e.0
  }

  lemma SetShrinks(u: set<Node>, v: set<Node>, x: Node)
    requires x in u && x !in v
    ensures |u - (v + {x})| < |u - v|
  {
    assert u - v == (u - (v + {x})) + {x};
  }

  lemma SetNoGrow(u: set<Node>, v: set<Node>, w: set<Node>)
    requires v <= w
    ensures |u - w| <= |u - v|
  {
    assert u - v == (u - w) + ((u - v) - (u - w));
  }

  /**
   * `get_lineage_edges(node, direction, visited, edges)` as a value: the
   * edges it appends and the visited set it leaves. A visited node adds
   * nothing; otherwise the node is marked visited and its relatives are
   * walked in list order.
   */
  function Walk(m: Adjacency, dir: Direction, node: Node, visited: set<Node>): (r: (seq<Edge>, set<Node>))
    ensures visited <= r.1 && node in r.1
    decreases |m.Keys - visited|, 0
  {
    if node in visited then ([], visited)
    else if node !in m then ([], visited + {node})
    else
      SetShrinks(m.Keys, visited, node);
      WalkFrom(m, dir, node, m[node], visited + {node})
  }

  /** The loop `for relative in relatives`: emit the edge, then walk the relative. */
  function WalkFrom(m: Adjacency, dir: Direction, parent: Node, relatives: seq<Node>, visited: set<Node>)
    : (r: (seq<Edge>, set<Node>))
    ensures visited <= r.1
    decreases |m.Keys - visited|, |relatives|
  {
    if relatives == [] then ([], visited)
    else
      var r1 := Walk(m, dir, relatives[0], visited);
      SetNoGrow(m.Keys, visited, r1.1);
      var r2 := WalkFrom(m, dir, parent, relatives[1..], r1.1);
      ([Oriented(dir, parent, relatives[0])] + r1.0 + r2.0, r2.1)
  }

  /**
   * The recursive tracer. The visited set and the edge list that Python
   * shares between the calls are threaded through them as values.
   */
  method GetLineageEdges(g: Graph, node: Node, dir: Direction, visited0: set<Node>, edges0: seq<Edge>)
    returns (visited: set<Node>, edges: seq<Edge>)
    ensures visited == Walk(Chosen(g, dir), dir, node, visited0).1
    ensures edges == edges0 + Walk(Chosen(g, dir), dir, node, visited0).0
    decreases |Chosen(g, dir).Keys - visited0|, 1
  {
    visited, edges := visited0, edges0;
    if node in visited {
      assert edges0 + [] == edges0;
      return;
    }
    visited := visited + {node};
    var graph := Chosen(g, dir);
    var relatives := if node in graph then graph[node] else [];
    ghost var start := visited;
    ghost var whole := WalkFrom(graph, dir, node, relatives, start);
    for k := 0 to |relatives|
      invariant start <= visited
      invariant edges + WalkFrom(graph, dir, node, relatives[k..], visited).0 == edges0 + whole.0
      invariant WalkFrom(graph, dir, node, relatives[k..], visited).1 == whole.1
    {
      WalkFromStep(graph, dir, node, relatives, k, visited, edges);
      SetShrinks(graph.Keys, visited0, node);
      SetNoGrow(graph.Keys, start, visited);
      visited, edges := VisitRelative(g, dir, node, relatives[k], visited, edges);
    }
    assert edges + [] == edges;
  }

  /** The loop body: append the edge to `relative`, then trace from `relative`. */
  method VisitRelative(g: Graph, dir: Direction, node: Node, relative: Node, visited0: set<Node>, edges0: seq<Edge>)
    returns (visited: set<Node>, edges: seq<Edge>)
    ensures visited == Walk(Chosen(g, dir), dir, relative, visited0).1
    ensures edges == edges0 + ([Oriented(dir, node, relative)] + Walk(Chosen(g, dir), dir, relative, visited0).0)
    decreases |Chosen(g, dir).Keys - visited0|, 2
  {
    var edge := if dir == Downstream then (node, relative) else (relative, node);
    visited, edges := GetLineageEdges(g, relative, dir, visited0, edges0 + [edge]);
    ConcatAssoc(edges0, [edge], Walk(Chosen(g, dir), dir, relative, visited0).0);
  }

  /** One turn of the loop over the relatives, as `WalkFrom` takes it. */
  lemma WalkFromStep(m: Adjacency, dir: Direction, parent: Node, relatives: seq<Node>, k: nat,
                     visited: set<Node>, edges: seq<Edge>)
    requires k < |relatives|
    ensures var r1 := Walk(m, dir, relatives[k], visited);
      var r2 := WalkFrom(m, dir, parent, relatives[k + 1..], r1.1);
      && WalkFrom(m, dir, parent, relatives[k..], visited).1 == r2.1
      && edges + WalkFrom(m, dir, parent, relatives[k..], visited).0 ==
         (edges + ([Oriented(dir, parent, relatives[k])] + r1.0)) + r2.0
  {
    assert relatives[k..][1..] == relatives[k + 1..];
  }

  /** `edges = get_lineage_edges(TARGET_OBJECT, DIRECTION)` */
  method LineageEdges(g: Graph, root: Node, dir: Direction) returns (edges: seq<Edge>)
    ensures edges == Walk(Chosen(g, dir), dir, root, {}).0
  {
    var visited;
    visited, edges := GetLineageEdges(g, root, dir, {}, []);
  }

  // ---------------------------------------------------------------------------
  // What the walk emits
  // ---------------------------------------------------------------------------

  predicate ListsNoRepeats(m: Adjacency) {
    forall x :: x in m ==> NoDup(m[x])
  }

  /** `e` leaves a node first visited between the visited sets `v` and `w`, towards one of its relatives. */
  predicate LeavesNew(m: Adjacency, dir: Direction, e: Edge, v: set<Node>, w: set<Node>) {
    Expanded(dir, e) in w - v && Expanded(dir, e) in m && Reached(dir, e) in m[Expanded(dir, e)]
  }

  /** `e` leaves `parent` towards one of `relatives`. */
  predicate LeavesParent(dir: Direction, e: Edge, parent: Node, relatives: seq<Node>) {
    Expanded(dir, e) == parent && Reached(dir, e) in relatives
  }

  /** Every relative of a node first visited between `v` and `w` is in `w`. */
  predicate Closed(m: Adjacency, v: set<Node>, w: set<Node>) {
    forall x, y :: x in w - v && x in m && y in m[x] ==> y in w
  }

  /**
   * A walk from `node` emits each edge once, emits exactly the edges out of
   * the nodes it newly expands, and the relatives of those nodes are all
   * visited when it returns.
   */
  lemma {:induction false} WalkFacts(m: Adjacency, dir: Direction, node: Node, v: set<Node>)
    requires ListsNoRepeats(m)
    ensures NoDup(Walk(m, dir, node, v).0)
    ensures forall e :: e in Walk(m, dir, node, v).0 <==> LeavesNew(m, dir, e, v, Walk(m, dir, node, v).1)
    ensures Closed(m, v, Walk(m, dir, node, v).1)
    decreases |m.Keys - v|, 0
  {
    if node !in v && node in m {
      SetShrinks(m.Keys, v, node);
      var w := v + {node};
      var r := WalkFrom(m, dir, node, m[node], w);
      WalkFromFacts(m, dir, node, m[node], w);
      forall e
        ensures e in r.0 <==> LeavesNew(m, dir, e, v, r.1)
      {
        assert LeavesParent(dir, e, node, m[node]) || LeavesNew(m, dir, e, w, r.1) <==> LeavesNew(m, dir, e, v, r.1);
      }
    }
  }

  /** The same for the loop over a list of relatives of `parent`. */
  lemma {:induction false} WalkFromFacts(m: Adjacency, dir: Direction, parent: Node, relatives: seq<Node>, v: set<Node>)
    requires ListsNoRepeats(m) && NoDup(relatives) && parent in v
    ensures NoDup(WalkFrom(m, dir, parent, relatives, v).0)
    ensures forall e :: e in WalkFrom(m, dir, parent, relatives, v).0 <==>
      LeavesParent(dir, e, parent, relatives) || LeavesNew(m, dir, e, v, WalkFrom(m, dir, parent, relatives, v).1)
    ensures forall y :: y in relatives ==> y in WalkFrom(m, dir, parent, relatives, v).1
    ensures Closed(m, v, WalkFrom(m, dir, parent, relatives, v).1)
    decreases |m.Keys - v|, |relatives|
  {
    if relatives != [] {
      var y, rest := relatives[0], relatives[1..];
      var r1 := Walk(m, dir, y, v);
      SetNoGrow(m.Keys, v, r1.1);
      var r2 := WalkFrom(m, dir, parent, rest, r1.1);
      WalkFacts(m, dir, y, v);
      WalkFromFacts(m, dir, parent, rest, r1.1);
      assert relatives == [y] + rest;
      assert y !in rest by {
        forall i | 0 <= i < |rest|
          ensures rest[i] != y
        {
          assert rest[i] == relatives[i + 1];
        }
      }
      JoinNoDup(m, dir, parent, y, rest, v, r1.0, r1.1, r2.0, r2.1);
      JoinEdges(m, dir, parent, y, rest, v, r1.0, r1.1, r2.0, r2.1);
      JoinClosed(m, rest, v, r1.1, r2.1);
    }
  }

  /*
   * The lemmas below put together what the walk from the first relative `y`
   * (edges `e1`, leaving `v1`) and the loop over the `rest` (edges `e2`,
   * leaving `v2`) emit, given what each of them emits alone.
   */

  /** The edge to `y`, the edges found below `y` and the later ones never repeat one another. */
  lemma JoinNoDup(m: Adjacency, dir: Direction, parent: Node, y: Node, rest: seq<Node>, v: set<Node>,
                  e1: seq<Edge>, v1: set<Node>, e2: seq<Edge>, v2: set<Node>)
    requires parent in v && v <= v1 && y !in rest
    requires NoDup(e1) && NoDup(e2)
    requires forall e :: e in e1 <==> LeavesNew(m, dir, e, v, v1)
    requires forall e :: e in e2 <==> LeavesParent(dir, e, parent, rest) || LeavesNew(m, dir, e, v1, v2)
    ensures NoDup([Oriented(dir, parent, y)] + e1 + e2)
  {
    var first := Oriented(dir, parent, y);
    assert Expanded(dir, first) == parent && Reached(dir, first) == y;
    NoDupConcat([first], e1);
    NoDupConcat([first] + e1, e2);
  }

  /** The loop emits exactly the edges leaving `parent` towards a relative and those leaving a newly visited node. */
  lemma JoinEdges(m: Adjacency, dir: Direction, parent: Node, y: Node, rest: seq<Node>, v: set<Node>,
                  e1: seq<Edge>, v1: set<Node>, e2: seq<Edge>, v2: set<Node>)
    requires parent in v && v <= v1 <= v2
    requires forall e :: e in e1 <==> LeavesNew(m, dir, e, v, v1)
    requires forall e :: e in e2 <==> LeavesParent(dir, e, parent, rest) || LeavesNew(m, dir, e, v1, v2)
    ensures forall e :: e in [Oriented(dir, parent, y)] + e1 + e2 <==>
      LeavesParent(dir, e, parent, [y] + rest) || LeavesNew(m, dir, e, v, v2)
  {
    forall e
      ensures e in [Oriented(dir, parent, y)] + e1 + e2 <==>
        LeavesParent(dir, e, parent, [y] + rest) || LeavesNew(m, dir, e, v, v2)
    {
      if LeavesParent(dir, e, parent, [y]) {
        assert e == Oriented(dir, parent, y);
      }
    }
  }

  /** What is closed below `y` and closed over the rest is closed over the whole loop. */
  lemma JoinClosed(m: Adjacency, rest: seq<Node>, v: set<Node>, v1: set<Node>, v2: set<Node>)
    requires v <= v1 <= v2
    requires Closed(m, v, v1) && Closed(m, v1, v2)
    ensures Closed(m, v, v2)
  {
  }

  /**
   * What `get_lineage_edges(root, direction)` returns, on a graph built
   * from the edges `es`: every emitted pair is one of those edges, source
   * first, in either direction; each is emitted once; the root is visited;
   * and every recorded edge at a visited node, followed in the chosen
   * direction, is emitted and leads to a visited node.
   */
  lemma TraceFacts(es: seq<Edge>, root: Node, dir: Direction)
    ensures var walk := Walk(Chosen(Fold(es), dir), dir, root, {});
      && NoDup(walk.0)
      && root in walk.1
      && (forall e :: e in walk.0 ==> e in es)
      && (forall e :: e in es && Expanded(dir, e) in walk.1 ==> e in walk.0 && Reached(dir, e) in walk.1)
  {
    var g := Fold(es);
    var m := Chosen(g, dir);
    FoldRecordsExactly(es);
    FoldNoRepeats(es);
    WalkFacts(m, dir, root, {});
    var walk := Walk(m, dir, root, {});
    forall e | e in walk.0
      ensures e in es
    {
      assert Expanded(dir, e) in m && Reached(dir, e) in m[Expanded(dir, e)];
    }
    forall e | e in es && Expanded(dir, e) in walk.1
      ensures e in walk.0 && Reached(dir, e) in walk.1
    {
      assert Expanded(dir, e) in m && Reached(dir, e) in m[Expanded(dir, e)];
    }
  }

  // ---------------------------------------------------------------------------
  // Mermaid output
  // ---------------------------------------------------------------------------

  /** `name.replace(".", "_").replace("-", "_")`: every dot and hyphen becomes an underscore. */
  function SanitizeNodeId(name: string): (r: string)
    ensures |r| == |name|
    ensures forall i :: 0 <= i < |name| ==> r[i] == if name[i] == '.' || name[i] == '-' then '_' else name[i]
  {
    ReplaceCharAt(name, '.', '_');
    ReplaceCharAt(ReplaceAll(name, ".", "_"), '-', '_');
    ReplaceAll(ReplaceAll(name, ".", "_"), "-", "_")
  }

  /** A sanitized id has no dot or hyphen left, and sanitizing it again changes nothing. */
  lemma SanitizeNodeIdIdempotent(name: string)
    ensures Lacks(SanitizeNodeId(name), '.') && Lacks(SanitizeNodeId(name), '-')
    ensures SanitizeNodeId(SanitizeNodeId(name)) == SanitizeNodeId(name)
  {
    var once := SanitizeNodeId(name);
    var twice := SanitizeNodeId(once);
    assert forall i :: 0 <= i < |once| ==> twice[i] == once[i];
  }

  datatype Outcome =
    | RootNotFound      // "not found in the lineage data", exit status 1
    | NoDependencies    // "has no ... dependencies", exit status 0
    | Diagram(lines: seq<string>)

  /** The script's exit status: failure only when the object is missing; `exit(0)` and a finished diagram are success. */
  function ExitStatus(out: Outcome): (status: int)
    ensures status == 0 || status == 1
    ensures status != 0 <==> out.RootNotFound?
  {
    if out.RootNotFound? then 1 else 0
  }

  const ClassDefLine := "    classDef rootNode fill:#ff6b6b,color:#fff,stroke:#c92a2a,stroke-width:3px;"

  function RootLine(root: Node): string {
    "    " + SanitizeNodeId(root) + "[\"" + root + "\"]:::rootNode"
  }

  function EdgeLine(e: Edge): string {
    "    " + SanitizeNodeId(e.0) + "[\"" + e.0 + "\"] --> " + SanitizeNodeId(e.1) + "[\"" + e.1 + "\"]"
  }

  /**
   * The end of the script: fail when the target object is in neither
   * graph, stop when it has no dependencies in the chosen direction, and
   * otherwise produce the Mermaid lines: the header, the root style and
   * node, then one line per traced edge in trace order.
   */
  method Visualize(g: Graph, root: Node, dir: Direction) returns (out: Outcome)
    ensures out.RootNotFound? <==> root !in g.forward && root !in g.reverse
    ensures ExitStatus(out) != 0 <==> root !in g.forward && root !in g.reverse
    ensures out.NoDependencies? <==>
      (root in g.forward || root in g.reverse) && Walk(Chosen(g, dir), dir, root, {}).0 == []
    ensures out.Diagram? ==>
      var edges := Walk(Chosen(g, dir), dir, root, {}).0;
      && |out.lines| == 3 + |edges|
      && out.lines[..3] == ["graph LR", ClassDefLine, RootLine(root)]
      && forall k :: 0 <= k < |edges| ==> out.lines[3 + k] == EdgeLine(edges[k])
  {
    if root !in g.forward && root !in g.reverse {
      return RootNotFound;
    }
    var edges := LineageEdges(g, root, dir);
    if edges == [] {
      return NoDependencies;
    }
    var lines := ["graph LR"];
    var safeRoot := SanitizeNodeId(root);
    lines := lines + [ClassDefLine];
    lines := lines + ["    " + safeRoot + "[\"" + root + "\"]:::rootNode"];
    for k := 0 to |edges|
      invariant |lines| == 3 + k
      invariant lines[..3] == ["graph LR", ClassDefLine, RootLine(root)]
      invariant forall i :: 0 <= i < k ==> lines[3 + i] == EdgeLine(edges[i])
    {
      var src, tgt := edges[k].0, edges[k].1;
      var sSafe := SanitizeNodeId(src);
      var tSafe := SanitizeNodeId(tgt);
      lines := lines + ["    " + sSafe + "[\"" + src + "\"] --> " + tSafe + "[\"" + tgt + "\"]"];
    }
    out := Diagram(lines);
  }

  // ---------------------------------------------------------------------------
  // Two traces worked through
  // ---------------------------------------------------------------------------

  lemma DistinctNames()
    ensures "A" != "B" && "B" != "C" && "C" != "A"
  {
    assert "A"[0] != "B"[0] && "B"[0] != "C"[0] && "C"[0] != "A"[0];
  }

  lemma WalkFromOne(m: Adjacency, dir: Direction, parent: Node, y: Node, v: set<Node>)
    ensures WalkFrom(m, dir, parent, [y], v)
         == ([Oriented(dir, parent, y)] + Walk(m, dir, y, v).0, Walk(m, dir, y, v).1)
  {
    assert [y][1..] == [];
    var r1 := Walk(m, dir, y, v);
    assert WalkFrom(m, dir, parent, [], r1.1) == ([], r1.1);
    assert [Oriented(dir, parent, y)] + r1.0 + [] == [Oriented(dir, parent, y)] + r1.0;
  }

  lemma CycleGraph()
    ensures Fold([("A", "B"), ("B", "C"), ("C", "A")]).forward == map["A" := ["B"], "B" := ["C"], "C" := ["A"]]
  {
    var e1, e2, e3 := ("A", "B"), ("B", "C"), ("C", "A");
    DistinctNames();
    FoldSnoc([], e1);
    assert [] + [e1] == [e1];
    assert Lookup(map[], "A") == [] && AppendNew([], "B") == ["B"];
    var f1 := Fold([e1]).forward;
    assert f1 == map["A" := ["B"]];
    FoldSnoc([e1], e2);
    assert [e1] + [e2] == [e1, e2];
    assert Lookup(f1, "B") == [] && AppendNew([], "C") == ["C"];
    var f2 := Fold([e1, e2]).forward;
    assert f2 == f1["B" := ["C"]];
    FoldSnoc([e1, e2], e3);
    assert [e1, e2] + [e3] == [e1, e2, e3];
    assert Lookup(f2, "C") == [] && AppendNew([], "A") == ["A"];
    assert Fold([e1, e2, e3]).forward == f2["C" := ["A"]];
  }

  const Cycle: Adjacency := map["A" := ["B"], "B" := ["C"], "C" := ["A"]]

  lemma CycleFromC()
    ensures Walk(Cycle, Downstream, "C", {"A", "B"}) == ([("C", "A")], {"A", "B", "C"})
  {
    DistinctNames();
    var all := {"A", "B", "C"};
    assert "A" in all;
    assert Walk(Cycle, Downstream, "A", all) == ([], all);
    WalkFromOne(Cycle, Downstream, "C", "A", all);
    assert [("C", "A")] + [] == [("C", "A")] && Cycle["C"] == ["A"];
    assert "C" !in {"A", "B"} && {"A", "B"} + {"C"} == all;
  }

  lemma CycleFromB()
    ensures Walk(Cycle, Downstream, "B", {"A"}) == ([("B", "C"), ("C", "A")], {"A", "B", "C"})
  {
    DistinctNames();
    CycleFromC();
    WalkFromOne(Cycle, Downstream, "B", "C", {"A", "B"});
    assert [("B", "C")] + [("C", "A")] == [("B", "C"), ("C", "A")] && Cycle["B"] == ["C"];
    assert "B" !in {"A"} && {"A"} + {"B"} == {"A", "B"};
  }

  /** A cycle `A -> B -> C -> A` traced downstream from `A` stops when it comes back to `A`. */
  lemma CycleIsTracedOnce()
    ensures var es := [("A", "B"), ("B", "C"), ("C", "A")];
      Walk(Fold(es).forward, Downstream, "A", {}).0 == es
  {
    CycleGraph();
    CycleFromB();
    WalkFromOne(Cycle, Downstream, "A", "B", {"A"});
    assert [("A", "B")] + [("B", "C"), ("C", "A")] == [("A", "B"), ("B", "C"), ("C", "A")];
    assert Cycle["A"] == ["B"] && {} + {"A"} == {"A"};
  }

  /** With the one edge `A -> B`, downstream of `A` and upstream of `B` both give `(A, B)`. */
  lemma DirectionsAgreeOnOneEdge()
    ensures Walk(Fold([("A", "B")]).forward, Downstream, "A", {}).0 == [("A", "B")]
    ensures Walk(Fold([("A", "B")]).reverse, Upstream, "B", {}).0 == [("A", "B")]
  {
    var e := ("A", "B");
    DistinctNames();
    FoldSnoc([], e);
    assert [] + [e] == [e];
    assert Lookup(map[], "A") == [] && AppendNew([], "B") == ["B"];
    assert Lookup(map[], "B") == [] && AppendNew([], "A") == ["A"];
    var g := Fold([e]);
    assert g.forward == map["A" := ["B"]] && g.reverse == map["B" := ["A"]];
    assert "B" !in {"A"} && "B" !in g.forward && {"A"} + {"B"} == {"A", "B"};
    assert Walk(g.forward, Downstream, "B", {"A"}) == ([], {"A", "B"});
    WalkFromOne(g.forward, Downstream, "A", "B", {"A"});
    assert {} + {"A"} == {"A"};
    assert "A" !in {"B"} && "A" !in g.reverse && {"B"} + {"A"} == {"A", "B"};
    assert Walk(g.reverse, Upstream, "A", {"B"}) == ([], {"A", "B"});
    WalkFromOne(g.reverse, Upstream, "B", "A", {"B"});
    assert {} + {"B"} == {"B"};
  }
}
