/**
 * Building the lineage graph of `process_lineage_json.py`: every lineage
 * file contributes its `{source, target}` items, in order, until the first
 * item that raises; each edge is appended to `forward_graph[source]` and to
 * `reverse_graph[target]` unless it is already listed there.
 */
module LineageGraph {
  import opened Wrappers
  import opened JsonValue
  import opened Seqs

  /** A node is a fully qualified object name such as `dbo.Orders`. */
  type Node = string
  /** Always `(source, target)`: data flows from the source into the target. */
  type Edge = (Node, Node)
  type Adjacency = map<Node, seq<Node>>

  /** `forward_graph` (source to targets) and `reverse_graph` (target to sources). */
  datatype Graph = Graph(forward: Adjacency, reverse: Adjacency)

  // ---------------------------------------------------------------------------
  // Reading the lineage files
  // ---------------------------------------------------------------------------

  /**
   * The edge a lineage item stands for, or `None` when `item['source']` or
   * `item['target']` raises (the item is not an object, or lacks a key).
   * Only string endpoints are graph nodes here.
   */
  function ItemEdge(item: Json): (e: Option<Edge>)
    ensures e.Some? <==> item.JObject? && "source" in item.fields && "target" in item.fields
                         && item.fields["source"].JString? && item.fields["target"].JString?
    ensures e.Some? ==> e.value == (item.fields["source"].s, item.fields["target"].s)
  {
    match item
    case JObject(f) =>
      if "source" in f && "target" in f && f["source"].JString? && f["target"].JString?
      then Some((f["source"].s, f["target"].s))
      else None
    case _ => None
  }

  /**
   * The edges of a lineage list: those of its items up to, and not
   * including, the first one that raises, since the exception abandons the
   * rest of the file.
   */
  function ItemsEdges(items: seq<Json>): (es: seq<Edge>)
    ensures |es| <= |items|
  {
    if items == [] then []
    else
      match ItemEdge(items[0])
      case None => []
      case Some(e) => [e] + ItemsEdges(items[1..])
  }

  /** Item `j` of a list either gives edge `j` or, if it raises, ends the list's edges there. */
  lemma {:induction false} ItemsEdgesAt(items: seq<Json>, j: nat)
    requires j < |items| && j <= |ItemsEdges(items)|
    ensures ItemEdge(items[j]).Some? ==> j < |ItemsEdges(items)| && ItemsEdges(items)[j] == ItemEdge(items[j]).value
    ensures ItemEdge(items[j]).None? ==> j == |ItemsEdges(items)|
  {
    if j > 0 && ItemEdge(items[0]).Some? {
      ItemsEdgesAt(items[1..], j - 1);
    }
  }

  /**
   * The edges one file contributes. A file that does not parse, whose top
   * level is not an object, or whose `lineage` is missing or not a list
   * contributes none (a string or object there either is empty or raises at
   * its first element).
   */
  function FileEdges(file: Option<Json>): seq<Edge> {
    match file
    case Some(JObject(f)) =>
      if "lineage" in f && f["lineage"].JArray? then ItemsEdges(f["lineage"].items) else []
    case _ => []
  }

  /** Every edge the files contribute, file after file. */
  function RecordedEdges(files: seq<Option<Json>>): seq<Edge> {
    if files == [] then []
    else RecordedEdges(files[..|files| - 1]) + FileEdges(files[|files| - 1])
  }

  // ---------------------------------------------------------------------------
  // The graph
  // ---------------------------------------------------------------------------

  /** `graph.get(node, [])` */
  function Lookup(m: Adjacency, n: Node): seq<Node> {
    if n in m then m[n] else []
  }

  /** One turn of the inner loop: record `e` in both directions, without repeats. */
  function AddEdge(g: Graph, e: Edge): Graph {
    Graph(g.forward[e.0 := AppendNew(Lookup(g.forward, e.0), e.1)],
          g.reverse[e.1 := AppendNew(Lookup(g.reverse, e.1), e.0)])
  }

  /** The graph the edges build, one after the other, starting from two empty dictionaries. */
  function Fold(es: seq<Edge>): Graph {
    if es == [] then Graph(map[], map[])
    else AddEdge(Fold(es[..|es| - 1]), es[|es| - 1])
  }

  lemma FoldSnoc(es: seq<Edge>, e: Edge)
    ensures Fold(es + [e]) == AddEdge(Fold(es), e)
  {
    assert (es + [e])[..|es|] == es;
  }

  /** The body of the inner loop: append `tgt` to `forward_graph[src]` and `src` to `reverse_graph[tgt]` unless listed. */
  method RecordEdge(forward0: Adjacency, reverse0: Adjacency, src: Node, tgt: Node)
    returns (forward: Adjacency, reverse: Adjacency)
    ensures Graph(forward, reverse) == AddEdge(Graph(forward0, reverse0), (src, tgt))
  {
    var targets := if src in forward0 then forward0[src] else [];
    if tgt !in targets {
      targets := targets + [tgt];
    }
    forward := forward0[src := targets];
    var sources := if tgt in reverse0 then reverse0[tgt] else [];
    if src !in sources {
      sources := sources + [src];
    }
    reverse := reverse0[tgt := sources];
  }

  /**
   * The inner loop of the graph build, over one file's `lineage` list: it
   * adds the items' edges until an item raises.
   */
  method RecordItems(forward0: Adjacency, reverse0: Adjacency, items: seq<Json>, ghost before: seq<Edge>)
    returns (forward: Adjacency, reverse: Adjacency)
    requires Graph(forward0, reverse0) == Fold(before)
    ensures Graph(forward, reverse) == Fold(before + ItemsEdges(items))
  {
    forward, reverse := forward0, reverse0;
    ghost var es := ItemsEdges(items);
    assert before + es[..0] == before;
    var j := 0;
    // the first item that raises abandons the rest of the file
    while j < |items| && ItemEdge(items[j]).Some?
      invariant j <= |es|
      invariant Graph(forward, reverse) == Fold(before + es[..j])
    {
      RecordStep(items, j, before);
      var edge := ItemEdge(items[j]).value;
      forward, reverse := RecordEdge(forward, reverse, edge.0, edge.1);
      j := j + 1;
    }
    if j < |items| {
      RecordStep(items, j, before);
    }
    assert es[..j] == es;
  }

  /** Recording item `j` adds its edge to the graph of the edges before it. */
  lemma RecordStep(items: seq<Json>, j: nat, before: seq<Edge>)
    requires j < |items| && j <= |ItemsEdges(items)|
    ensures ItemEdge(items[j]).None? ==> j == |ItemsEdges(items)|
    ensures ItemEdge(items[j]).Some? ==> j < |ItemsEdges(items)|
    ensures ItemEdge(items[j]).Some? ==>
      Fold(before + ItemsEdges(items)[..j + 1]) == AddEdge(Fold(before + ItemsEdges(items)[..j]), ItemEdge(items[j]).value)
  {
    ItemsEdgesAt(items, j);
    if ItemEdge(items[j]).Some? {
      ItemsEdgesStep(items, j, before);
      FoldSnoc(before + ItemsEdges(items)[..j], ItemEdge(items[j]).value);
    }
  }

  /** The edges recorded after item `j` are those recorded before it and the item's own. */
  lemma ItemsEdgesStep(items: seq<Json>, j: nat, before: seq<Edge>)
    requires j < |items| && j <= |ItemsEdges(items)| && ItemEdge(items[j]).Some?
    ensures j < |ItemsEdges(items)|
    ensures before + ItemsEdges(items)[..j + 1] == (before + ItemsEdges(items)[..j]) + [ItemEdge(items[j]).value]
  {
    ItemsEdgesAt(items, j);
    var es := ItemsEdges(items);
    assert es[..j + 1] == es[..j] + [es[j]];
  }

  lemma RecordedSnoc(files: seq<Option<Json>>, i: nat)
    requires i < |files|
    ensures RecordedEdges(files[..i + 1]) == RecordedEdges(files[..i]) + FileEdges(files[i])
  {
    assert files[..i + 1][..i] == files[..i];
  }

  /** The graph-building loop over the parsed files (`None`: the file did not parse). */
  method BuildGraph(files: seq<Option<Json>>) returns (g: Graph)
    ensures g == Fold(RecordedEdges(files))
  {
    var forward: Adjacency := map[];
    var reverse: Adjacency := map[];
    for i := 0 to |files|
      invariant Graph(forward, reverse) == Fold(RecordedEdges(files[..i]))
    {
      RecordedSnoc(files, i);
      var file := files[i];
      if file.Some? && file.value.JObject? && "lineage" in file.value.fields
         && file.value.fields["lineage"].JArray? {
        forward, reverse := RecordItems(forward, reverse, file.value.fields["lineage"].items,
                                        RecordedEdges(files[..i]));
      } else {
        assert RecordedEdges(files[..i]) + FileEdges(file) == RecordedEdges(files[..i]);
      }
    }
    assert files[..|files|] == files;
    g := Graph(forward, reverse);
  }

  // ---------------------------------------------------------------------------
  // What the graph holds
  // ---------------------------------------------------------------------------

  /**
   * The graph records exactly the edges read: `t` is listed under `s` in
   * `forward_graph` iff `(s, t)` was read, and so is `s` under `t` in
   * `reverse_graph`; no dictionary entry is an empty list.
   */
  lemma {:induction false} FoldRecordsExactly(es: seq<Edge>)
    ensures forall s, t :: (s in Fold(es).forward && t in Fold(es).forward[s]) <==> (s, t) in es
    ensures forall s, t :: (t in Fold(es).reverse && s in Fold(es).reverse[t]) <==> (s, t) in es
    ensures forall s :: s in Fold(es).forward ==> Fold(es).forward[s] != []
    ensures forall t :: t in Fold(es).reverse ==> Fold(es).reverse[t] != []
  {
    if es != [] {
      var init, e := es[..|es| - 1], es[|es| - 1];
      assert es == init + [e];
      FoldRecordsExactly(init);
    }
  }

  /** No phantom nodes: the keys of `forward_graph` are exactly the sources read, those of `reverse_graph` exactly the targets. */
  lemma FoldKeys(es: seq<Edge>)
    ensures forall s :: s in Fold(es).forward <==> exists t :: (s, t) in es
    ensures forall t :: t in Fold(es).reverse <==> exists s :: (s, t) in es
  {
    FoldRecordsExactly(es);
    var g := Fold(es);
    forall s | s in g.forward
      ensures exists t :: (s, t) in es
    {
      assert g.forward[s][0] in g.forward[s];
    }
    forall t | t in g.reverse
      ensures exists s :: (s, t) in es
    {
      assert g.reverse[t][0] in g.reverse[t];
    }
  }

  /** Every neighbour list is free of repeats. */
  lemma {:induction false} FoldNoRepeats(es: seq<Edge>)
    ensures forall s :: s in Fold(es).forward ==> NoDup(Fold(es).forward[s])
    ensures forall t :: t in Fold(es).reverse ==> NoDup(Fold(es).reverse[t])
  {
    if es != [] {
      FoldNoRepeats(es[..|es| - 1]);
    }
  }

  /** `forward_graph` and `reverse_graph` mirror each other. */
  lemma GraphMirrors(es: seq<Edge>, s: Node, t: Node)
    ensures (s in Fold(es).forward && t in Fold(es).forward[s])
        <==> (t in Fold(es).reverse && s in Fold(es).reverse[t])
  {
    FoldRecordsExactly(es);
  }

  /** The targets of the edges out of `s`, in reading order, repeats included. */
  function TargetsOf(es: seq<Edge>, s: Node): (ts: seq<Node>)
    ensures |ts| <= |es|
  {
    if es == [] then []
    else TargetsOf(es[..|es| - 1], s) + (if es[|es| - 1].0 == s then [es[|es| - 1].1] else [])
  }

  /** The sources of the edges into `t`, in reading order, repeats included. */
  function SourcesOf(es: seq<Edge>, t: Node): (ss: seq<Node>)
    ensures |ss| <= |es|
  {
    if es == [] then []
    else SourcesOf(es[..|es| - 1], t) + (if es[|es| - 1].1 == t then [es[|es| - 1].0] else [])
  }

  /**
   * The order of a neighbour list: `forward_graph[n]` lists the targets of
   * `n` in the order in which they were first read, each once (see
   * `Seqs.DistinctByFirsts`).
   */
  lemma {:induction false} FoldTargetOrder(es: seq<Edge>, n: Node)
    ensures Lookup(Fold(es).forward, n) == DistinctBy(TargetsOf(es, n), Id)
  {
    if es != [] {
      var init, e := es[..|es| - 1], es[|es| - 1];
      FoldTargetOrder(init, n);
      var before := Lookup(Fold(init).forward, n);
      var after := Lookup(Fold(es).forward, n);
      if e.0 == n {
        assert after == AppendNew(before, e.1);
        assert TargetsOf(es, n) == TargetsOf(init, n) + [e.1];
        AppendNewIsDistinct(TargetsOf(init, n), e.1);
      } else {
        assert after == before;
        assert TargetsOf(es, n) == TargetsOf(init, n) + [];
        assert TargetsOf(es, n) == TargetsOf(init, n);
      }
    }
  }

  /** Likewise `reverse_graph[n]` lists the sources of `n` in first-read order, each once. */
  lemma {:induction false} FoldSourceOrder(es: seq<Edge>, n: Node)
    ensures Lookup(Fold(es).reverse, n) == DistinctBy(SourcesOf(es, n), Id)
  {
    if es != [] {
      var init, e := es[..|es| - 1], es[|es| - 1];
      FoldSourceOrder(init, n);
      var before := Lookup(Fold(init).reverse, n);
      var after := Lookup(Fold(es).reverse, n);
      if e.1 == n {
        assert after == AppendNew(before, e.0);
        assert SourcesOf(es, n) == SourcesOf(init, n) + [e.0];
        AppendNewIsDistinct(SourcesOf(init, n), e.0);
      } else {
        assert after == before;
        assert SourcesOf(es, n) == SourcesOf(init, n) + [];
        assert SourcesOf(es, n) == SourcesOf(init, n);
      }
    }
  }
}
