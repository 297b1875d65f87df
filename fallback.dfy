/** `_robust_fallback` of lightrag/kg/neo4j_impl.py: a depth-first,
    depth-bounded walk that needs no graph-traversal extension in the store.
    It asks the store for a node by label (`get_node`) and for the rows of
    `MATCH (a)-[r]-(b) WHERE a:`L` OR b:`L``, and appends what it finds to
    `result["nodes"]` / `result["edges"]`, guarded by the two visited sets.

    `Visit` / `VisitRows` are the walk as functions of the state; the class
    `Traversal` is the walk as the source performs it, updating its fields
    in place, and is proved to compute exactly what `Visit` says. */
module Fallback {
  import opened Types

  datatype Direction = Outgoing | Incoming

  /** A relationship as the row query returns it. */
  datatype RelView = RelView(id: int, relType: string, props: Props)

  /** One row of the row query: the label lists of `a` and `b` (the first
      label is `list(labels)[0]`), the relationship and the direction tag. */
  datatype Row = Row(a: seq<string>, r: RelView, b: seq<string>, direction: Direction)

  /** What the store answers: `get_node(label)` (absent = `None`) and the
      rows of the row query for each label (absent = no rows). */
  datatype Lookup = Lookup(nodes: map<string, Props>, rows: map<string, seq<Row>>)

  /** The visited-edge key `f"{rel.id}_{rel.type}"`; the id is digits only,
      so the string and the pair determine each other. */
  datatype EdgeKey = EdgeKey(id: int, relType: string)

  /** `get_node(label)`, answered by the store for the label exactly as
      `traverse` passes it (the quote stripping `get_node` applies first is
      part of that answer). */
  function GetNode(lookup: Lookup, name: string): Option<Props>
  {
    if name in lookup.nodes then Some(lookup.nodes[name]) else None
  }

  /** `if not node: return` does not fire: a node came back and it has at
      least one property. */
  predicate Found(lookup: Lookup, name: string)
  {
    GetNode(lookup, name).Some? && GetNode(lookup, name).value != map[]
  }

  function PropsOf(lookup: Lookup, name: string): Props
    requires Found(lookup, name)
  {
    GetNode(lookup, name).value
  }

  function RowsOf(lookup: Lookup, name: string): seq<Row>
  {
    if name in lookup.rows then lookup.rows[name] else []
  }

  function KeyOf(row: Row): EdgeKey
  {
    EdgeKey(row.r.id, row.r.relType)
  }

  /** Every row the store can hand out. */
  function AllRows(lookup: Lookup): set<Row>
  {
    set l, row | l in lookup.rows && row in lookup.rows[l] :: row
  }

  /** Every edge key the walk can ever record: a finite set. */
  function AllKeys(lookup: Lookup): set<EdgeKey>
  {
    set row | row in AllRows(lookup) :: KeyOf(row)
  }

  function DirectionName(d: Direction): string
  {
    match d
    case Outgoing => "OUTGOING"
    case Incoming => "INCOMING"
  }

  /** Both ends of the row carry a label, so `list(...labels)[0]` does not
      raise. */
  predicate Labelled(row: Row)
  {
    |row.a| > 0 && |row.b| > 0
  }

  /** The appended node: the properties with `labels` set to the label the
      walk reached it by. */
  function NodeData(props: Props, name: string): Props
  {
    props["labels" := Strs([name])]
  }

  /** The appended node keeps every looked-up property except `labels`,
      which becomes the one-element list of the label. */
  lemma NodeDataFields(props: Props, name: string)
    ensures var r := NodeData(props, name);
            && r.Keys == props.Keys + {"labels"} && r["labels"] == Strs([name])
            && forall k :: k in props && k != "labels" ==> r[k] == props[k]
  {
  }

  /** `dict(rel)` updated with the first labels of `a` and `b`, the type and
      the direction tag. */
  function EdgeData(row: Row): Props
    requires Labelled(row)
  {
    row.r.props + map["source" := Str(row.a[0]), "target" := Str(row.b[0]),
                      "type" := Str(row.r.relType), "direction" := Str(DirectionName(row.direction))]
  }

  /** The recorded edge keeps the relationship's own properties and sets
      the four tags, overwriting a property of the same name. */
  lemma EdgeDataFields(row: Row)
    requires Labelled(row)
    ensures var r := EdgeData(row);
            && r.Keys == row.r.props.Keys + {"source", "target", "type", "direction"}
            && r["source"] == Str(row.a[0]) && r["target"] == Str(row.b[0])
            && r["type"] == Str(row.r.relType) && r["direction"] == Str(DirectionName(row.direction))
            && forall k :: k in row.r.props && k !in {"source", "target", "type", "direction"} ==> r[k] == row.r.props[k]
  {
  }

  /** The next hop: `b` for an OUTGOING row, `a` otherwise. */
  function NextLabel(row: Row): string
    requires Labelled(row)
  {
    if row.direction == Outgoing then row.b[0] else row.a[0]
  }

  // ---------------------------------------------------------------------------
  // The walk as a function of its state
  // ---------------------------------------------------------------------------

  /** The shared state of `traverse`: the two result lists, the two visited
      sets, and (for the proofs) the row behind each recorded edge. */
  datatype State = State(nodes: seq<Props>, edges: seq<Props>, visitedNodes: set<string>,
                         visitedEdges: set<EdgeKey>, recorded: seq<Row>)

  /** `traverse` either returns normally or lets an exception escape. */
  datatype Walk = Done(st: State) | Raised

  function Initial(): State
  {
    State([], [], {}, {}, [])
  }

  /** The keys the walk may still record. */
  function Measure(lookup: Lookup, st: State): nat
  {
    |AllKeys(lookup) - st.visitedEdges|
  }

  /** Nothing is removed: the lists only get longer, the sets only bigger. */
  predicate Grows(st: State, st': State)
  {
    && st.nodes <= st'.nodes && st.edges <= st'.edges && st.recorded <= st'.recorded
    && st.visitedNodes <= st'.visitedNodes && st.visitedEdges <= st'.visitedEdges
  }

  lemma CardMono<T>(x: set<T>, y: set<T>)
    requires x <= y
    ensures |x| <= |y|
  {
    if x != {} {
      var e :| e in x;
      CardMono(x - {e}, y - {e});
    }
  }

  /** Recording a fresh key shrinks the measure; growing the visited set
      never enlarges it. */
  lemma FreshKeyShrinks(all: set<EdgeKey>, before: set<EdgeKey>, now: set<EdgeKey>, k: EdgeKey)
    requires before <= now && k in all && k !in now
    ensures |all - (now + {k})| < |all - before|
  {
    assert all - now == (all - (now + {k})) + {k};
    CardMono(all - now, all - before);
  }

  lemma RowKeyInAll(lookup: Lookup, name: string, i: int)
    requires 0 <= i < |RowsOf(lookup, name)|
    ensures RowsOf(lookup, name)[i] in AllRows(lookup) && KeyOf(RowsOf(lookup, name)[i]) in AllKeys(lookup)
  {
    var row := lookup.rows[name][i];
    assert row in lookup.rows[name];
  }

  /** `traverse(label, depth)`: the depth check comes first, then the node
      lookup, then the visited check; then the node is appended and its rows
      are walked. */
  function Visit(lookup: Lookup, maxDepth: int, st: State, name: string, depth: int): (w: Walk)
    decreases Measure(lookup, st), 1, 0
    ensures w.Done? ==> Grows(st, w.st)
    ensures depth > maxDepth ==> w == Done(st)
  {
    if depth > maxDepth then Done(st)
    else match GetNode(lookup, name)
      case None => Done(st)
      case Some(props) =>
        if props == map[] || name in st.visitedNodes then Done(st)
        else VisitRows(lookup, maxDepth,
                       st.(nodes := st.nodes + [NodeData(props, name)], visitedNodes := st.visitedNodes + {name}),
                       name, depth, 0)
  }

  /** The `async for record in results` loop of `traverse`, from row `i` on:
      a row whose key was seen is skipped; otherwise the edge is appended and
      its key marked BEFORE the walk moves to the next hop at `depth + 1`. */
  function VisitRows(lookup: Lookup, maxDepth: int, st: State, name: string, depth: int, i: nat): (w: Walk)
    requires i <= |RowsOf(lookup, name)|
    decreases Measure(lookup, st), 0, |RowsOf(lookup, name)| - i
    ensures w.Done? ==> Grows(st, w.st)
  {
    var rows := RowsOf(lookup, name);
    if i == |rows| then Done(st)
    else
      var row := rows[i];
      var key := KeyOf(row);
      if key in st.visitedEdges then VisitRows(lookup, maxDepth, st, name, depth, i + 1)
      else if !Labelled(row) then Raised
      else
        var st1 := st.(edges := st.edges + [EdgeData(row)], visitedEdges := st.visitedEdges + {key},
                       recorded := st.recorded + [row]);
        RowKeyInAll(lookup, name, i);
        FreshKeyShrinks(AllKeys(lookup), st.visitedEdges, st.visitedEdges, key);
        match Visit(lookup, maxDepth, st1, NextLabel(row), depth + 1)
        case Raised => Raised
        case Done(st2) =>
          CardMono(AllKeys(lookup) - st2.visitedEdges, AllKeys(lookup) - st1.visitedEdges);
          VisitRows(lookup, maxDepth, st2, name, depth, i + 1)
  }

  // ---------------------------------------------------------------------------
  // What the walk keeps true
  // ---------------------------------------------------------------------------

  /** The label a fallback node was reached by (its one-element `labels`). */
  function LabelOf(node: Props): string
  {
    if "labels" in node && node["labels"].Strs? && |node["labels"].items| == 1 then node["labels"].items[0] else ""
  }

  function LabelsOf(nodes: seq<Props>): set<string>
  {
    set n | n in nodes :: LabelOf(n)
  }

  function KeysOf(rows: seq<Row>): set<EdgeKey>
  {
    set row | row in rows :: KeyOf(row)
  }

  /** `node` is what the walk appends for a label whose lookup gave a
      non-empty property dict: those properties, with `labels` exactly
      `[label]`. */
  predicate IsNodeData(lookup: Lookup, node: Props)
  {
    var l := LabelOf(node);
    Found(lookup, l) && node == NodeData(PropsOf(lookup, l), l)
  }

  /** The invariant of the walk's state. */
  predicate Inv(lookup: Lookup, st: State)
  {
    // nodes: looked up and non-empty, labels exactly [label], no label twice
    && (forall k :: 0 <= k < |st.nodes| ==> IsNodeData(lookup, st.nodes[k]))
    && (forall j, k :: 0 <= j < k < |st.nodes| ==> LabelOf(st.nodes[j]) != LabelOf(st.nodes[k]))
    && st.visitedNodes == LabelsOf(st.nodes)
    // edges: built from a labelled row of the store, no key twice
    && |st.recorded| == |st.edges|
    && (forall k :: 0 <= k < |st.recorded| ==>
          st.recorded[k] in AllRows(lookup) && Labelled(st.recorded[k]) && st.edges[k] == EdgeData(st.recorded[k]))
    && (forall j, k :: 0 <= j < k < |st.recorded| ==> KeyOf(st.recorded[j]) != KeyOf(st.recorded[k]))
    && st.visitedEdges == KeysOf(st.recorded)
  }

  lemma InitialInv(lookup: Lookup)
    ensures Inv(lookup, Initial())
  {
  }

  /** Appending the node for a fresh label keeps the invariant. */
  lemma AddNodeKeepsInv(lookup: Lookup, st: State, name: string)
    requires Inv(lookup, st) && name !in st.visitedNodes
    requires Found(lookup, name)
    ensures Inv(lookup, st.(nodes := st.nodes + [NodeData(PropsOf(lookup, name), name)],
                            visitedNodes := st.visitedNodes + {name}))
  {
    var n := NodeData(PropsOf(lookup, name), name);
    var nodes' := st.nodes + [n];
    assert LabelOf(n) == name;
    assert forall k :: 0 <= k < |st.nodes| ==> nodes'[k] == st.nodes[k];
    forall k | 0 <= k < |st.nodes| ensures LabelOf(st.nodes[k]) != name {
      assert st.nodes[k] in st.nodes;
    }
    assert LabelsOf(nodes') == LabelsOf(st.nodes) + {name} by {
      assert forall x :: x in nodes' <==> x in st.nodes || x == n;
    }
  }

  /** Recording the edge of a fresh, labelled row of the store keeps the
      invariant. */
  lemma AddEdgeKeepsInv(lookup: Lookup, st: State, row: Row)
    requires Inv(lookup, st) && KeyOf(row) !in st.visitedEdges
    requires row in AllRows(lookup) && Labelled(row)
    ensures Inv(lookup, st.(edges := st.edges + [EdgeData(row)], visitedEdges := st.visitedEdges + {KeyOf(row)},
                            recorded := st.recorded + [row]))
  {
    var rec' := st.recorded + [row];
    assert forall k :: 0 <= k < |st.recorded| ==> rec'[k] == st.recorded[k];
    forall k | 0 <= k < |st.recorded| ensures KeyOf(st.recorded[k]) != KeyOf(row) {
      assert st.recorded[k] in st.recorded;
    }
    assert KeysOf(rec') == KeysOf(st.recorded) + {KeyOf(row)} by {
      assert forall x :: x in rec' <==> x in st.recorded || x == row;
    }
  }

  /** The walk keeps the invariant: no label is appended twice, no edge key
      is recorded twice, every node carries `labels == [label]` and non-empty
      looked-up properties, every edge comes from a labelled row. */
  lemma {:induction false} VisitKeepsInv(lookup: Lookup, maxDepth: int, st: State, name: string, depth: int)
    requires Inv(lookup, st)
    ensures var w := Visit(lookup, maxDepth, st, name, depth); w.Done? ==> Inv(lookup, w.st)
    decreases Measure(lookup, st), 1, 0
  {
    if depth <= maxDepth && Found(lookup, name) && name !in st.visitedNodes {
      var st1 := st.(nodes := st.nodes + [NodeData(PropsOf(lookup, name), name)], visitedNodes := st.visitedNodes + {name});
      AddNodeKeepsInv(lookup, st, name);
      VisitRowsKeepsInv(lookup, maxDepth, st1, name, depth, 0);
    }
  }

  lemma {:induction false} VisitRowsKeepsInv(lookup: Lookup, maxDepth: int, st: State, name: string, depth: int, i: nat)
    requires i <= |RowsOf(lookup, name)| && Inv(lookup, st)
    ensures var w := VisitRows(lookup, maxDepth, st, name, depth, i); w.Done? ==> Inv(lookup, w.st)
    decreases Measure(lookup, st), 0, |RowsOf(lookup, name)| - i
  {
    var rows := RowsOf(lookup, name);
    if i < |rows| {
      var row := rows[i];
      var key := KeyOf(row);
      if key in st.visitedEdges {
        VisitRowsKeepsInv(lookup, maxDepth, st, name, depth, i + 1);
      } else if Labelled(row) {
        var st1 := st.(edges := st.edges + [EdgeData(row)], visitedEdges := st.visitedEdges + {key},
                       recorded := st.recorded + [row]);
        RowKeyInAll(lookup, name, i);
        FreshKeyShrinks(AllKeys(lookup), st.visitedEdges, st.visitedEdges, key);
        AddEdgeKeepsInv(lookup, st, row);
        VisitKeepsInv(lookup, maxDepth, st1, NextLabel(row), depth + 1);
        var w := Visit(lookup, maxDepth, st1, NextLabel(row), depth + 1);
        if w.Done? {
          CardMono(AllKeys(lookup) - w.st.visitedEdges, AllKeys(lookup) - st1.visitedEdges);
          VisitRowsKeepsInv(lookup, maxDepth, w.st, name, depth, i + 1);
        }
      }
    }
  }

  /** Within the depth bound, a label whose lookup is non-empty ends up
      visited, and when it was new its node is the next one appended. */
  lemma VisitAddsCurrent(lookup: Lookup, maxDepth: int, st: State, name: string, depth: int)
    requires depth <= maxDepth && Found(lookup, name)
    ensures var w := Visit(lookup, maxDepth, st, name, depth);
            w.Done? ==> name in w.st.visitedNodes
                        && (name !in st.visitedNodes ==>
                              |w.st.nodes| > |st.nodes| && w.st.nodes[|st.nodes|] == NodeData(PropsOf(lookup, name), name))
  {
    if name !in st.visitedNodes {
      var st1 := st.(nodes := st.nodes + [NodeData(PropsOf(lookup, name), name)], visitedNodes := st.visitedNodes + {name});
      var w := VisitRows(lookup, maxDepth, st1, name, depth, 0);
      if w.Done? {
        assert st1.nodes <= w.st.nodes;
        assert st1.nodes[|st.nodes|] == w.st.nodes[|st.nodes|];
      }
    }
  }

  /** The rows `MATCH (a)-[r]-(b)` yields for one relationship from a node
      labelled `startLabels` to a node labelled `endLabels` when the label
      looked for is on either end: once with `a` the start node (OUTGOING),
      once with `a` the end node (INCOMING). */
  function UndirectedRows(startLabels: seq<string>, r: RelView, endLabels: seq<string>): seq<Row>
  {
    [Row(startLabels, r, endLabels, Outgoing), Row(endLabels, r, startLabels, Incoming)]
  }

  /** Both rows of a relationship share one key, and both send the walk to
      the relationship's END node: `b` of the OUTGOING row and `a` of the
      INCOMING row are the same node, so the walk only ever moves forwards
      along a relationship. */
  lemma NextHopIsEndNode(startLabels: seq<string>, r: RelView, endLabels: seq<string>)
    requires |startLabels| > 0 && |endLabels| > 0
    ensures forall row :: row in UndirectedRows(startLabels, r, endLabels) ==>
              Labelled(row) && NextLabel(row) == endLabels[0] && KeyOf(row) == EdgeKey(r.id, r.relType)
  {
  }

  /** On the store `A -> B`, whose rows are built by `UndirectedRows`, the
      walk from the END node `B` records the relationship but never reaches
      `A`, for every relationship and every depth bound that admits the start
      node: both rows of `B` send it back to `B`. A negative bound records
      nothing. */
  lemma EndNodeNeverWalksBack(r: RelView, maxDepth: int)
    ensures var lookup := Lookup(map["A" := map["name" := Str("a")], "B" := map["name" := Str("b")]],
                                 map["A" := UndirectedRows(["A"], r, ["B"]), "B" := UndirectedRows(["A"], r, ["B"])]);
            var w := Visit(lookup, maxDepth, Initial(), "B", 0);
            && (maxDepth < 0 ==> w == Done(Initial()))
            && (maxDepth >= 0 ==>
                  && w.Done?
                  && |w.st.nodes| == 1 && LabelOf(w.st.nodes[0]) == "B"
                  && |w.st.edges| == 1 && "target" in w.st.edges[0] && w.st.edges[0]["target"] == Str("B")
                  && "A" !in w.st.visitedNodes)
  {
    if maxDepth < 0 {
      return;
    }
    var lookup := Lookup(map["A" := map["name" := Str("a")], "B" := map["name" := Str("b")]],
                         map["A" := UndirectedRows(["A"], r, ["B"]), "B" := UndirectedRows(["A"], r, ["B"])]);
    var rows := UndirectedRows(["A"], r, ["B"]);
    NextHopIsEndNode(["A"], r, ["B"]);
    assert RowsOf(lookup, "B") == rows;
    assert rows[0] in rows && rows[1] in rows;
    assert "name" in lookup.nodes["B"];
    var st1 := Initial().(nodes := Initial().nodes + [NodeData(PropsOf(lookup, "B"), "B")],
                          visitedNodes := Initial().visitedNodes + {"B"});
    VisitEnters(lookup, maxDepth, Initial(), "B", 0);
    var st2 := RecordEdge(st1, rows[0]);
    assert "B" in st2.visitedNodes;
    assert Visit(lookup, maxDepth, st2, "B", 1) == Done(st2);
    VisitRowsDescend(lookup, maxDepth, st1, "B", 0, 0);
    VisitRowsSkip(lookup, maxDepth, st2, "B", 0, 1);
    assert VisitRows(lookup, maxDepth, st2, "B", 0, 2) == Done(st2);
    assert Visit(lookup, maxDepth, Initial(), "B", 0) == Done(st2);
    assert st2.nodes == [NodeData(PropsOf(lookup, "B"), "B")];
    assert st2.edges == [EdgeData(rows[0])];
    assert st2.visitedNodes == {"B"};
  }

  /** The outcome of `_robust_fallback(label, max_depth)`: the two lists, or
      the exception that escaped `traverse`. */
  datatype FallbackOutcome = Returned(nodes: seq<Props>, edges: seq<Props>) | IndexError

  function FallbackResult(lookup: Lookup, name: string, maxDepth: int): FallbackOutcome
  {
    match Visit(lookup, maxDepth, Initial(), name, 0)
    case Done(st) => Returned(st.nodes, st.edges)
    case Raised => IndexError
  }

  /** What `_robust_fallback` returns satisfies the invariant of the walk. */
  lemma FallbackWellFormed(lookup: Lookup, name: string, maxDepth: int)
    ensures var w := Visit(lookup, maxDepth, Initial(), name, 0); w.Done? ==> Inv(lookup, w.st)
    ensures FallbackResult(lookup, name, maxDepth).Returned? ==>
              var out := FallbackResult(lookup, name, maxDepth);
              && (forall j, k :: 0 <= j < k < |out.nodes| ==> LabelOf(out.nodes[j]) != LabelOf(out.nodes[k]))
              && (forall k :: 0 <= k < |out.nodes| ==> IsNodeData(lookup, out.nodes[k]))
  {
    InitialInv(lookup);
    VisitKeepsInv(lookup, maxDepth, Initial(), name, 0);
  }

  /** An edge can name a node that is not in `nodes`: at the depth bound the
      edge is recorded and the walk into its target returns at once. Here
      `A -> B` with `max_depth = 0` yields the node A and the edge A -> B. */
  lemma DanglingEdgeAtDepthBound()
    ensures var row := Row(["A"], RelView(7, "REL", map[]), ["B"], Outgoing);
            var lookup := Lookup(map["A" := map["name" := Str("a")], "B" := map["name" := Str("b")]], map["A" := [row]]);
            var w := Visit(lookup, 0, Initial(), "A", 0);
            && w.Done?
            && |w.st.nodes| == 1 && LabelOf(w.st.nodes[0]) == "A"
            && |w.st.edges| == 1 && "target" in w.st.edges[0] && w.st.edges[0]["target"] == Str("B")
            && "B" !in w.st.visitedNodes
  {
    var row := Row(["A"], RelView(7, "REL", map[]), ["B"], Outgoing);
    var lookup := Lookup(map["A" := map["name" := Str("a")], "B" := map["name" := Str("b")]], map["A" := [row]]);
    assert "name" in lookup.nodes["A"];
    var st1 := Initial().(nodes := [NodeData(PropsOf(lookup, "A"), "A")], visitedNodes := {"A"});
    var st2 := st1.(edges := [EdgeData(row)], visitedEdges := {KeyOf(row)}, recorded := [row]);
    assert RowsOf(lookup, "A") == [row];
    assert Visit(lookup, 0, st2, "B", 1) == Done(st2);
    assert VisitRows(lookup, 0, st2, "A", 0, 1) == Done(st2);
    assert st1.edges + [EdgeData(row)] == [EdgeData(row)];
    assert st1.recorded + [row] == [row];
    assert VisitRows(lookup, 0, st1, "A", 0, 0) == Done(st2);
    assert Initial().nodes + [NodeData(PropsOf(lookup, "A"), "A")] == [NodeData(PropsOf(lookup, "A"), "A")];
    VisitEnters(lookup, 0, Initial(), "A", 0);
    assert {} + {"A"} == {"A"};
    assert Initial().(nodes := Initial().nodes + [NodeData(PropsOf(lookup, "A"), "A")],
                      visitedNodes := Initial().visitedNodes + {"A"}) == st1;
    assert Visit(lookup, 0, Initial(), "A", 0) == Done(st2);
  }

  /** The state after recording the edge of `row`. */
  function RecordEdge(st: State, row: Row): State
    requires Labelled(row)
  {
    st.(edges := st.edges + [EdgeData(row)], visitedEdges := st.visitedEdges + {KeyOf(row)},
        recorded := st.recorded + [row])
  }

  // One unfolding of `Visit` / `VisitRows` per branch, for the method's proof.

  lemma VisitEnters(lookup: Lookup, maxDepth: int, st: State, name: string, depth: int)
    requires depth <= maxDepth && Found(lookup, name) && name !in st.visitedNodes
    ensures Visit(lookup, maxDepth, st, name, depth)
         == VisitRows(lookup, maxDepth, st.(nodes := st.nodes + [NodeData(PropsOf(lookup, name), name)],
                                            visitedNodes := st.visitedNodes + {name}), name, depth, 0)
  {
  }

  lemma VisitRowsSkip(lookup: Lookup, maxDepth: int, st: State, name: string, depth: int, i: nat)
    requires i < |RowsOf(lookup, name)| && KeyOf(RowsOf(lookup, name)[i]) in st.visitedEdges
    ensures VisitRows(lookup, maxDepth, st, name, depth, i) == VisitRows(lookup, maxDepth, st, name, depth, i + 1)
  {
  }

  lemma VisitRowsRaise(lookup: Lookup, maxDepth: int, st: State, name: string, depth: int, i: nat)
    requires i < |RowsOf(lookup, name)| && KeyOf(RowsOf(lookup, name)[i]) !in st.visitedEdges
    requires !Labelled(RowsOf(lookup, name)[i])
    ensures VisitRows(lookup, maxDepth, st, name, depth, i) == Raised
  {
  }

  lemma VisitRowsDescend(lookup: Lookup, maxDepth: int, st: State, name: string, depth: int, i: nat)
    requires i < |RowsOf(lookup, name)| && KeyOf(RowsOf(lookup, name)[i]) !in st.visitedEdges
    requires Labelled(RowsOf(lookup, name)[i])
    ensures var row := RowsOf(lookup, name)[i];
            VisitRows(lookup, maxDepth, st, name, depth, i) ==
              match Visit(lookup, maxDepth, RecordEdge(st, row), NextLabel(row), depth + 1)
              case Raised => Raised
              case Done(st2) => VisitRows(lookup, maxDepth, st2, name, depth, i + 1)
  {
  }

  // ---------------------------------------------------------------------------
  // The walk as the source performs it
  // ---------------------------------------------------------------------------

  /** The state `_robust_fallback` shares with its inner `traverse`. */
  class Traversal {
    const lookup: Lookup
    const maxDepth: int
    var nodes: seq<Props>
    var edges: seq<Props>
    var visitedNodes: set<string>
    var visitedEdges: set<EdgeKey>
    ghost var recorded: seq<Row>

    ghost function Snapshot(): State
      reads this
    {
      State(nodes, edges, visitedNodes, visitedEdges, recorded)
    }

    constructor (lookup: Lookup, maxDepth: int)
      ensures this.lookup == lookup && this.maxDepth == maxDepth
      ensures Snapshot() == Initial()
    {
      this.lookup := lookup;
      this.maxDepth := maxDepth;
      nodes, edges := [], [];
      visitedNodes, visitedEdges := {}, {};
      recorded := [];
    }

    /** `traverse(current_label, current_depth)`; `ok` is false when an
        exception escapes. */
    method Traverse(name: string, depth: int) returns (ok: bool)
      modifies this
      decreases Measure(lookup, Snapshot()), 1
      ensures Visit(lookup, maxDepth, old(Snapshot()), name, depth) == (if ok then Done(Snapshot()) else Raised)
    {
      if depth > maxDepth {
        return true;
      }
      var node := GetNode(lookup, name);
      if node.None? || node.value == map[] || name in visitedNodes {
        return true;
      }
      var props := node.value;
      VisitEnters(lookup, maxDepth, Snapshot(), name, depth);
      visitedNodes := visitedNodes + {name};
      nodes := nodes + [NodeData(props, name)];
      ok := WalkRows(name, depth);
    }

    /** The `async for record in results` loop of `traverse`: skip a seen
        key, fail on a row without labels, otherwise record the edge and
        descend. */
    method WalkRows(name: string, depth: int) returns (ok: bool)
      modifies this
      decreases Measure(lookup, Snapshot()), 0
      ensures VisitRows(lookup, maxDepth, old(Snapshot()), name, depth, 0) == (if ok then Done(Snapshot()) else Raised)
    {
      var rows := RowsOf(lookup, name);
      var i := 0;
      while i < |rows|
        invariant 0 <= i <= |rows| && rows == RowsOf(lookup, name)
        invariant old(visitedEdges) <= visitedEdges
        invariant VisitRows(lookup, maxDepth, Snapshot(), name, depth, i) == VisitRows(lookup, maxDepth, old(Snapshot()), name, depth, 0)
      {
        var row := rows[i];
        var key := KeyOf(row);
        ghost var cur := Snapshot();
        if key in visitedEdges {
          VisitRowsSkip(lookup, maxDepth, cur, name, depth, i);
        } else if |row.a| == 0 || |row.b| == 0 {
          VisitRowsRaise(lookup, maxDepth, cur, name, depth, i);
          return false;
        } else {
          VisitRowsDescend(lookup, maxDepth, cur, name, depth, i);
          RowKeyInAll(lookup, name, i);
          FreshKeyShrinks(AllKeys(lookup), old(visitedEdges), visitedEdges, key);
          edges := edges + [EdgeData(row)];
          recorded := recorded + [row];
          visitedEdges := visitedEdges + {key};
          assert Snapshot() == RecordEdge(cur, row);
          ok := Traverse(NextLabel(row), depth + 1);
          if !ok {
            return false;
          }
        }
        i := i + 1;
      }
      return true;
    }
  }

  /** `_robust_fallback(label, max_depth)`: a fresh state, one `traverse`
      from the label at depth 0. */
  method RobustFallback(lookup: Lookup, name: string, maxDepth: int) returns (out: FallbackOutcome)
    ensures out == FallbackResult(lookup, name, maxDepth)
    ensures out.Returned? ==>
              && (forall j, k :: 0 <= j < k < |out.nodes| ==> LabelOf(out.nodes[j]) != LabelOf(out.nodes[k]))
              && (forall k :: 0 <= k < |out.nodes| ==> IsNodeData(lookup, out.nodes[k]))
  {
    var t := new Traversal(lookup, maxDepth);
    var ok := t.Traverse(name, 0);
    FallbackWellFormed(lookup, name, maxDepth);
    if ok {
      out := Returned(t.nodes, t.edges);
    } else {
      out := IndexError;
    }
  }
}
