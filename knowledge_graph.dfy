/** `get_knowledge_graph` of lightrag/kg/neo4j_impl.py: prepare the label,
    choose the wildcard or the labelled query, return an empty graph when no
    node matches, turn the one record the store returns into a
    `KnowledgeGraph` (nodes de-duplicated by id, edges by relationship id),
    and switch to the fallback walk when the store answers with a
    `ClientError`. */
module KnowledgeGraphs {
  import opened Types
  import opened Labels
  import opened Seen
  import opened Selection
  import Fallback

  /** `KnowledgeGraphNode`; the id is the store id (`f"{node.id}"`). */
  datatype KgNode = KgNode(id: int, labels: seq<string>, properties: Props)

  /** `KnowledgeGraphEdge`; source and target are the ids of the
      relationship's start and end nodes. */
  datatype KgEdge = KgEdge(id: int, relType: string, source: int, target: int, properties: Props)

  datatype KnowledgeGraph = KnowledgeGraph(nodes: seq<KgNode>, edges: seq<KgEdge>)

  function EmptyGraph(): KnowledgeGraph
  {
    KnowledgeGraph([], [])
  }

  function NodeKey(n: StoreNode): int
  {
    n.id
  }

  function RelKey(r: StoreRel): int
  {
    r.id
  }

  function ToKgNode(n: StoreNode): KgNode
  {
    KgNode(n.id, n.labels, n.props)
  }

  function ToKgEdge(r: StoreRel): KgEdge
  {
    KgEdge(r.id, r.relType, r.startId, r.endId, r.props)
  }

  function KgNodeIds(nodes: seq<KgNode>): set<int>
  {
    set n | n in nodes :: n.id
  }

  ghost predicate DistinctNodeIds(nodes: seq<KgNode>)
  {
    forall i, j :: 0 <= i < j < |nodes| ==> nodes[i].id != nodes[j].id
  }

  ghost predicate DistinctEdgeIds(edges: seq<KgEdge>)
  {
    forall i, j :: 0 <= i < j < |edges| ==> edges[i].id != edges[j].id
  }

  /** What the two `seen_*` loops build from a record. */
  function Materialised(rec: Record): KnowledgeGraph
  {
    KnowledgeGraph(MapSeq(ToKgNode, Dedup(rec.nodes, NodeKey)), MapSeq(ToKgEdge, Dedup(rec.rels, RelKey)))
  }

  /** The two loops over `record["nodes"]` and `record["relationships"]`,
      each guarded by its `seen_*` set. */
  method Materialise(rec: Record) returns (kg: KnowledgeGraph)
    ensures kg == Materialised(rec)
  {
    var nodes := KeepFirst(rec.nodes, NodeKey, ToKgNode);
    var edges := KeepFirst(rec.rels, RelKey, ToKgEdge);
    kg := KnowledgeGraph(nodes, edges);
  }

  lemma KeySetIsNodeIds(s: seq<StoreNode>)
    ensures KeySet(s, NodeKey) == NodeIds(s)
  {
  }

  /** The materialised nodes have pairwise distinct ids, and their ids are
      exactly the ids of the record's nodes. */
  lemma MaterialisedNodeIds(rec: Record)
    ensures DistinctNodeIds(Materialised(rec).nodes)
    ensures KgNodeIds(Materialised(rec).nodes) == NodeIds(rec.nodes)
  {
    var d := Dedup(rec.nodes, NodeKey);
    var nodes := MapSeq(ToKgNode, d);
    assert nodes == Materialised(rec).nodes;
    DedupDistinct(rec.nodes, NodeKey);
    DedupKeys(rec.nodes, NodeKey);
    KeySetIsNodeIds(rec.nodes);
    assert forall i :: 0 <= i < |nodes| ==> nodes[i].id == NodeKey(d[i]);
    forall x | x in KgNodeIds(nodes) ensures x in KeySet(d, NodeKey) {
      var i :| 0 <= i < |nodes| && nodes[i].id == x;
      KeyInKeySet(d, NodeKey, i);
    }
    forall x | x in KeySet(d, NodeKey) ensures x in KgNodeIds(nodes) {
      var y :| y in d && NodeKey(y) == x;
      var i :| 0 <= i < |d| && d[i] == y;
      assert nodes[i] in nodes;
    }
  }

  /** Each materialised node is the FIRST record node with its id, and the
      nodes come in the order of those first occurrences. */
  lemma MaterialisedNodeOrder(rec: Record)
    ensures var nodes := Materialised(rec).nodes;
            forall i :: 0 <= i < |nodes| ==>
              nodes[i].id in KeySet(rec.nodes, NodeKey)
              && nodes[i] == ToKgNode(rec.nodes[FirstIndex(rec.nodes, NodeKey, nodes[i].id)])
    ensures var nodes := Materialised(rec).nodes;
            forall i, j :: 0 <= i < j < |nodes| ==>
              && nodes[i].id in KeySet(rec.nodes, NodeKey) && nodes[j].id in KeySet(rec.nodes, NodeKey)
              && FirstIndex(rec.nodes, NodeKey, nodes[i].id) < FirstIndex(rec.nodes, NodeKey, nodes[j].id)
  {
    var key: StoreNode -> int := NodeKey;
    var d := Dedup(rec.nodes, key);
    var nodes := MapSeq(ToKgNode, d);
    assert nodes == Materialised(rec).nodes;
    forall i | 0 <= i < |nodes|
      ensures nodes[i].id in KeySet(rec.nodes, key)
      ensures nodes[i] == ToKgNode(rec.nodes[FirstIndex(rec.nodes, key, nodes[i].id)])
    {
      assert nodes[i] == ToKgNode(d[i]) && nodes[i].id == key(d[i]);
      DedupFirstAt(rec.nodes, key, i);
    }
    forall i, j | 0 <= i < j < |nodes|
      ensures nodes[i].id in KeySet(rec.nodes, key) && nodes[j].id in KeySet(rec.nodes, key)
      ensures FirstIndex(rec.nodes, key, nodes[i].id) < FirstIndex(rec.nodes, key, nodes[j].id)
    {
      assert nodes[i].id == key(d[i]) && nodes[j].id == key(d[j]);
      DedupOrderAt(rec.nodes, key, i, j);
    }
  }

  /** The materialised edges have pairwise distinct ids, and every
      relationship id of the record is represented. */
  lemma MaterialisedEdgeIds(rec: Record)
    ensures DistinctEdgeIds(Materialised(rec).edges)
    ensures forall r :: r in rec.rels ==> exists e :: e in Materialised(rec).edges && e.id == r.id
  {
    var d := Dedup(rec.rels, RelKey);
    var edges := MapSeq(ToKgEdge, d);
    assert edges == Materialised(rec).edges;
    DedupDistinct(rec.rels, RelKey);
    DedupKeys(rec.rels, RelKey);
    assert forall i :: 0 <= i < |edges| ==> edges[i].id == RelKey(d[i]);
    forall r | r in rec.rels ensures exists e :: e in edges && e.id == r.id {
      assert RelKey(r) in KeySet(rec.rels, RelKey);
      var y :| y in d && RelKey(y) == r.id;
      var i :| 0 <= i < |d| && d[i] == y;
      assert edges[i] in edges;
    }
  }

  /** Each materialised edge is a relationship of the record, with source
      and target its start and end node ids: nothing is invented. */
  lemma MaterialisedEdgesFromRecord(rec: Record)
    ensures forall e :: e in Materialised(rec).edges ==> exists r :: r in rec.rels && e == ToKgEdge(r)
  {
    var d := Dedup(rec.rels, RelKey);
    var edges := MapSeq(ToKgEdge, d);
    DedupElements(rec.rels, RelKey);
    forall e | e in edges ensures exists r :: r in rec.rels && e == ToKgEdge(r) {
      var i :| 0 <= i < |edges| && edges[i] == e;
      assert d[i] in d;
    }
  }

  // ---------------------------------------------------------------------------
  // The whole operation
  // ---------------------------------------------------------------------------

  /** The errors the driver can raise; only `ClientError` is caught. */
  datatype QueryError = ClientError | DatabaseError | TransientError

  /** Which of the queries of the operation fail, and how. */
  datatype Faults = Faults(validate: Option<QueryError>, main: Option<QueryError>)

  /** The store as the operation sees it: the node and relationship
      snapshot, what `apoc.path.subgraphAll` yields for the start node, the
      query faults, and the lookups the fallback walk uses. */
  datatype GraphStore = GraphStore(nodes: seq<StoreNode>, rels: seq<StoreRel>, reach: Reach,
                                   faults: Faults, lookup: Fallback.Lookup)

  /** A `KnowledgeGraph`, the fallback's `{"nodes", "edges"}` dict (or its
      exception), or an error that escapes. */
  datatype GraphResult = Graph(kg: KnowledgeGraph) | FellBack(outcome: Fallback.FallbackOutcome) | Failed(error: QueryError)

  /** The `except ClientError` clause: fall back on the stripped label;
      other errors escape. */
  function OnError(store: GraphStore, stripped: string, maxDepth: int, e: QueryError): GraphResult
  {
    if e == ClientError then FellBack(Fallback.FallbackResult(store.lookup, stripped, maxDepth)) else Failed(e)
  }

  function FromRecord(rec: Option<Record>): KnowledgeGraph
  {
    match rec
    case None => EmptyGraph()
    case Some(r) => Materialised(r)
  }

  /** What the store matches on when the stripped label is embedded as
      `'{escaped_label}'` with the quote-only escaping of the adapter; None
      when the embedded text does not read back as exactly one literal. */
  function StoreNeedle(stripped: string): Option<string>
  {
    QueryNeedle(EscapeQuotes(stripped))
  }

  /** `get_knowledge_graph(node_label, max_depth)` with `MAX_GRAPH_NODES =
      maxNodes`. The label is embedded with the quote-only escaping; a query
      text that does not read back as one literal is rejected by the store
      with a `ClientError`. */
  function KnowledgeGraphOf(store: GraphStore, nodeLabel: string, maxDepth: int, maxNodes: nat): GraphResult
  {
    var stripped := StripQuotes(nodeLabel);
    if stripped == "*" then
      match store.faults.main
      case Some(e) => OnError(store, stripped, maxDepth, e)
      case None => Graph(FromRecord(WildcardRecord(store.nodes, store.rels, maxNodes)))
    else
      match StoreNeedle(stripped)
      case None => OnError(store, stripped, maxDepth, ClientError)
      case Some(needle) => LabelledBranch(store, stripped, needle, maxDepth, maxNodes)
  }

  /** The labelled branch once the store has read the needle: the
      validation query, then the main query. */
  function LabelledBranch(store: GraphStore, stripped: string, needle: string, maxDepth: int, maxNodes: nat): GraphResult
  {
    match store.faults.validate
    case Some(e) => OnError(store, stripped, maxDepth, e)
    case None =>
      match FirstSeed(store.nodes, needle)
      case None => Graph(EmptyGraph())
      case Some(start) =>
        match store.faults.main
        case Some(e) => OnError(store, stripped, maxDepth, e)
        case None => Graph(FromRecord(LabelRecord(store.rels, store.reach, start.id, maxNodes)))
  }

  /** The operation step by step: strip and escape, validate, run the main
      query, materialise, or fall back. */
  method GetKnowledgeGraph(store: GraphStore, nodeLabel: string, maxDepth: int, maxNodes: nat) returns (r: GraphResult)
    ensures r == KnowledgeGraphOf(store, nodeLabel, maxDepth, maxNodes)
  {
    var stripped := StripQuotes(nodeLabel);
    var escaped := EscapeQuotes(stripped);
    var answer: Option<Record>;
    if stripped == "*" {
      if store.faults.main.Some? {
        r := OnErrorOf(store, stripped, maxDepth, store.faults.main.value);
        return;
      }
      answer := WildcardRecord(store.nodes, store.rels, maxNodes);
    } else {
      var needle := QueryNeedle(escaped);
      assert needle == StoreNeedle(stripped);
      if needle.None? {
        r := OnErrorOf(store, stripped, maxDepth, ClientError);
        return;
      }
      if store.faults.validate.Some? {
        r := OnErrorOf(store, stripped, maxDepth, store.faults.validate.value);
        return;
      }
      var start := FirstSeed(store.nodes, needle.value);
      if start.None? {
        return Graph(EmptyGraph());
      }
      if store.faults.main.Some? {
        r := OnErrorOf(store, stripped, maxDepth, store.faults.main.value);
        return;
      }
      answer := LabelRecord(store.rels, store.reach, start.value.id, maxNodes);
    }
    var kg := EmptyGraph();
    if answer.Some? {
      kg := Materialise(answer.value);
    }
    r := Graph(kg);
  }

  /** The error handler as a step: runs the fallback walk on a
      `ClientError`. */
  method OnErrorOf(store: GraphStore, stripped: string, maxDepth: int, e: QueryError) returns (r: GraphResult)
    ensures r == OnError(store, stripped, maxDepth, e)
  {
    if e == ClientError {
      var out := Fallback.RobustFallback(store.lookup, stripped, maxDepth);
      r := FellBack(out);
    } else {
      r := Failed(e);
    }
  }

  // ---------------------------------------------------------------------------
  // Properties of the operation
  // ---------------------------------------------------------------------------

  /** A materialised graph: at most `max_nodes` nodes, pairwise distinct
      node ids and edge ids, and every edge joins two nodes of the graph. */
  ghost predicate WellFormed(kg: KnowledgeGraph, maxNodes: nat)
  {
    && |kg.nodes| <= maxNodes
    && DistinctNodeIds(kg.nodes)
    && DistinctEdgeIds(kg.edges)
    && (forall e :: e in kg.edges ==> e.source in KgNodeIds(kg.nodes) && e.target in KgNodeIds(kg.nodes))
  }

  lemma RecordGraphWellFormed(rec: Record, maxNodes: nat)
    requires |rec.nodes| <= maxNodes
    requires forall r :: r in rec.rels ==> r.startId in NodeIds(rec.nodes) && r.endId in NodeIds(rec.nodes)
    ensures WellFormed(Materialised(rec), maxNodes)
  {
    MaterialisedNodeIds(rec);
    MaterialisedEdgeIds(rec);
    MaterialisedEdgesFromRecord(rec);
    var kg := Materialised(rec);
    forall e | e in kg.edges ensures e.source in KgNodeIds(kg.nodes) && e.target in KgNodeIds(kg.nodes) {
      var r :| r in rec.rels && e == ToKgEdge(r);
    }
  }

  /** The graph built from a main query's answer is well formed when the
      record is within the cap and closed. */
  lemma FromRecordWellFormed(rec: Option<Record>, maxNodes: nat)
    requires rec.Some? ==> |rec.value.nodes| <= maxNodes
    requires rec.Some? ==> forall r :: r in rec.value.rels ==>
               r.startId in NodeIds(rec.value.nodes) && r.endId in NodeIds(rec.value.nodes)
    ensures WellFormed(FromRecord(rec), maxNodes)
  {
    if rec.Some? {
      RecordGraphWellFormed(rec.value, maxNodes);
    }
  }

  /** The labelled branch gives a well-formed graph, whatever the needle. */
  lemma LabelledBranchWellFormed(store: GraphStore, stripped: string, needle: string, maxDepth: int, maxNodes: nat)
    ensures var r := LabelledBranch(store, stripped, needle, maxDepth, maxNodes);
            r.Graph? ==> WellFormed(r.kg, maxNodes)
  {
    var r := LabelledBranch(store, stripped, needle, maxDepth, maxNodes);
    if store.faults.validate.None? {
      var start := FirstSeed(store.nodes, needle);
      if start.None? {
        assert r == Graph(EmptyGraph());
        assert WellFormed(EmptyGraph(), maxNodes);
      } else if store.faults.main.None? {
        var rec := LabelRecord(store.rels, store.reach, start.value.id, maxNodes);
        assert r == Graph(FromRecord(rec));
        LabelRecordClosed(store.rels, store.reach, start.value.id, maxNodes);
        FromRecordWellFormed(rec, maxNodes);
      }
    }
  }

  /** Whatever graph the operation returns (not the fallback's dict) is well
      formed. */
  lemma GraphWellFormed(store: GraphStore, nodeLabel: string, maxDepth: int, maxNodes: nat)
    ensures var r := KnowledgeGraphOf(store, nodeLabel, maxDepth, maxNodes);
            r.Graph? ==> WellFormed(r.kg, maxNodes)
  {
    var stripped := StripQuotes(nodeLabel);
    var r := KnowledgeGraphOf(store, nodeLabel, maxDepth, maxNodes);
    if stripped == "*" {
      if store.faults.main.None? {
        var rec := WildcardRecord(store.nodes, store.rels, maxNodes);
        assert r == Graph(FromRecord(rec));
        WildcardRecordClosed(store.nodes, store.rels, maxNodes);
        FromRecordWellFormed(rec, maxNodes);
      }
    } else if StoreNeedle(stripped).Some? {
      var needle := StoreNeedle(stripped).value;
      assert r == LabelledBranch(store, stripped, needle, maxDepth, maxNodes);
      LabelledBranchWellFormed(store, stripped, needle, maxDepth, maxNodes);
    }
  }

  /** A label (not `*`) whose needle no node label contains gives an empty
      graph, whatever the main query would have done. For a label without
      backslashes the needle is the stripped label (`PlainLabelNeedle`). */
  lemma NoMatchGivesEmptyGraph(store: GraphStore, nodeLabel: string, maxDepth: int, maxNodes: nat, needle: string)
    requires StripQuotes(nodeLabel) != "*" && store.faults.validate.None?
    requires StoreNeedle(StripQuotes(nodeLabel)) == Some(needle)
    requires forall n :: n in store.nodes ==> !AnyLabelContains(n.labels, needle)
    ensures KnowledgeGraphOf(store, nodeLabel, maxDepth, maxNodes) == Graph(EmptyGraph())
  {
  }

  /** The labelled branch returns what the fallback walk returns for the
      stripped label when the embedded label does not read back as one
      literal (the store's syntax error), when the validation query raises a
      `ClientError`, or when some node matches and the main query raises
      one. */
  lemma ClientErrorFallsBack(store: GraphStore, nodeLabel: string, maxDepth: int, maxNodes: nat)
    requires StripQuotes(nodeLabel) != "*"
    requires var needle := StoreNeedle(StripQuotes(nodeLabel));
             || needle.None?
             || store.faults.validate == Some(ClientError)
             || (store.faults.validate.None? && store.faults.main == Some(ClientError)
                 && exists n :: n in store.nodes && AnyLabelContains(n.labels, needle.value))
    ensures KnowledgeGraphOf(store, nodeLabel, maxDepth, maxNodes)
            == FellBack(Fallback.FallbackResult(store.lookup, StripQuotes(nodeLabel), maxDepth))
  {
  }

  /** A label ending in a backslash never reaches the main query: the
      store rejects the validation query and the fallback walk runs. */
  lemma TrailingBackslashFallsBack(store: GraphStore, maxDepth: int, maxNodes: nat)
    ensures KnowledgeGraphOf(store, ['a', Backslash], maxDepth, maxNodes)
            == FellBack(Fallback.FallbackResult(store.lookup, ['a', Backslash], maxDepth))
  {
    StripQuotesUnquoted(['a', Backslash]);
    TrailingBackslashUnreadable();
    ClientErrorFallsBack(store, ['a', Backslash], maxDepth, maxNodes);
  }

  /** When exactly one node of the store has a label containing the needle,
      that node is reachable from itself and `max_nodes >= 1`, it is the
      first node of the graph. */
  lemma StartNodeFirst(store: GraphStore, nodeLabel: string, maxDepth: int, maxNodes: nat, needle: string)
    requires StripQuotes(nodeLabel) != "*" && store.faults == Faults(None, None) && maxNodes >= 1
    requires StoreNeedle(StripQuotes(nodeLabel)) == Some(needle)
    requires FirstSeed(store.nodes, needle).Some?
    requires FirstSeed(store.nodes, needle).value in store.reach.nodes
    requires forall n :: n in store.nodes && AnyLabelContains(n.labels, needle) ==> n == FirstSeed(store.nodes, needle).value
    ensures var r := KnowledgeGraphOf(store, nodeLabel, maxDepth, maxNodes);
            r.Graph? && |r.kg.nodes| >= 1 && r.kg.nodes[0].id == FirstSeed(store.nodes, needle).value.id
  {
    var start := FirstSeed(store.nodes, needle).value;
    var sorted := RankSort(Candidates(store.reach.nodes, store.rels, start.id));
    StartNodeKeptFirst(store.reach.nodes, store.rels, start, sorted, maxNodes);
    var kept := NodesOf(Keep(sorted, maxNodes));
    assert kept[0].id == start.id;
    var rec := Record(kept, FilterRels(store.reach.rels, NodeIds(kept)));
    assert LabelRecord(store.rels, store.reach, start.id, maxNodes) == Some(rec);
    var d := Dedup(kept, NodeKey);
    DedupFirstOccurrence(kept, NodeKey);
    DedupKeys(kept, NodeKey);
    KeyInKeySet(kept, NodeKey, 0);
    assert |d| >= 1;
    assert FirstIndex(kept, NodeKey, d[0].id) == 0;
  }
}
