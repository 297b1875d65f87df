/** The edge point queries of lightrag/kg/neo4j_impl.py that do work on the
    Python side: `get_edge` (default filling), `edge_degree` (`None` as 0)
    and `get_node_edges` (the first-label pair filter). What the store
    answers to each query is an input. */
module EdgeQueries {
  import opened Types
  import opened Labels

  // ---------------------------------------------------------------------------
  // get_edge
  // ---------------------------------------------------------------------------

  /** `required_keys`, in its iteration order, with the default values. */
  const RequiredKeys: seq<(string, Value)> :=
    [("weight", Num(0.0)), ("source_id", Null), ("description", Null), ("keywords", Null)]

  function RequiredNames(): set<string>
  {
    set i | 0 <= i < |RequiredKeys| :: RequiredKeys[i].0
  }

  /** The default edge properties returned when there is no edge or an
      error occurs. */
  function DefaultEdge(): Props
  {
    map["weight" := Num(0.0), "description" := Null, "keywords" := Null, "source_id" := Null]
  }

  /** The edge properties with every missing required key set to its
      default: the keys of `props` plus the required ones, the values of
      `props` where it has them. */
  function WithDefaults(props: Props): Props
  {
    map k | k in props.Keys + RequiredNames() :: if k in props then props[k] else DefaultEdge()[k]
  }

  /** What the store answers to the `get_edge` query for a pair of stripped
      labels. */
  datatype EdgeAnswer =
    | NoRecord                   // no relationship from the one label to the other
    | Found(props: Props)        // `properties(r)` of the first one
    | ProcessingError            // `KeyError`/`TypeError`/`ValueError` while reading it
    | QueryFailed                // any other exception

  function AnswerFor(answers: map<(string, string), EdgeAnswer>, src: string, tgt: string): EdgeAnswer
  {
    if (src, tgt) in answers then answers[(src, tgt)] else NoRecord
  }

  /** `get_edge(source_node_id, target_node_id)`. */
  function EdgeOf(answers: map<(string, string), EdgeAnswer>, sourceId: string, targetId: string): Props
  {
    match AnswerFor(answers, StripQuotes(sourceId), StripQuotes(targetId))
    case Found(props) => WithDefaults(props)
    case _ => DefaultEdge()
  }

  /** The defaults of `RequiredKeys` are the values of `DefaultEdge()`. */
  lemma RequiredDefaults(i: int)
    requires 0 <= i < |RequiredKeys|
    ensures RequiredKeys[i].0 in DefaultEdge() && DefaultEdge()[RequiredKeys[i].0] == RequiredKeys[i].1
  {
  }

  /** The `for key, default_value in required_keys.items()` loop. */
  method FillDefaults(props: Props) returns (result: Props)
    ensures result == WithDefaults(props)
  {
    result := props;
    var i := 0;
    while i < |RequiredKeys|
      invariant 0 <= i <= |RequiredKeys|
      invariant forall j :: 0 <= j < i ==> RequiredKeys[j].0 in result
      invariant forall k :: k in props ==> k in result && result[k] == props[k]
      invariant forall k :: k in result && k !in props ==> k in DefaultEdge() && result[k] == DefaultEdge()[k]
    {
      var (key, defaultValue) := RequiredKeys[i];
      RequiredDefaults(i);
      if key !in result {
        result := result[key := defaultValue];
      }
      i := i + 1;
    }
    DefaultsPresent(props);
  }

  /** `get_edge`: a stripped-label query, then the default filling or the
      default dict. */
  method GetEdge(answers: map<(string, string), EdgeAnswer>, sourceId: string, targetId: string) returns (result: Props)
    ensures result == EdgeOf(answers, sourceId, targetId)
    ensures RequiredNames() <= result.Keys
  {
    var src := StripQuotes(sourceId);
    var tgt := StripQuotes(targetId);
    var answer := AnswerFor(answers, src, tgt);
    if answer.Found? {
      result := FillDefaults(answer.props);
    } else {
      result := DefaultEdge();
    }
    EdgeOfHasRequired(answers, sourceId, targetId);
  }

  /** Whatever the store answers, the edge holds the four required keys. */
  lemma EdgeOfHasRequired(answers: map<(string, string), EdgeAnswer>, sourceId: string, targetId: string)
    ensures RequiredNames() <= EdgeOf(answers, sourceId, targetId).Keys
  {
    var answer := AnswerFor(answers, StripQuotes(sourceId), StripQuotes(targetId));
    if answer.Found? {
      DefaultsPresent(answer.props);
    } else {
      DefaultsPresent(map[]);
    }
  }

  /** The result always holds the four required keys; keys already present
      keep their values, missing ones get the defaults, nothing else is
      added. */
  lemma DefaultsPresent(props: Props)
    ensures RequiredNames() <= WithDefaults(props).Keys && RequiredNames() == DefaultEdge().Keys
    ensures forall k :: k in props ==> k in WithDefaults(props) && WithDefaults(props)[k] == props[k]
    ensures forall i :: 0 <= i < |RequiredKeys| && RequiredKeys[i].0 !in props ==>
              WithDefaults(props)[RequiredKeys[i].0] == RequiredKeys[i].1
    ensures WithDefaults(props).Keys == props.Keys + RequiredNames()
  {
    assert RequiredNames() == {"weight", "source_id", "description", "keywords"} by {
      assert RequiredKeys[0].0 == "weight" && RequiredKeys[1].0 == "source_id";
      assert RequiredKeys[2].0 == "description" && RequiredKeys[3].0 == "keywords";
    }
  }

  /** The default dict is exactly what filling an empty dict gives: the
      error and not-found paths agree with the found path on the defaults. */
  lemma DefaultEdgeIsFilledEmpty()
    ensures DefaultEdge() == WithDefaults(map[])
  {
    DefaultsPresent(map[]);
  }

  /** Filling twice is filling once. */
  lemma WithDefaultsIdempotent(props: Props)
    ensures WithDefaults(WithDefaults(props)) == WithDefaults(props)
  {
    DefaultsPresent(props);
    DefaultsPresent(WithDefaults(props));
  }

  // ---------------------------------------------------------------------------
  // edge_degree
  // ---------------------------------------------------------------------------

  /** `node_degree(node_id)`: the relationship count of the node with the
      stripped label, `None` when there is no such node. `degrees` is what
      the store answers. */
  function NodeDegree(degrees: map<string, nat>, nodeId: string): Option<nat>
  {
    var clean := StripQuotes(nodeId);
    if clean in degrees then Some(degrees[clean]) else None
  }

  function OrZero(d: Option<nat>): nat
  {
    match d
    case None => 0
    case Some(n) => n
  }

  /** `edge_degree(src_id, tgt_id)`: the two node degrees, `None` as 0. */
  function EdgeDegree(degrees: map<string, nat>, srcId: string, tgtId: string): (d: nat)
  {
    OrZero(NodeDegree(degrees, StripQuotes(srcId))) + OrZero(NodeDegree(degrees, StripQuotes(tgtId)))
  }

  /** The second strip inside `node_degree` changes nothing. */
  lemma NodeDegreeOfStripped(degrees: map<string, nat>, nodeId: string)
    ensures NodeDegree(degrees, StripQuotes(nodeId)) == NodeDegree(degrees, nodeId)
  {
    StripQuotesIdempotent(nodeId);
  }

  /** `edge_degree` is the sum of the two `node_degree` answers, `None`
      counted as 0. */
  lemma EdgeDegreeSum(degrees: map<string, nat>, srcId: string, tgtId: string)
    ensures EdgeDegree(degrees, srcId, tgtId) == OrZero(NodeDegree(degrees, srcId)) + OrZero(NodeDegree(degrees, tgtId))
  {
    NodeDegreeOfStripped(degrees, srcId);
    NodeDegreeOfStripped(degrees, tgtId);
  }

  /** The sum does not depend on the order of the endpoints, a missing
      endpoint adds nothing, and two present endpoints add their counts. */
  lemma EdgeDegreeCases(degrees: map<string, nat>, srcId: string, tgtId: string)
    ensures EdgeDegree(degrees, srcId, tgtId) == EdgeDegree(degrees, tgtId, srcId)
    ensures StripQuotes(srcId) !in degrees ==>
              EdgeDegree(degrees, srcId, tgtId) == OrZero(NodeDegree(degrees, tgtId))
    ensures StripQuotes(srcId) in degrees && StripQuotes(tgtId) in degrees ==>
              EdgeDegree(degrees, srcId, tgtId) == degrees[StripQuotes(srcId)] + degrees[StripQuotes(tgtId)]
  {
    EdgeDegreeSum(degrees, srcId, tgtId);
  }

  /** Quotes around the ids do not change the result. */
  lemma EdgeDegreeStripped(degrees: map<string, nat>, srcId: string, tgtId: string)
    ensures EdgeDegree(degrees, srcId, tgtId) == EdgeDegree(degrees, StripQuotes(srcId), StripQuotes(tgtId))
  {
    EdgeDegreeSum(degrees, srcId, tgtId);
    EdgeDegreeSum(degrees, StripQuotes(srcId), StripQuotes(tgtId));
    NodeDegreeOfStripped(degrees, srcId);
    NodeDegreeOfStripped(degrees, tgtId);
  }

  // ---------------------------------------------------------------------------
  // get_node_edges
  // ---------------------------------------------------------------------------

  /** The `connected` node of a record: its labels and its properties. */
  datatype Neighbour = Neighbour(labels: seq<string>, props: Props)

  /** One record of `MATCH (n:`label`) OPTIONAL MATCH (n)-[r]-(connected)`:
      the label list of `n` and the `connected` node (absent when the
      optional match found nothing). */
  datatype NeighbourRecord = NeighbourRecord(source: seq<string>, connected: Option<Neighbour>)

  /** `list(labels)[0] if labels else None`. */
  function FirstLabel(labels: seq<string>): Option<string>
  {
    if |labels| > 0 then Some(labels[0]) else None
  }

  /** Python truthiness of the optional label: present and non-empty. */
  predicate Truthy(l: Option<string>)
  {
    l.Some? && l.value != ""
  }

  /** Python truthiness of `connected_node`: the driver's node is a mapping
      of its properties, so it is truthy when present with at least one
      property. */
  predicate NodeTruthy(n: Option<Neighbour>)
  {
    n.Some? && |n.value.props| > 0
  }

  /** The record gives a pair: the source's first label is non-empty, the
      connected node is truthy, and its first label is non-empty. */
  predicate GivesPair(rec: NeighbourRecord)
  {
    Truthy(FirstLabel(rec.source)) && NodeTruthy(rec.connected) && Truthy(FirstLabel(rec.connected.value.labels))
  }

  function PairOf(rec: NeighbourRecord): (string, string)
    requires GivesPair(rec)
  {
    (rec.source[0], rec.connected.value.labels[0])
  }

  /** The pairs the loop keeps, in record order. */
  function LabelPairs(records: seq<NeighbourRecord>): seq<(string, string)>
  {
    if records == [] then []
    else
      var last := records[|records| - 1];
      LabelPairs(records[..|records| - 1]) + (if GivesPair(last) then [PairOf(last)] else [])
  }

  /** The `async for record in results` loop of `get_node_edges`. */
  method NodeEdges(records: seq<NeighbourRecord>) returns (edges: seq<(string, string)>)
    ensures edges == LabelPairs(records)
  {
    edges := [];
    var i := 0;
    while i < |records|
      invariant 0 <= i <= |records|
      invariant edges == LabelPairs(records[..i])
    {
      var rec := records[i];
      assert records[..i + 1][..i] == records[..i];
      var sourceLabel := FirstLabel(rec.source);
      var targetLabel := if NodeTruthy(rec.connected) then FirstLabel(rec.connected.value.labels) else None;
      if Truthy(sourceLabel) && Truthy(targetLabel) {
        edges := edges + [(sourceLabel.value, targetLabel.value)];
      }
      i := i + 1;
    }
    assert records[..i] == records;
  }

  /** `get_node_edges(source_node_id)`: the records for the stripped label
      (none when the label is unknown). */
  method GetNodeEdges(answers: map<string, seq<NeighbourRecord>>, sourceId: string) returns (edges: seq<(string, string)>)
    ensures var clean := StripQuotes(sourceId);
            edges == LabelPairs(if clean in answers then answers[clean] else [])
  {
    var clean := StripQuotes(sourceId);
    var records := if clean in answers then answers[clean] else [];
    edges := NodeEdges(records);
  }

  /** Every kept pair is the two first labels of some record, both
      non-empty; every record whose two first labels are non-empty gives its
      pair; and there is at most one pair per record. */
  lemma {:induction false} LabelPairsExact(records: seq<NeighbourRecord>)
    ensures |LabelPairs(records)| <= |records|
    ensures forall p :: p in LabelPairs(records) ==>
              p.0 != "" && p.1 != "" && exists rec :: rec in records && GivesPair(rec) && PairOf(rec) == p
    ensures forall rec :: rec in records && GivesPair(rec) ==> PairOf(rec) in LabelPairs(records)
  {
    if records != [] {
      var init, last := records[..|records| - 1], records[|records| - 1];
      LabelPairsExact(init);
      assert forall rec :: rec in records <==> rec in init || rec == last;
    }
  }
}
