# Neo4j graph storage adapter: a Dafny model

This project models the Python-side logic of `Neo4JStorage`, the adapter in
`lightrag/kg/neo4j_impl.py` between LightRAG's graph-storage interface and a
Neo4j database. The store itself is never modelled: whatever Neo4j answers to
a query is an input of the model. That covers the node and relationship
snapshot, the nodes and relationships `apoc.path.subgraphAll` reaches from
the start node, the `get_node` lookups, the rows of the fallback's
relationship query, the point-query answers and the query faults.

The modules follow the adapter's pieces:

- `Types` (types.dfy): property values and property maps.
- `Labels` (labels.dfy): `strip('"')`, the quote escaping of
  `get_knowledge_graph`, a reader for single-quoted Cypher string literals,
  `CONTAINS` label matching and the database-name substitution.
- `Seen` (dedup.dfy): de-duplication by key in first-occurrence order, which
  is what the `seen_nodes` / `seen_edges` loops compute.
- `Selection` (selection.dfy): the selection rule that the two main queries
  encode in Cypher. Nodes get a degree and a priority, they are ordered, the
  first `max_nodes` are kept, and a relationship survives only when both of
  its endpoints do.
- `Fallback` (fallback.dfy): `_robust_fallback`. The functions
  `Visit` / `VisitRows` give the depth-first walk as a function of its
  state. The class `Fallback.Traversal` performs the walk in place, as the
  source does, and is proved to compute exactly what `Visit` gives.
- `KnowledgeGraphs` (knowledge_graph.dfy): `get_knowledge_graph`. It covers
  label preparation with the quote-only escaping the adapter applies, the
  needle the store reads out of the embedded literal (`StoreNeedle`), the
  wildcard and labelled branches, the empty result when no label matches,
  materialisation of the record, and the switch to the fallback on a
  `ClientError`, including the syntax error of a literal that does not
  close where the label ends.
- `EdgeQueries` (edges.dfy): the default filling of `get_edge`, the
  `None`-as-0 sum of `edge_degree` and the first-label pair filter of
  `get_node_edges`.

Ids are store ids (`int`). Edge keys are `(id, type)` pairs. The first label
of a node is the first element of its label list.

## Model

| member | source | states |
|---|---|---|
| `Labels.StripQuotes` | lightrag/kg/neo4j_impl.py:181 | The result neither starts nor ends with `"`. It is a slice of the input, and only `"` characters lie around it. |
| `Labels.StripQuotesIdempotent` | lightrag/kg/neo4j_impl.py:181 | Stripping twice gives the same result as stripping once. |
| `Labels.EscapeQuotes` | lightrag/kg/neo4j_impl.py:491 | The escaped label is longer than the label by exactly its number of single quotes. |
| `Labels.DropQuoteBackslashesOfEscape` | lightrag/kg/neo4j_impl.py:491 | Deleting the backslash before each quote gives back the label, whatever backslashes it already held. |
| `Labels.EscapeQuotesBackslashes` | lightrag/kg/neo4j_impl.py:491 | Backslashes already in the label are left as they are: the escaped text has the label's own backslashes plus one per quote, and the same number of quotes. |
| `Labels.EscapeQuotesClosesLiteralEarly` | lightrag/kg/neo4j_impl.py:489-491 | With the escaping as written, the label `\'` makes the embedded literal close after `\`, so the following quote becomes query text. |
| `Labels.EscapeLiteral` | lightrag/kg/neo4j_impl.py:491 | Corrected escaping: the length grows by one per quote and one per backslash. |
| `Labels.LiteralRoundTrip` | lightrag/kg/neo4j_impl.py:515-518 | With the corrected escaping, the store reads back exactly the label, and the query text after the literal is untouched. |
| `Labels.EscapeLiteralNeedle` | lightrag/kg/neo4j_impl.py:528-530 | With the corrected escaping, the query always matches on the stripped label itself. |
| `Labels.EscapeLiteralWithoutBackslash` | lightrag/kg/neo4j_impl.py:491 | For a label without backslashes, the corrected escaping equals the escaping as written. |
| `Labels.ReadLiteral` | lightrag/kg/neo4j_impl.py:517 | How the store reads the single-quoted literal `'{escaped_label}'`, with the one-character escapes. Its properties are `ReadLiteralSuffix`, `LiteralRoundTrip`, `EscapeQuotesClosesLiteralEarly`, `TrailingBackslashUnreadable` and `NewlineEscapeReadsNewline`. |
| `Labels.ReadLiteralSuffix` | lightrag/kg/neo4j_impl.py:517 | The literal is a prefix of the text: the query text after its closing quote is a strictly shorter suffix of the input. |
| `Labels.PlainLabelNeedle` | lightrag/kg/neo4j_impl.py:491 | For a label without backslashes, the store reads the escaped literal back as exactly the label. |
| `Labels.TrailingBackslashUnreadable` | lightrag/kg/neo4j_impl.py:491 | With the escaping as written, the label `a\` escapes the closing quote, so the embedded text is not a closed literal. |
| `Labels.NewlineEscapeReadsNewline` | lightrag/kg/neo4j_impl.py:491 | With the escaping as written, the label `a\n` is read by the store as `a` followed by a newline, not as the label. |
| `Labels.StripQuotesUnquoted` | lightrag/kg/neo4j_impl.py:489 | A label that neither starts nor ends with `"` is left unchanged by the strip. |
| `Labels.ContainsAt` | lightrag/kg/neo4j_impl.py:517 | If `t` occurs at any position of `s`, then `s CONTAINS t`. |
| `Labels.SanitizeName` | lightrag/kg/neo4j_impl.py:79 | Same length as the input. Each character is kept if it is in `[a-zA-Z0-9-]` and replaced by `-` otherwise. |
| `Labels.DatabaseName` | lightrag/kg/neo4j_impl.py:78-80 | An `NEO4J_DATABASE` value wins. Otherwise the name has the namespace's length, every character of the namespace in `[a-zA-Z0-9-]` stays in place, and every other character becomes `-`. |
| `Labels.SanitizeNameIdempotent` | lightrag/kg/neo4j_impl.py:79 | Sanitising an already sanitised name changes nothing. |
| `Seen.Dedup` | lightrag/kg/neo4j_impl.py:562-590 | What a `seen`-guarded loop keeps: never more elements than the input. Its other properties are `DedupKeys`, `DedupDistinct`, `DedupElements` and `DedupFirstOccurrence`. |
| `Seen.FirstIndex` | lightrag/kg/neo4j_impl.py:565-566 | Returns the index of the first element with the given key; no earlier element has that key. |
| `Seen.DedupKeys` | lightrag/kg/neo4j_impl.py:562-573 | De-duplication keeps every key and adds none. |
| `Seen.DedupDistinct` | lightrag/kg/neo4j_impl.py:562-573 | No two kept elements share a key. |
| `Seen.DedupElements` | lightrag/kg/neo4j_impl.py:576-590 | Every kept element is an element of the input. |
| `Seen.DedupFirstOccurrence` | lightrag/kg/neo4j_impl.py:562-573 | Each kept element is the first input element with its key, and kept elements follow the order of those first occurrences. |
| `Selection.Priority` | lightrag/kg/neo4j_impl.py:543-547 | The `CASE` expression of the main query; its meaning is stated by `CandidatePriorities`. |
| `Selection.Candidates` | lightrag/kg/neo4j_impl.py:540-547 | The `UNWIND` rows of the labelled query, each reachable node with its degree and priority. Its meaning is stated by `CandidatePriorities`. |
| `Selection.DegreeCandidates` | lightrag/kg/neo4j_impl.py:500-503 | The rows of the wildcard query, each store node with its degree. Its meaning is stated by `WildcardKeepsHighestDegree` and `WildcardRecordClosed`. |
| `Selection.Degree` | lightrag/kg/neo4j_impl.py:541-542 | A node's degree is at most the number of relationships. |
| `Selection.CandidatePriorities` | lightrag/kg/neo4j_impl.py:543-547 | One candidate per reachable node, in order. Priority is 2 exactly for the start node and 1 exactly for the other nodes adjacent to it in either direction. Any other node gets 0. |
| `Selection.Insert` | lightrag/kg/neo4j_impl.py:548 | Inserting a row into a ranked order keeps it ranked and adds exactly that row. |
| `Selection.RankSort` | lightrag/kg/neo4j_impl.py:548 | Gives a permutation of the candidates, ordered by priority and then degree, both descending. |
| `Selection.Keep` | lightrag/kg/neo4j_impl.py:549 | `LIMIT`: keeps a prefix of at most `max_nodes` rows, which is all rows when there are fewer. |
| `Selection.FilterRels` | lightrag/kg/neo4j_impl.py:552 | A relationship is kept iff it is in the input and both its endpoints are kept nodes. |
| `Selection.FirstSeed` | lightrag/kg/neo4j_impl.py:529-530 | The start node has a label containing the needle. There is none iff no node's label contains it. |
| `Selection.KeptOutranksDropped` | lightrag/kg/neo4j_impl.py:548-549 | In any ranked order, every kept row outranks every dropped row: priority first, then degree. |
| `Selection.StartNodeKeptFirst` | lightrag/kg/neo4j_impl.py:543-549 | If the start node is reachable and `max_nodes >= 1`, it is the first node kept, whichever way the store breaks ties. |
| `Selection.CountTierPermutation` | lightrag/kg/neo4j_impl.py:548 | Reordering does not change how many rows reach a given priority. |
| `Selection.TierKept` | lightrag/kg/neo4j_impl.py:543-549 | If at most `max_nodes` rows have priority `p` or higher, all of them are kept. |
| `Selection.WildcardKeepsHighestDegree` | lightrag/kg/neo4j_impl.py:500-504 | The wildcard branch keeps `max_nodes` nodes of highest degree: no dropped node has a higher degree than a kept one. |
| `Selection.LabelRecord` | lightrag/kg/neo4j_impl.py:528-552 | The record of the labelled main query: rank, keep the first `max_nodes`, filter the reachable relationships. Its properties are `LabelRecordClosed`, `StartNodeKeptFirst` and `TierKept`. |
| `Selection.WildcardRecord` | lightrag/kg/neo4j_impl.py:499-508 | The record of the wildcard query: the `max_nodes` nodes of highest degree and the relationships among them. Its properties are `WildcardRecordClosed` and `WildcardKeepsHighestDegree`. |
| `Selection.LabelRecordClosed` | lightrag/kg/neo4j_impl.py:528-552 | The labelled record has at most `max_nodes` reachable nodes. Its relationships are exactly the reachable ones with both endpoints among those nodes. |
| `Selection.WildcardRecordClosed` | lightrag/kg/neo4j_impl.py:499-508 | The wildcard record has at most `max_nodes` store nodes. Its relationships are exactly the store's relationships with both endpoints among them. |
| `Fallback.Visit` | lightrag/kg/neo4j_impl.py:610-629 | The walk only adds to its lists and sets. Past `max_depth` it changes nothing. |
| `Fallback.VisitRows` | lightrag/kg/neo4j_impl.py:638-665 | The row loop only adds to the lists and visited sets. |
| `Fallback.NodeData` | lightrag/kg/neo4j_impl.py:625-628 | The appended node. Its meaning is stated by `NodeDataFields`. |
| `Fallback.NodeDataFields` | lightrag/kg/neo4j_impl.py:625-628 | The node keeps every looked-up property except `labels`, which becomes the one-element list of the label it was reached by. |
| `Fallback.EdgeData` | lightrag/kg/neo4j_impl.py:645-653 | The recorded edge. Its meaning is stated by `EdgeDataFields`. |
| `Fallback.EdgeDataFields` | lightrag/kg/neo4j_impl.py:645-653 | The edge keeps the relationship's own properties and sets `source`, `target`, `type` and `direction`, overwriting a property of the same name. |
| `Fallback.NextLabel` | lightrag/kg/neo4j_impl.py:658-662 | The next hop of a row. Its meaning for the undirected match is stated by `NextHopIsEndNode`. |
| `Fallback.FreshKeyShrinks` | lightrag/kg/neo4j_impl.py:643-655 | Marking a fresh edge key shrinks the set of keys still unvisited. This is why the recursion terminates. |
| `Fallback.AddNodeKeepsInv` | lightrag/kg/neo4j_impl.py:619-628 | Appending the node for a fresh label keeps the walk's invariant. |
| `Fallback.AddEdgeKeepsInv` | lightrag/kg/neo4j_impl.py:643-655 | Recording the edge of a fresh, labelled row keeps the walk's invariant. |
| `Fallback.VisitKeepsInv` | lightrag/kg/neo4j_impl.py:610-665 | Invariant of the walk: no label is appended twice and no edge key is recorded twice. Every node has non-empty looked-up properties with `labels == [label]`. Every edge comes from a labelled row of the store. |
| `Fallback.VisitRowsKeepsInv` | lightrag/kg/neo4j_impl.py:638-665 | The row loop keeps the same invariant. |
| `Fallback.VisitAddsCurrent` | lightrag/kg/neo4j_impl.py:610-628 | Within the depth bound, a label with a non-empty lookup ends up visited. If it was new, its node is the next one appended. |
| `Fallback.NextHopIsEndNode` | lightrag/kg/neo4j_impl.py:631-636 | The undirected match gives both rows of a relationship one key. Both rows send the walk to the relationship's end node. |
| `Fallback.EndNodeNeverWalksBack` | lightrag/kg/neo4j_impl.py:631-663 | On the store `A -> B`, whose rows come from `UndirectedRows`, the walk from the end node `B` records the relationship but never reaches `A`. This holds for every relationship and every `max_depth >= 0`; a negative bound records nothing at all. |
| `Fallback.DanglingEdgeAtDepthBound` | lightrag/kg/neo4j_impl.py:643-663 | At the depth bound an edge is recorded while its target node is not appended: `A -> B` with `max_depth = 0`. |
| `Fallback.FallbackWellFormed` | lightrag/kg/neo4j_impl.py:602-666 | What `_robust_fallback` returns has pairwise distinct node labels, and every node is the lookup's properties with `labels == [label]`. |
| `Fallback.Traversal.constructor` | lightrag/kg/neo4j_impl.py:606-608 | Starts with empty lists and empty visited sets. |
| `Fallback.Traversal.Traverse` | lightrag/kg/neo4j_impl.py:610-665 | Updating the fields in place gives exactly the state `Visit` computes, or the `IndexError` it predicts. |
| `Fallback.Traversal.WalkRows` | lightrag/kg/neo4j_impl.py:638-665 | The row loop, updating the fields in place, gives exactly the state `VisitRows` computes from the first row, or the `IndexError` it predicts. |
| `Fallback.RobustFallback` | lightrag/kg/neo4j_impl.py:602-666 | Returns exactly the fallback result, with distinct node labels and well-formed nodes. |
| `Fallback.FallbackResult` | lightrag/kg/neo4j_impl.py:602-666 | What `_robust_fallback` returns, or its `IndexError`. Its properties are `FallbackWellFormed`, `DanglingEdgeAtDepthBound` and `EndNodeNeverWalksBack`, and `Traversal.Traverse` is proved equal to it. |
| `Seen.KeepFirst` | lightrag/kg/neo4j_impl.py:562-590 | A `seen`-guarded loop (`seen_nodes` over the nodes, `seen_edges` over the relationships) gives the converted input de-duplicated by key, in first-occurrence order. |
| `KnowledgeGraphs.Materialise` | lightrag/kg/neo4j_impl.py:560-590 | The graph built from a record is the two de-duplicated sequences. |
| `KnowledgeGraphs.MaterialisedNodeIds` | lightrag/kg/neo4j_impl.py:562-573 | Node ids are pairwise distinct and are exactly the ids of the record's nodes. |
| `KnowledgeGraphs.MaterialisedNodeOrder` | lightrag/kg/neo4j_impl.py:562-573 | Each node is the first record node with its id. Nodes follow the order of those first occurrences. |
| `KnowledgeGraphs.MaterialisedEdgeIds` | lightrag/kg/neo4j_impl.py:576-590 | Edge ids are pairwise distinct, and every relationship id of the record appears. |
| `KnowledgeGraphs.MaterialisedEdgesFromRecord` | lightrag/kg/neo4j_impl.py:576-590 | Each edge is a relationship of the record, with source and target its start and end node ids. Nothing is invented. |
| `KnowledgeGraphs.RecordGraphWellFormed` | lightrag/kg/neo4j_impl.py:560-590 | A record within the cap whose relationships join its own nodes gives a graph within the cap. That graph has distinct node and edge ids, and every edge joins two of its nodes. |
| `KnowledgeGraphs.FromRecordWellFormed` | lightrag/kg/neo4j_impl.py:558-560 | No record gives the empty graph, which is well formed. A closed record gives a well-formed graph. |
| `KnowledgeGraphs.GraphWellFormed` | lightrag/kg/neo4j_impl.py:489-590 | Any `KnowledgeGraph` returned has at most `max_nodes` nodes and distinct node and edge ids. No edge has an endpoint outside the graph. |
| `KnowledgeGraphs.KnowledgeGraphOf` | lightrag/kg/neo4j_impl.py:472-600 | The whole operation as a function of the store's answers. Its properties are `GraphWellFormed`, `NoMatchGivesEmptyGraph`, `ClientErrorFallsBack`, `TrailingBackslashFallsBack` and `StartNodeFirst`. |
| `KnowledgeGraphs.StoreNeedle` | lightrag/kg/neo4j_impl.py:491 | The text the store matches on for a label embedded with the quote-only escaping, or none when the literal does not read back. Its meaning is stated by `PlainLabelNeedle`, `TrailingBackslashUnreadable`, `NewlineEscapeReadsNewline` and `EscapeQuotesClosesLiteralEarly`. |
| `KnowledgeGraphs.LabelledBranch` | lightrag/kg/neo4j_impl.py:514-556 | The labelled branch once the store has read the needle: validation, then the main query. Its properties are `LabelledBranchWellFormed`, `NoMatchGivesEmptyGraph`, `ClientErrorFallsBack` and `StartNodeFirst`. |
| `KnowledgeGraphs.LabelledBranchWellFormed` | lightrag/kg/neo4j_impl.py:514-590 | Whatever needle the store reads, the labelled branch's graph is within the cap, has distinct ids and only edges between its nodes. |
| `KnowledgeGraphs.NoMatchGivesEmptyGraph` | lightrag/kg/neo4j_impl.py:514-525 | For a label other than `*` whose needle, as the store reads it, no node label contains, the result is the empty graph. |
| `KnowledgeGraphs.ClientErrorFallsBack` | lightrag/kg/neo4j_impl.py:596-598 | Three cases return what the fallback walk returns for the stripped label. The embedded label does not read back as one literal, so the store raises a syntax error. The validation query raises a `ClientError`. Or some node matches the needle and the main query raises one. |
| `KnowledgeGraphs.TrailingBackslashFallsBack` | lightrag/kg/neo4j_impl.py:489-518 | The label `a\` never reaches the main query: the validation text does not parse and the fallback walk runs, whatever the store holds. |
| `KnowledgeGraphs.StartNodeFirst` | lightrag/kg/neo4j_impl.py:528-573 | If exactly one node of the store has a label containing the needle, that node is reachable and `max_nodes >= 1`, then it is the first node of the graph. |
| `KnowledgeGraphs.OnErrorOf` | lightrag/kg/neo4j_impl.py:596-598 | A `ClientError` runs the fallback; any other error escapes. |
| `KnowledgeGraphs.GetKnowledgeGraph` | lightrag/kg/neo4j_impl.py:472-600 | The operation, step by step, returns exactly what `KnowledgeGraphOf` specifies. |
| `EdgeQueries.WithDefaults` | lightrag/kg/neo4j_impl.py:301-307 | The properties with every missing required key filled in. Its properties are `DefaultsPresent`, `DefaultEdgeIsFilledEmpty` and `WithDefaultsIdempotent`. |
| `EdgeQueries.DefaultEdge` | lightrag/kg/neo4j_impl.py:319-347 | The default dict of the error and not-found paths. Its meaning is stated by `DefaultEdgeIsFilledEmpty`. |
| `EdgeQueries.EdgeOf` | lightrag/kg/neo4j_impl.py:274-347 | The edge `get_edge` returns for each store answer. Its properties are `EdgeOfHasRequired`, and `GetEdge` is proved equal to it. |
| `EdgeQueries.FillDefaults` | lightrag/kg/neo4j_impl.py:301-307 | The loop over `required_keys` produces the properties with every missing required key set to its default. |
| `EdgeQueries.EdgeOfHasRequired` | lightrag/kg/neo4j_impl.py:274-347 | On every path (edge found, no edge, processing error, query error) the edge has the four required keys. |
| `EdgeQueries.GetEdge` | lightrag/kg/neo4j_impl.py:274-347 | Returns the filled properties when an edge is found and the default dict otherwise. The result always has all four required keys. |
| `EdgeQueries.DefaultsPresent` | lightrag/kg/neo4j_impl.py:294-307 | The filled dict holds all four required keys. Present keys keep their values, missing ones get the defaults, and nothing else is added. |
| `EdgeQueries.DefaultEdgeIsFilledEmpty` | lightrag/kg/neo4j_impl.py:319-347 | The default dict of the error and not-found paths is exactly what filling an empty dict gives. |
| `EdgeQueries.WithDefaultsIdempotent` | lightrag/kg/neo4j_impl.py:301-307 | Filling twice is the same as filling once. |
| `EdgeQueries.NodeDegreeOfStripped` | lightrag/kg/neo4j_impl.py:239-240 | The second strip inside `node_degree` changes nothing. |
| `EdgeQueries.EdgeDegree` | lightrag/kg/neo4j_impl.py:258-268 | The sum of the two node degrees. Its properties are `EdgeDegreeSum`, `EdgeDegreeCases` and `EdgeDegreeStripped`. |
| `EdgeQueries.EdgeDegreeSum` | lightrag/kg/neo4j_impl.py:258-268 | The degree is the sum of the two node degrees, with `None` counted as 0. |
| `EdgeQueries.EdgeDegreeCases` | lightrag/kg/neo4j_impl.py:258-268 | The degree does not depend on the order of the endpoints. A missing endpoint adds nothing, and two present endpoints add their relationship counts. |
| `EdgeQueries.EdgeDegreeStripped` | lightrag/kg/neo4j_impl.py:259-260 | Quotes around the ids do not change the degree. |
| `EdgeQueries.LabelPairs` | lightrag/kg/neo4j_impl.py:361-376 | The pairs the record loop keeps, in record order. Its properties are `LabelPairsExact`. |
| `EdgeQueries.NodeEdges` | lightrag/kg/neo4j_impl.py:361-376 | The record loop keeps exactly the pairs the filter specifies, in record order. A connected node without properties is falsy and gives no pair. |
| `EdgeQueries.GetNodeEdges` | lightrag/kg/neo4j_impl.py:349-378 | Returns the pairs of the records for the stripped label; an unknown label gives none. |
| `EdgeQueries.LabelPairsExact` | lightrag/kg/neo4j_impl.py:366-376 | Each kept pair is the two non-empty first labels of some record whose connected node is truthy. Every such record contributes its pair. There is at most one pair per record. |

## Left out

- Driver construction, connection and database creation, sessions, configuration and environment reading (lines 44-147). These are I/O; the timeouts there are floats.
- The `tenacity` retry decorators: retry timing from a foreign library.
- `upsert_node`, `upsert_edge`, `delete_node`, `remove_nodes`, `remove_edges`, `delete_all`: single Cypher statements with no Python-side logic.
- `has_node`, `has_edge`, `node_degree`, `get_node`, `_label_exists`, `get_all_labels`: point queries. `get_node` appears only as the fallback's lookup input, `node_degree` only as the degree answer `edge_degree` reads.
- Cypher execution and `apoc.path.subgraphAll`: their results are inputs. Only the first record of the labelled query is modelled (`result_set.single()`). Its start node is the first matching node in store order. Several matching start nodes, and the grouping of rows they cause, are not modelled.
- `Selection.WildcardRecord`: when no relationship joins the selected nodes, the wildcard query is taken to return no record, so the graph is empty. This depends on Cypher aggregation semantics and no property is stated about it.
- `Selection.Degree`: counts each incident relationship once. How Cypher counts a self-loop in `(n)-[r]-()` is not modelled.
- `Selection.RankSort`: Cypher leaves ties in `ORDER BY` unordered. The model picks one ranked order, and the selection properties are proved for every ranked permutation.
- Ids are kept as integers. The decimal strings `f"{id}"` and the edge key string `f"{id}_{type}"` are represented by the id and by the pair (id, type).
- `Labels.ReadLiteral`: reads the one-character escapes `\\`, `\'`, `\"`, `\t`, `\b`, `\n`, `\r` and `\f`. The `\u`/`\U` escapes and any other escape are treated as unreadable, which the model reports as a `ClientError`.
- `KnowledgeGraphs.KnowledgeGraphOf`: when the embedded label does not read back as exactly one literal, the store is taken to reject the query with a `ClientError`. A label whose injected suffix happens to parse as Cypher would run some other query; what that query returns is not modelled.
- `EdgeQueries.NodeEdges`: the truthiness of `connected_node` is the driver's node being a mapping of its properties (falsy when it has none). That behaviour comes from the driver, which is not part of this model.
- `Fallback.GetNode`: the lookup is indexed by the label exactly as `traverse` passes it. The quote stripping inside `get_node` is part of that input.
- Store errors inside the fallback's own queries are not modelled. The fallback's `IndexError` for a row endpoint without labels is modelled (`Fallback.FallbackOutcome.IndexError`).
- The fallback's lookups and the main queries' snapshot are independent inputs. Nothing ties them to each other.
- `MAX_GRAPH_NODES` (line 38) is a parameter `maxNodes: nat`. A negative environment value, which Cypher rejects in `LIMIT`, is not modelled.
- Python dict key order of the returned property maps is not modelled; property maps are Dafny maps.
- Logging, `embed_nodes` / `_node2vec_embed`, `query_all`, and async scheduling: every await is sequential and is modelled as an ordinary call.

## Findings

| source | as written | input that shows it | evidently intended | confidence | as-written member | corrected member |
|---|---|---|---|---|---|---|
| lightrag/kg/neo4j_impl.py:491 | Only single quotes are escaped (`'` becomes `\'`) before the label is embedded in `'...'` in the Cypher text. A backslash already in the label is left as it is. | The node label `\'`: the embedded text is `\\'`, Cypher reads `\\` as one backslash, and the quote after it closes the literal, so the rest of the label becomes query text. | Escape backslashes as well as quotes, so the literal always ends where the label ends (the comment asks to prevent injection). | medium, not executed | `Labels.EscapeQuotesClosesLiteralEarly` | `Labels.LiteralRoundTrip` |
