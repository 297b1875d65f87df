/** The selection rule that `get_knowledge_graph` hands to the store as
    Cypher text (lightrag/kg/neo4j_impl.py, the two main queries): rank the
    candidate nodes, keep the first `max_nodes`, and keep the relationships
    whose two endpoints survived. Cypher does not say how ties in
    `ORDER BY` are broken, so every property below is stated for ANY order
    that is a ranked permutation of the candidates; `RankSort` is one such
    order, the one the model uses. */
module Selection {
  import opened Types
  import opened Labels

  /** A node as the store holds it. */
  datatype StoreNode = StoreNode(id: int, labels: seq<string>, props: Props)

  /** A relationship as the store holds it, with the ids of its start and
      end nodes. */
  datatype StoreRel = StoreRel(id: int, relType: string, startId: int, endId: int, props: Props)

  /** What `apoc.path.subgraphAll` yields for the start node: the nodes and
      relationships reachable along outgoing relationships within
      `max_depth` hops. It is an input of the model. */
  datatype Reach = Reach(nodes: seq<StoreNode>, rels: seq<StoreRel>)

  /** The one record (`result_set.single()`) a main query returns. */
  datatype Record = Record(nodes: seq<StoreNode>, rels: seq<StoreRel>)

  /** A row of the ranking step: a node with its degree and priority. */
  datatype Candidate = Candidate(node: StoreNode, degree: nat, priority: nat)

  // ---------------------------------------------------------------------------
  // Degree and priority
  // ---------------------------------------------------------------------------

  /** `OPTIONAL MATCH (node)-[r]-() ... count(r)`: the relationships of the
      store that touch the node, either way round. */
  function Degree(rels: seq<StoreRel>, id: int): (d: nat)
    ensures d <= |rels|
  {
    if rels == [] then 0
    else (if rels[0].startId == id || rels[0].endId == id then 1 else 0) + Degree(rels[1..], id)
  }

  /** `EXISTS((start)-->(node)) OR EXISTS((node)-->(start))`. */
  predicate Adjacent(rels: seq<StoreRel>, a: int, b: int)
  {
    exists r :: r in rels && ((r.startId == a && r.endId == b) || (r.startId == b && r.endId == a))
  }

  /** The `CASE` of the main query: 2 for the start node, 1 for a node joined
      to it by a relationship in either direction, 0 otherwise. */
  function Priority(rels: seq<StoreRel>, startId: int, nodeId: int): nat
  {
    if nodeId == startId then 2 else if Adjacent(rels, startId, nodeId) then 1 else 0
  }

  /** The rows `UNWIND nodes AS node` produces for the reachable nodes. */
  function Candidates(nodes: seq<StoreNode>, rels: seq<StoreRel>, startId: int): seq<Candidate>
  {
    seq(|nodes|, i requires 0 <= i < |nodes| => Candidate(nodes[i], Degree(rels, nodes[i].id), Priority(rels, startId, nodes[i].id)))
  }

  /** The rows of the wildcard query: every node with its degree. Ordering
      by `degree DESC` alone is ordering by (0, degree), so these rows carry
      priority 0. */
  function DegreeCandidates(nodes: seq<StoreNode>, rels: seq<StoreRel>): seq<Candidate>
  {
    seq(|nodes|, i requires 0 <= i < |nodes| => Candidate(nodes[i], Degree(rels, nodes[i].id), 0))
  }

  /** There is one candidate per reachable node, in order. Its priority is
      2 exactly for the start node, 1 exactly for the other nodes joined to
      the start node in either direction, and 0 for every other node. */
  lemma CandidatePriorities(nodes: seq<StoreNode>, rels: seq<StoreRel>, startId: int)
    ensures |Candidates(nodes, rels, startId)| == |nodes|
    ensures forall i :: 0 <= i < |nodes| ==> Candidates(nodes, rels, startId)[i].node == nodes[i]
    ensures forall c :: c in Candidates(nodes, rels, startId) ==>
              && c.priority <= 2
              && (c.priority == 2 <==> c.node.id == startId)
              && (c.priority == 1 <==> c.node.id != startId && Adjacent(rels, startId, c.node.id))
              && (c.priority == 0 <==> c.node.id != startId && !Adjacent(rels, startId, c.node.id))
              && c.degree == Degree(rels, c.node.id)
  {
  }

  // ---------------------------------------------------------------------------
  // ORDER BY priority DESC, degree DESC
  // ---------------------------------------------------------------------------

  /** `a` may come before `b` under `ORDER BY priority DESC, degree DESC`. */
  predicate AtLeast(a: Candidate, b: Candidate)
  {
    a.priority > b.priority || (a.priority == b.priority && a.degree >= b.degree)
  }

  /** `s` is in an order consistent with the sort. */
  predicate Ranked(s: seq<Candidate>)
  {
    forall i, j :: 0 <= i < j < |s| ==> AtLeast(s[i], s[j])
  }

  lemma HeadOutranks(s: seq<Candidate>)
    requires Ranked(s) && s != []
    ensures forall y :: y in s ==> AtLeast(s[0], y)
  {
    forall y | y in s ensures AtLeast(s[0], y) {
      var k :| 0 <= k < |s| && s[k] == y;
    }
  }

  /** A row that outranks every row of a ranked order may go in front. */
  lemma ConsRanked(h: Candidate, rest: seq<Candidate>)
    requires Ranked(rest)
    requires forall y :: y in rest ==> AtLeast(h, y)
    ensures Ranked([h] + rest)
  {
    forall i, j | 0 <= i < j < |[h] + rest| ensures AtLeast(([h] + rest)[i], ([h] + rest)[j]) {
      assert ([h] + rest)[j] == rest[j - 1];
      assert rest[j - 1] in rest;
      if i > 0 { assert ([h] + rest)[i] == rest[i - 1]; }
    }
  }

  function Insert(c: Candidate, s: seq<Candidate>): (r: seq<Candidate>)
    requires Ranked(s)
    ensures Ranked(r)
    ensures multiset(r) == multiset(s) + multiset{c}
  {
    if s == [] || AtLeast(c, s[0]) then
      assert Ranked([c] + s) by {
        if s != [] { HeadOutranks(s); }
        ConsRanked(c, s);
      }
      [c] + s
    else
      var rest := Insert(c, s[1..]);
      assert Ranked([s[0]] + rest) by {
        HeadOutranks(s);
        forall y | y in rest ensures AtLeast(s[0], y) {
          assert y in multiset(rest);
          if y != c {
            assert y in multiset(s[1..]);
            assert y in s;
          }
        }
        ConsRanked(s[0], rest);
      }
      assert s == [s[0]] + s[1..];
      [s[0]] + rest
  }

  /** One order consistent with the sort: insertion sort. */
  function RankSort(s: seq<Candidate>): (r: seq<Candidate>)
    ensures Ranked(r)
    ensures multiset(r) == multiset(s)
  {
    if s == [] then []
    else
      assert s == [s[0]] + s[1..];
      Insert(s[0], RankSort(s[1..]))
  }

  // ---------------------------------------------------------------------------
  // LIMIT $max_nodes and the relationship filter
  // ---------------------------------------------------------------------------

  /** `LIMIT limit`: the first `limit` rows, or all of them. */
  function Keep(ordered: seq<Candidate>, limit: nat): (kept: seq<Candidate>)
    ensures |kept| <= limit
    ensures |kept| == |ordered| || |kept| == limit
    ensures |kept| <= |ordered| && kept == ordered[..|kept|]
  {
    if |ordered| <= limit then ordered else ordered[..limit]
  }

  function NodesOf(kept: seq<Candidate>): seq<StoreNode>
  {
    seq(|kept|, i requires 0 <= i < |kept| => kept[i].node)
  }

  function NodeIds(nodes: seq<StoreNode>): set<int>
  {
    set n | n in nodes :: n.id
  }

  /** `[rel IN relationships WHERE startNode(rel) IN kept AND endNode(rel)
      IN kept]`, keeping the relationships' order. */
  function FilterRels(rels: seq<StoreRel>, ids: set<int>): (r: seq<StoreRel>)
    ensures |r| <= |rels|
    ensures forall x :: x in r <==> x in rels && x.startId in ids && x.endId in ids
  {
    if rels == [] then []
    else
      var rest := FilterRels(rels[1..], ids);
      assert forall x :: x in rels <==> x == rels[0] || x in rels[1..];
      (if rels[0].startId in ids && rels[0].endId in ids then [rels[0]] else []) + rest
  }

  /** The record of the labelled query for the start node: `UNWIND` over
      an empty list, or `LIMIT 0`, yields no row and so no record. */
  function LabelRecord(rels: seq<StoreRel>, reach: Reach, startId: int, maxNodes: nat): Option<Record>
  {
    var kept := NodesOf(Keep(RankSort(Candidates(reach.nodes, rels, startId)), maxNodes));
    if kept == [] then None else Some(Record(kept, FilterRels(reach.rels, NodeIds(kept))))
  }

  /** The record of the wildcard query: the `max_nodes` nodes of highest
      degree and `collect(DISTINCT r)` over the relationships among them.
      When `MATCH (a)-[r]->(b)` finds no row the query returns no record. */
  function WildcardRecord(nodes: seq<StoreNode>, rels: seq<StoreRel>, maxNodes: nat): Option<Record>
  {
    var kept := NodesOf(Keep(RankSort(DegreeCandidates(nodes, rels)), maxNodes));
    var joined := FilterRels(rels, NodeIds(kept));
    if joined == [] then None else Some(Record(kept, joined))
  }

  /** The first node, in the store's scan order, with a label containing
      `needle`: the start node of the labelled query. */
  function FirstSeed(nodes: seq<StoreNode>, needle: string): (r: Option<StoreNode>)
    ensures r.Some? ==> r.value in nodes && AnyLabelContains(r.value.labels, needle)
    ensures r.None? <==> forall n :: n in nodes ==> !AnyLabelContains(n.labels, needle)
  {
    if nodes == [] then None
    else if AnyLabelContains(nodes[0].labels, needle) then Some(nodes[0])
    else
      assert forall n :: n in nodes <==> n == nodes[0] || n in nodes[1..];
      FirstSeed(nodes[1..], needle)
  }

  // ---------------------------------------------------------------------------
  // Properties of the selection rule
  // ---------------------------------------------------------------------------

  /** Every kept row ranks at least as high as every dropped row: priority
      first, then degree. */
  lemma KeptOutranksDropped(ordered: seq<Candidate>, limit: nat)
    requires Ranked(ordered)
    ensures var kept := Keep(ordered, limit);
            forall i, j :: 0 <= i < |kept| <= j < |ordered| ==>
              ordered[i].priority >= ordered[j].priority
              && (ordered[i].priority == ordered[j].priority ==> ordered[i].degree >= ordered[j].degree)
  {
  }

  /** When the start node is among the reachable nodes and at least one node
      may be kept, the start node is the first node kept, whatever order the
      store picks among equal rows. */
  lemma StartNodeKeptFirst(nodes: seq<StoreNode>, rels: seq<StoreRel>, start: StoreNode,
                           ordered: seq<Candidate>, limit: nat)
    requires start in nodes && limit >= 1
    requires Ranked(ordered) && multiset(ordered) == multiset(Candidates(nodes, rels, start.id))
    ensures |Keep(ordered, limit)| >= 1 && Keep(ordered, limit)[0].node.id == start.id
  {
    var cands := Candidates(nodes, rels, start.id);
    CandidatePriorities(nodes, rels, start.id);
    var k :| 0 <= k < |nodes| && nodes[k] == start;
    assert cands[k].priority == 2 && cands[k] in multiset(cands);
    assert cands[k] in ordered;
    HeadOutranks(ordered);
    assert ordered[0] in multiset(cands);
  }

  /** Number of rows whose priority is at least `p`. */
  function CountTier(s: seq<Candidate>, p: nat): (n: nat)
    ensures n <= |s|
  {
    if s == [] then 0 else (if s[0].priority >= p then 1 else 0) + CountTier(s[1..], p)
  }

  lemma {:induction false} CountTierAppend(a: seq<Candidate>, b: seq<Candidate>, p: nat)
    ensures CountTier(a + b, p) == CountTier(a, p) + CountTier(b, p)
  {
    if a == [] {
      assert a + b == b;
    } else {
      assert (a + b)[1..] == a[1..] + b;
      CountTierAppend(a[1..], b, p);
    }
  }

  /** Taking out the row at `k` lowers the count by that row's share. */
  lemma CountTierRemove(t: seq<Candidate>, k: int, p: nat)
    requires 0 <= k < |t|
    ensures CountTier(t, p) == (if t[k].priority >= p then 1 else 0) + CountTier(t[..k] + t[k + 1..], p)
    ensures multiset(t[..k] + t[k + 1..]) == multiset(t) - multiset{t[k]}
  {
    assert t == t[..k] + [t[k]] + t[k + 1..];
    CountTierAppend(t[..k] + [t[k]], t[k + 1..], p);
    CountTierAppend(t[..k], [t[k]], p);
    CountTierAppend(t[..k], t[k + 1..], p);
  }

  /** The tier count does not depend on the order of the rows. */
  lemma {:induction false} CountTierPermutation(s: seq<Candidate>, t: seq<Candidate>, p: nat)
    requires multiset(s) == multiset(t)
    ensures CountTier(s, p) == CountTier(t, p)
  {
    if s == [] {
      assert |t| == |multiset(t)| == 0;
    } else {
      var x := s[0];
      assert x in multiset(t);
      var k :| 0 <= k < |t| && t[k] == x;
      CountTierRemove(t, k, p);
      assert s == [x] + s[1..];
      assert multiset(s[1..]) == multiset(s) - multiset{x};
      CountTierPermutation(s[1..], t[..k] + t[k + 1..], p);
    }
  }

  lemma {:induction false} CountTierPrefix(s: seq<Candidate>, p: nat, i: nat)
    requires i < |s| && forall j :: 0 <= j <= i ==> s[j].priority >= p
    ensures CountTier(s, p) >= i + 1
  {
    if i > 0 {
      CountTierPrefix(s[1..], p, i - 1);
    }
  }

  /** If at most `limit` candidates have priority at least `p`, every one of
      them is kept: in particular every node adjacent to the start node
      survives when the start node and its neighbours fit under the cap. */
  lemma TierKept(cands: seq<Candidate>, ordered: seq<Candidate>, limit: nat, p: nat)
    requires Ranked(ordered) && multiset(ordered) == multiset(cands)
    requires CountTier(cands, p) <= limit
    ensures forall i :: 0 <= i < |ordered| && ordered[i].priority >= p ==> ordered[i] in Keep(ordered, limit)
  {
    CountTierPermutation(ordered, cands, p);
    forall i | 0 <= i < |ordered| && ordered[i].priority >= p
      ensures ordered[i] in Keep(ordered, limit)
    {
      CountTierPrefix(ordered, p, i);
      assert ordered[i] == Keep(ordered, limit)[i];
    }
  }

  /** The wildcard query keeps nodes of highest degree: no dropped node has
      a larger degree than a kept one. */
  lemma WildcardKeepsHighestDegree(nodes: seq<StoreNode>, rels: seq<StoreRel>, ordered: seq<Candidate>, limit: nat)
    requires Ranked(ordered) && multiset(ordered) == multiset(DegreeCandidates(nodes, rels))
    ensures var kept := Keep(ordered, limit);
            forall i, j :: 0 <= i < |kept| <= j < |ordered| ==> ordered[i].degree >= ordered[j].degree
  {
    forall i | 0 <= i < |ordered| ensures ordered[i].priority == 0 {
      assert ordered[i] in multiset(DegreeCandidates(nodes, rels));
    }
  }

  /** The labelled query's record holds at most `max_nodes` nodes, all of
      them reachable, and only reachable relationships whose two endpoints
      are among those nodes. */
  lemma LabelRecordClosed(rels: seq<StoreRel>, reach: Reach, startId: int, maxNodes: nat)
    ensures match LabelRecord(rels, reach, startId, maxNodes)
            case None => true
            case Some(rec) =>
              && |rec.nodes| <= maxNodes
              && (forall n :: n in rec.nodes ==> n in reach.nodes)
              && (forall r :: r in rec.rels <==> r in reach.rels && r.startId in NodeIds(rec.nodes) && r.endId in NodeIds(rec.nodes))
  {
    var sorted := RankSort(Candidates(reach.nodes, rels, startId));
    var kept := Keep(sorted, maxNodes);
    forall n | n in NodesOf(kept) ensures n in reach.nodes {
      var k :| 0 <= k < |kept| && NodesOf(kept)[k] == n;
      assert kept[k] in multiset(Candidates(reach.nodes, rels, startId));
    }
  }

  /** The wildcard query's record holds at most `max_nodes` nodes, and
      exactly the relationships of the store with both endpoints among them. */
  lemma WildcardRecordClosed(nodes: seq<StoreNode>, rels: seq<StoreRel>, maxNodes: nat)
    ensures match WildcardRecord(nodes, rels, maxNodes)
            case None => true
            case Some(rec) =>
              && |rec.nodes| <= maxNodes
              && (forall n :: n in rec.nodes ==> n in nodes)
              && (forall r :: r in rec.rels <==> r in rels && r.startId in NodeIds(rec.nodes) && r.endId in NodeIds(rec.nodes))
  {
    var sorted := RankSort(DegreeCandidates(nodes, rels));
    var kept := Keep(sorted, maxNodes);
    forall n | n in NodesOf(kept) ensures n in nodes {
      var k :| 0 <= k < |kept| && NodesOf(kept)[k] == n;
      assert kept[k] in multiset(DegreeCandidates(nodes, rels));
    }
  }
}
