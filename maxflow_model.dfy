/** Values and pure functions of the max-flow editor: nodes with stable ids,
    directed capacitated edges whose ids and request keys are built from
    their end points, the list updates the editor performs by replacing its
    arrays, and the request it sends and the flows it merges back. */
module MaxFlowModel {
  import opened Common
  import opened Text

  /** A node; `nodeLabel` (the source's `label`) is the decimal form of its id. */
  datatype FlowNode = FlowNode(id: int, x: real, y: real, nodeLabel: string)

  /** A directed edge `from -> to`; `flow` is absent until a result arrives. */
  datatype FlowEdge = FlowEdge(id: string, from: int, to: int, capacity: int, flow: Option<real>)

  /** The six editing modes. Choosing a source or a sink lasts one click. */
  datatype EditMode = AddNodeMode | AddEdgeMode | SelectSourceMode | SelectSinkMode | MoveNodeMode | DeleteMode

  /** The messages the editor can show. */
  datatype FlowError =
    | MissingTerminals            // no source or no sink chosen
    | TooFewNodes                 // fewer than two nodes
    | NoEdges                     // no edge at all
    | ServiceFailed(detail: Option<string>)  // the request failed; `None`: not an `Error` object

  /** The body of the request: the edge list as pairs, the capacity of each
      pair under the key `"from,to"`, and the two terminals. */
  datatype Request = Request(graph: seq<(int, int)>, capacities: map<string, int>, source: int, sink: int)

  /** The answer: the flow value and the flow through each `"from,to"` key. */
  datatype FlowResponse = FlowResponse(maxFlow: real, flows: map<string, real>)

  /** Node radius; a click closer than twice this to a node adds nothing. */
  const NodeRadius: real := 20.0

  // ---------------------------------------------------------------- ids

  /** The largest id in a non-empty node list. */
  function MaxId(nodes: seq<FlowNode>): (m: int)
    requires nodes != []
    ensures forall k :: 0 <= k < |nodes| ==> nodes[k].id <= m
    ensures exists k :: 0 <= k < |nodes| && nodes[k].id == m
  {
    if |nodes| == 1 then nodes[0].id
    else
      var m := MaxId(nodes[..|nodes| - 1]);
      if nodes[|nodes| - 1].id > m then nodes[|nodes| - 1].id else m
  }

  /** The id for a new node: 0 for an empty list, else one past the largest
      id, so it exceeds every id in use (ids freed by deletions below the
      maximum are not reused). */
  function NextNodeId(nodes: seq<FlowNode>): (r: int)
    ensures nodes == [] ==> r == 0
    ensures forall k :: 0 <= k < |nodes| ==> nodes[k].id < r
    ensures nodes != [] ==> exists k :: 0 <= k < |nodes| && r == nodes[k].id + 1
  {
    if nodes == [] then 0 else MaxId(nodes) + 1
  }

  /** No two nodes share an id. */
  predicate DistinctIds(nodes: seq<FlowNode>) {
    forall k, l :: 0 <= k < l < |nodes| ==> nodes[k].id != nodes[l].id
  }

  /** Appending a node with the next id keeps the ids distinct. */
  lemma AppendNextKeepsDistinct(nodes: seq<FlowNode>, x: real, y: real, nodeLabel: string)
    requires DistinctIds(nodes)
    ensures DistinctIds(nodes + [FlowNode(NextNodeId(nodes), x, y, nodeLabel)])
  {
  }

  /** Ids are handed out in sequence: after appending the node that got the
      next id, the next id is one larger. */
  lemma NextNodeIdAfterAppend(nodes: seq<FlowNode>, x: real, y: real, nodeLabel: string)
    ensures NextNodeId(nodes + [FlowNode(NextNodeId(nodes), x, y, nodeLabel)]) == NextNodeId(nodes) + 1
  {
    var grown := nodes + [FlowNode(NextNodeId(nodes), x, y, nodeLabel)];
    if nodes != [] {
      assert grown[..|grown| - 1] == nodes;
    }
  }

  // ------------------------------------------------------ ids and keys

  /** An id, a separator, an id: the two parts can be told apart because a
      decimal integer has no separator after its first character. */
  lemma SplitAtSeparator(x1: string, x2: string, y1: string, y2: string, sep: char)
    requires |x1| >= 1 && |y1| >= 1
    requires forall k :: 1 <= k < |x1| ==> x1[k] != sep
    requires forall k :: 1 <= k < |y1| ==> y1[k] != sep
    requires x1 + [sep] + x2 == y1 + [sep] + y2
    ensures x1 == y1 && x2 == y2
  {
    var s := x1 + [sep] + x2;
    assert s[|x1|] == sep && forall k :: 1 <= k < |x1| ==> s[k] == x1[k];
    assert s[|y1|] == sep && forall k :: 1 <= k < |y1| ==> s[k] == y1[k];
    assert !(|x1| < |y1|) && !(|y1| < |x1|);
    assert x1 == s[..|x1|] && y1 == (y1 + [sep] + y2)[..|y1|];
    assert x2 == s[|x1| + 1..] && y2 == (y1 + [sep] + y2)[|y1| + 1..];
  }

  /** The id of the edge `from -> to`: `"from-to"`. */
  function EdgeIdOf(from: int, to: int): string {
    IntToString(from) + "-" + IntToString(to)
  }

  /** The request key of the pair `from -> to`: `"from,to"`. */
  function KeyOf(from: int, to: int): string {
    IntToString(from) + "," + IntToString(to)
  }

  /** Different ordered pairs get different edge ids. */
  lemma EdgeIdOfInjective(a: int, b: int, c: int, d: int)
    requires EdgeIdOf(a, b) == EdgeIdOf(c, d)
    ensures a == c && b == d
  {
    SplitAtSeparator(IntToString(a), IntToString(b), IntToString(c), IntToString(d), '-');
    IntToStringInjective(a, c);
    IntToStringInjective(b, d);
  }

  /** Different ordered pairs get different request keys. */
  lemma KeyOfInjective(a: int, b: int, c: int, d: int)
    requires KeyOf(a, b) == KeyOf(c, d)
    ensures a == c && b == d
  {
    SplitAtSeparator(IntToString(a), IntToString(b), IntToString(c), IntToString(d), ',');
    IntToStringInjective(a, c);
    IntToStringInjective(b, d);
  }

  function EdgeKey(e: FlowEdge): string {
    KeyOf(e.from, e.to)
  }

  // ------------------------------------------------------------- edges

  /** Some edge goes from `from` to `to` (the direction matters). */
  predicate HasDirectedEdge(edges: seq<FlowEdge>, from: int, to: int) {
    exists k | 0 <= k < |edges| :: edges[k].from == from && edges[k].to == to
  }

  /** The edge a second click in add-edge mode creates. */
  function NewEdge(from: int, to: int, capacity: int): FlowEdge {
    FlowEdge(EdgeIdOf(from, to), from, to, capacity, None)
  }

  /** The edge list after asking for `from -> to`: unchanged when that
      ordered pair already has an edge, else the new edge appended. */
  function AddDirected(edges: seq<FlowEdge>, from: int, to: int, capacity: int): (r: seq<FlowEdge>)
    ensures HasDirectedEdge(edges, from, to) ==> r == edges
    ensures !HasDirectedEdge(edges, from, to) ==>
              |r| == |edges| + 1 && r[..|edges|] == edges && r[|edges|] == NewEdge(from, to, capacity)
    ensures HasDirectedEdge(r, from, to)
  {
    if HasDirectedEdge(edges, from, to) then edges
    else
      assert (edges + [NewEdge(from, to, capacity)])[|edges|].from == from;
      edges + [NewEdge(from, to, capacity)]
  }

  /** The duplicate check looks at one direction only: when `b -> a` is
      absent, adding `a -> b` and then `b -> a` leaves both directed edges,
      and for two different nodes the second add always appends. */
  lemma AddDirectedBothWays(edges: seq<FlowEdge>, a: int, b: int, capacity: int)
    requires !HasDirectedEdge(edges, b, a)
    ensures var one := AddDirected(edges, a, b, capacity);
            var two := AddDirected(one, b, a, capacity);
            HasDirectedEdge(two, a, b) && HasDirectedEdge(two, b, a)
            && (a != b ==> |two| == |one| + 1 && two[..|one|] == one)
  {
    var one := AddDirected(edges, a, b, capacity);
    var two := AddDirected(one, b, a, capacity);
    if a != b {
      forall k | 0 <= k < |one| ensures one[k].from != b || one[k].to != a {
        if k < |edges| {
          assert one[k] == edges[k];
        }
      }
    }
    var k :| 0 <= k < |one| && one[k].from == a && one[k].to == b;
    assert two[k] == one[k];
  }

  /** The editor's edge invariant: each id is `"from-to"` of its edge, each
      capacity is at least 1, and no ordered pair has two edges. */
  predicate WellFormedEdges(edges: seq<FlowEdge>) {
    && (forall k :: 0 <= k < |edges| ==> edges[k].id == EdgeIdOf(edges[k].from, edges[k].to))
    && (forall k :: 0 <= k < |edges| ==> edges[k].capacity >= 1)
    && (forall k, l :: 0 <= k < l < |edges| ==> DifferentPairs(edges[k], edges[l]))
  }

  predicate DifferentPairs(e: FlowEdge, f: FlowEdge) {
    e.from != f.from || e.to != f.to
  }

  /** Under the invariant, ids and request keys single out one edge. */
  lemma WellFormedDistinct(edges: seq<FlowEdge>)
    requires WellFormedEdges(edges)
    ensures forall k, l :: 0 <= k < |edges| && 0 <= l < |edges| && k != l ==>
              edges[k].id != edges[l].id && EdgeKey(edges[k]) != EdgeKey(edges[l])
  {
    forall k, l | 0 <= k < |edges| && 0 <= l < |edges| && k != l
      ensures edges[k].id != edges[l].id && EdgeKey(edges[k]) != EdgeKey(edges[l])
    {
      if edges[k].id == edges[l].id {
        EdgeIdOfInjective(edges[k].from, edges[k].to, edges[l].from, edges[l].to);
        assert false;
      }
      if EdgeKey(edges[k]) == EdgeKey(edges[l]) {
        KeyOfInjective(edges[k].from, edges[k].to, edges[l].from, edges[l].to);
        assert false;
      }
    }
  }

  /** Adding through `AddDirected` with a capacity of at least 1 keeps the
      invariant. */
  lemma AddDirectedKeepsWellFormed(edges: seq<FlowEdge>, from: int, to: int, capacity: int)
    requires WellFormedEdges(edges) && capacity >= 1
    ensures WellFormedEdges(AddDirected(edges, from, to, capacity))
  {
    var r := AddDirected(edges, from, to, capacity);
    if !HasDirectedEdge(edges, from, to) {
      forall k, l | 0 <= k < l < |r| ensures DifferentPairs(r[k], r[l]) {
        assert r[k] == edges[k];
      }
    }
  }

  /** Keeps the edges whose id is not `id` (deleting an edge). */
  function IdIsNot(id: string): FlowEdge -> bool {
    (e: FlowEdge) => e.id != id
  }

  /** Keeps the edges with neither end at `nodeId` (deleting a node). */
  function AvoidsEndpoint(nodeId: int): FlowEdge -> bool {
    (e: FlowEdge) => e.from != nodeId && e.to != nodeId
  }

  /** Keeps the nodes whose id is not `nodeId`. */
  function NodeIdIsNot(nodeId: int): FlowNode -> bool {
    (n: FlowNode) => n.id != nodeId
  }

  /** Filtering keeps the node ids distinct. */
  lemma FilterKeepsDistinctIds(nodes: seq<FlowNode>, p: FlowNode -> bool)
    requires DistinctIds(nodes)
    ensures DistinctIds(Filter(nodes, p))
  {
    var ok := (a: FlowNode, b: FlowNode) => a.id != b.id;
    assert Pairwise(nodes, ok);
    FilterKeepsPairwise(nodes, p, ok);
  }

  /** Filtering keeps the edge invariant. */
  lemma FilterKeepsWellFormed(edges: seq<FlowEdge>, p: FlowEdge -> bool)
    requires WellFormedEdges(edges)
    ensures WellFormedEdges(Filter(edges, p))
  {
    var r := Filter(edges, p);
    assert Pairwise(edges, DifferentPairs);
    FilterKeepsPairwise(edges, p, DifferentPairs);
    FilterMembers(edges, p);
    forall k | 0 <= k < |r| ensures r[k].id == EdgeIdOf(r[k].from, r[k].to) && r[k].capacity >= 1 {
      assert r[k] in edges;
    }
  }

  /** Under the invariant, deleting by the id of edge `k` removes exactly
      that edge and keeps the others in order. */
  lemma DeleteByIdRemovesOne(edges: seq<FlowEdge>, k: nat)
    requires WellFormedEdges(edges) && k < |edges|
    ensures Filter(edges, IdIsNot(edges[k].id)) == RemoveAt(edges, k)
  {
    forall j | 0 <= j < |edges| && j != k ensures IdIsNot(edges[k].id)(edges[j]) {
      OtherEdgeOtherId(edges, j, k);
    }
    FilterRejectsOne(edges, IdIsNot(edges[k].id), k);
  }

  lemma OtherEdgeOtherId(edges: seq<FlowEdge>, j: nat, k: nat)
    requires WellFormedEdges(edges) && j < |edges| && k < |edges| && j != k
    ensures edges[j].id != edges[k].id
  {
    if j < k {
      assert DifferentPairs(edges[j], edges[k]);
    } else {
      assert DifferentPairs(edges[k], edges[j]);
    }
    if edges[j].id == edges[k].id {
      EdgeIdOfInjective(edges[j].from, edges[j].to, edges[k].from, edges[k].to);
    }
  }

  /** Deleting by an id no edge has changes nothing. */
  lemma DeleteUnknownIdKeepsAll(edges: seq<FlowEdge>, id: string)
    requires forall k :: 0 <= k < |edges| ==> edges[k].id != id
    ensures Filter(edges, IdIsNot(id)) == edges
  {
    FilterKeepsAll(edges, IdIsNot(id));
  }

  // ---------------------------------------------------------- capacity

  /** The capacity field's value after an edit: `parseInt(value, 10) || 1`,
      then raised to 1 if below 1. */
  function CapacityFrom(value: string): (c: int)
    ensures c >= 1
    ensures ParseInt(value).Some? && ParseInt(value).value >= 1 ==> c == ParseInt(value).value
    ensures ParseInt(value).None? || ParseInt(value).value < 1 ==> c == 1
  {
    var parsed := ParseInt(value);
    var c := if parsed.None? || parsed.value == 0 then 1 else parsed.value;
    if c < 1 then 1 else c
  }

  /** Typing back a capacity the field shows gives that capacity. */
  lemma CapacityFromShown(c: int)
    requires c >= 1
    ensures CapacityFrom(IntToString(c)) == c
  {
    ParseIntOfIntToString(c);
  }

  // ------------------------------------------------------------ request

  /** `edges.map(edge => [edge.from, edge.to])`. */
  function GraphOf(edges: seq<FlowEdge>): (g: seq<(int, int)>)
    ensures |g| == |edges|
    ensures forall k :: 0 <= k < |g| ==> g[k] == (edges[k].from, edges[k].to)
  {
    seq(|edges|, k requires 0 <= k < |edges| => (edges[k].from, edges[k].to))
  }

  /** The capacities object, filled edge by edge: every edge's key is
      present and no other key is. */
  function CapacitiesOf(edges: seq<FlowEdge>): (r: map<string, int>)
    ensures |r| <= |edges|
  {
    if edges == [] then map[]
    else CapacitiesOf(edges[..|edges| - 1])[EdgeKey(edges[|edges| - 1]) := edges[|edges| - 1].capacity]
  }

  /** Every edge's key is a key of the capacities object. */
  lemma {:induction false} CapacitiesOfHasKey(edges: seq<FlowEdge>, k: nat)
    requires k < |edges|
    ensures EdgeKey(edges[k]) in CapacitiesOf(edges)
  {
    var init := edges[..|edges| - 1];
    if k < |init| {
      assert init[k] == edges[k];
      CapacitiesOfHasKey(init, k);
    }
  }

  /** Every key of the capacities object comes from an edge. */
  lemma {:induction false} CapacitiesOfKeyFromEdge(edges: seq<FlowEdge>, key: string)
    requires key in CapacitiesOf(edges)
    ensures exists k :: 0 <= k < |edges| && key == EdgeKey(edges[k])
  {
    var init, last := edges[..|edges| - 1], edges[|edges| - 1];
    assert CapacitiesOf(edges) == CapacitiesOf(init)[EdgeKey(last) := last.capacity];
    if key != EdgeKey(last) {
      CapacitiesOfKeyFromEdge(init, key);
      var k :| 0 <= k < |init| && key == EdgeKey(init[k]);
      assert init[k] == edges[k];
    }
  }

  /** The capacities object has exactly the keys of the edges. */
  lemma CapacitiesOfKeys(edges: seq<FlowEdge>)
    ensures forall key :: key in CapacitiesOf(edges) ==> exists k :: 0 <= k < |edges| && key == EdgeKey(edges[k])
    ensures forall k :: 0 <= k < |edges| ==> EdgeKey(edges[k]) in CapacitiesOf(edges)
  {
    forall key | key in CapacitiesOf(edges) ensures exists k :: 0 <= k < |edges| && key == EdgeKey(edges[k]) {
      CapacitiesOfKeyFromEdge(edges, key);
    }
    forall k | 0 <= k < |edges| ensures EdgeKey(edges[k]) in CapacitiesOf(edges) {
      CapacitiesOfHasKey(edges, k);
    }
  }

  /** A later edge with the same key overwrites an earlier one: a key holds
      the capacity of the last edge carrying it. */
  lemma {:induction false} CapacitiesOfLastWins(edges: seq<FlowEdge>, k: nat)
    requires k < |edges|
    requires forall l :: k < l < |edges| ==> EdgeKey(edges[l]) != EdgeKey(edges[k])
    ensures EdgeKey(edges[k]) in CapacitiesOf(edges)
    ensures CapacitiesOf(edges)[EdgeKey(edges[k])] == edges[k].capacity
  {
    var init := edges[..|edges| - 1];
    if k < |edges| - 1 {
      assert init[k] == edges[k];
      forall l | k < l < |init| ensures EdgeKey(init[l]) != EdgeKey(init[k]) {
        assert init[l] == edges[l];
      }
      CapacitiesOfLastWins(init, k);
    }
  }

  /** Under the edge invariant every key holds the capacity of its edge. */
  lemma CapacitiesOfWellFormed(edges: seq<FlowEdge>)
    requires WellFormedEdges(edges)
    ensures forall k :: 0 <= k < |edges| ==>
              EdgeKey(edges[k]) in CapacitiesOf(edges) && CapacitiesOf(edges)[EdgeKey(edges[k])] == edges[k].capacity
  {
    forall k | 0 <= k < |edges|
      ensures EdgeKey(edges[k]) in CapacitiesOf(edges) && CapacitiesOf(edges)[EdgeKey(edges[k])] == edges[k].capacity
    {
      forall l | k < l < |edges| ensures EdgeKey(edges[l]) != EdgeKey(edges[k]) {
        assert DifferentPairs(edges[k], edges[l]);
        if EdgeKey(edges[l]) == EdgeKey(edges[k]) {
          KeyOfInjective(edges[l].from, edges[l].to, edges[k].from, edges[k].to);
        }
      }
      CapacitiesOfLastWins(edges, k);
    }
  }

  /** The capacities depend only on each edge's pair and capacity. */
  lemma {:induction false} SameNetworkSameCapacities(a: seq<FlowEdge>, b: seq<FlowEdge>)
    requires |a| == |b|
    requires forall k :: 0 <= k < |a| ==> EdgeKey(a[k]) == EdgeKey(b[k]) && a[k].capacity == b[k].capacity
    ensures CapacitiesOf(a) == CapacitiesOf(b)
  {
    if a != [] {
      SameNetworkSameCapacities(a[..|a| - 1], b[..|b| - 1]);
    }
  }

  /** The value `flows[key] || 0`: a missing entry reads as 0 (and an entry
      of 0 is 0 either way). */
  function FlowFor(flows: map<string, real>, key: string): (f: real)
    ensures key in flows ==> f == flows[key]
    ensures key !in flows ==> f == 0.0
  {
    if key in flows && flows[key] != 0.0 then flows[key] else 0.0
  }

  /** Each edge with its `flow` set from the answer, everything else kept. */
  function MergeFlows(edges: seq<FlowEdge>, flows: map<string, real>): (r: seq<FlowEdge>)
    ensures |r| == |edges|
    ensures forall k :: 0 <= k < |r| ==> r[k] == edges[k].(flow := Some(FlowFor(flows, EdgeKey(edges[k]))))
  {
    seq(|edges|, k requires 0 <= k < |edges| => edges[k].(flow := Some(FlowFor(flows, EdgeKey(edges[k])))))
  }

  /** Merging flows leaves the network alone: the same graph, the same
      capacities, the same ids, and the edge invariant is kept. */
  lemma MergeFlowsKeepsNetwork(edges: seq<FlowEdge>, flows: map<string, real>)
    ensures GraphOf(MergeFlows(edges, flows)) == GraphOf(edges)
    ensures CapacitiesOf(MergeFlows(edges, flows)) == CapacitiesOf(edges)
    ensures WellFormedEdges(edges) ==> WellFormedEdges(MergeFlows(edges, flows))
  {
    var r := MergeFlows(edges, flows);
    forall k | 0 <= k < |r| ensures EdgeKey(r[k]) == EdgeKey(edges[k]) && r[k].capacity == edges[k].capacity {
    }
    SameNetworkSameCapacities(r, edges);
    forall k | 0 <= k < |r| ensures GraphOf(r)[k] == GraphOf(edges)[k] {
    }
    if WellFormedEdges(edges) {
      MergeFlowsKeepsWellFormed(edges, flows);
    }
  }

  /** Merging flows keeps the edge invariant. */
  lemma MergeFlowsKeepsWellFormed(edges: seq<FlowEdge>, flows: map<string, real>)
    requires WellFormedEdges(edges)
    ensures WellFormedEdges(MergeFlows(edges, flows))
  {
    var r := MergeFlows(edges, flows);
    forall k, l | 0 <= k < l < |r| ensures DifferentPairs(r[k], r[l]) {
      assert DifferentPairs(edges[k], edges[l]);
    }
  }

  /** When the answer has an entry for every key of the request, each edge
      receives exactly the flow of its own pair. */
  lemma MergedFlowsMatchAnswer(edges: seq<FlowEdge>, flows: map<string, real>)
    requires forall key :: key in CapacitiesOf(edges) ==> key in flows
    ensures forall k :: 0 <= k < |edges| ==>
              EdgeKey(edges[k]) in flows && MergeFlows(edges, flows)[k].flow == Some(flows[EdgeKey(edges[k])])
  {
    forall k | 0 <= k < |edges| ensures EdgeKey(edges[k]) in flows {
      CapacitiesOfHasKey(edges, k);
    }
  }
}
