/** The max-flow editor as a stateful object: the node and edge lists, the
    source and sink markers, the editing mode with its pending first end
    point, the capacity for new edges, and the request/response cycle of a
    computation. List updates replace the whole list with a value computed
    by the functions of MaxFlowModel. */
module MaxFlowEditor {
  import opened Common
  import opened Text
  import opened MaxFlowModel

  /** A click at `(px, py)` is closer to `node` than twice the node radius
      (compared on squared distances, which is the same test). */
  predicate TooClose(node: FlowNode, px: real, py: real) {
    (node.x - px) * (node.x - px) + (node.y - py) * (node.y - py) < (2.0 * NodeRadius) * (2.0 * NodeRadius)
  }

  predicate NearAnyNode(nodes: seq<FlowNode>, px: real, py: real) {
    exists k | 0 <= k < |nodes| :: TooClose(nodes[k], px, py)
  }

  /** The node a click on empty canvas creates: the next id, labelled with
      its decimal form. */
  function NewNode(nodes: seq<FlowNode>, px: real, py: real): (n: FlowNode)
    ensures forall k :: 0 <= k < |nodes| ==> nodes[k].id != n.id
    ensures ParseInt(n.nodeLabel) == Some(n.id)
  {
    var id := NextNodeId(nodes);
    ParseIntOfIntToString(id);
    FlowNode(id, px, py, IntToString(id))
  }

  /** The marker after deleting node `nodeId`: cleared if it was that node. */
  function Cleared(marker: Option<int>, nodeId: int): (r: Option<int>)
    ensures r == None || r == marker
    ensures r.Some? ==> r.value != nodeId
    ensures marker.Some? && marker.value != nodeId ==> r == marker
  {
    if marker == Some(nodeId) then None else marker
  }

  class FlowGraphEditor {
    var nodes: seq<FlowNode>
    var edges: seq<FlowEdge>
    var source: Option<int>
    var sink: Option<int>
    var mode: EditMode
    /** The first end point chosen in add-edge mode. */
    var selectedNode: Option<FlowNode>
    /** The capacity given to new edges. */
    var capacity: int
    var result: Option<FlowResponse>
    var isLoading: bool
    var error: Option<FlowError>
    var width: real
    var height: real

    /** Node ids are distinct, the edges are well formed, and the capacity
        for new edges is at least 1. */
    ghost predicate Valid()
      reads this
    {
      DistinctIds(nodes) && WellFormedEdges(edges) && capacity >= 1
    }

    constructor ()
      ensures Valid()
      ensures nodes == [] && edges == [] && source == None && sink == None
      ensures mode == AddNodeMode && selectedNode == None && capacity == 10
      ensures result == None && !isLoading && error == None
      ensures width == 800.0 && height == 600.0
    {
      nodes, edges := [], [];
      source, sink := None, None;
      mode, selectedNode, capacity := AddNodeMode, None, 10;
      result, isLoading, error := None, false, None;
      width, height := 800.0, 600.0;
    }

    /** A click at canvas point `(px, py)`: in add-node mode, inside the
        canvas and away from every node, a node with the next id is added. */
    method HandleCanvasClick(px: real, py: real)
      requires Valid()
      modifies this`nodes
      ensures Valid()
      ensures mode == AddNodeMode && 0.0 <= px <= width && 0.0 <= py <= height && !NearAnyNode(old(nodes), px, py) ==>
                nodes == old(nodes) + [NewNode(old(nodes), px, py)]
      ensures mode != AddNodeMode || px < 0.0 || px > width || py < 0.0 || py > height || NearAnyNode(old(nodes), px, py) ==>
                nodes == old(nodes)
    {
      if mode != AddNodeMode {
        return;
      }
      if px < 0.0 || px > width || py < 0.0 || py > height {
        return;
      }
      var clickedOnNode := NearAnyNode(nodes, px, py);
      if !clickedOnNode {
        var newNode := NewNode(nodes, px, py);
        AppendNextKeepsDistinct(nodes, px, py, newNode.nodeLabel);
        nodes := nodes + [newNode];
      }
    }

    /** A click on `node`, dispatched on the mode. */
    method HandleNodeClick(node: FlowNode)
      requires Valid()
      modifies this`nodes, this`edges, this`source, this`sink, this`mode, this`selectedNode, this`result
      ensures Valid()
      ensures old(mode) == SelectSourceMode ==>
                source == Some(node.id) && mode == AddNodeMode
                && sink == old(sink) && nodes == old(nodes) && edges == old(edges)
                && selectedNode == old(selectedNode) && result == old(result)
      ensures old(mode) == SelectSinkMode ==>
                sink == Some(node.id) && mode == AddNodeMode
                && source == old(source) && nodes == old(nodes) && edges == old(edges)
                && selectedNode == old(selectedNode) && result == old(result)
      ensures old(mode) == AddEdgeMode ==>
                && mode == old(mode) && source == old(source) && sink == old(sink)
                && nodes == old(nodes) && result == old(result)
                && (old(selectedNode).None? ==> selectedNode == Some(node) && edges == old(edges))
                && (old(selectedNode).Some? && old(selectedNode).value.id == node.id ==>
                      selectedNode == old(selectedNode) && edges == old(edges))
                && (old(selectedNode).Some? && old(selectedNode).value.id != node.id ==>
                      selectedNode == None
                      && edges == AddDirected(old(edges), old(selectedNode).value.id, node.id, capacity))
      ensures old(mode) == AddNodeMode || old(mode) == MoveNodeMode ==> unchanged(this)
      ensures old(mode) == DeleteMode ==>
                && nodes == Filter(old(nodes), NodeIdIsNot(node.id))
                && edges == Filter(old(edges), AvoidsEndpoint(node.id))
                && source == Cleared(old(source), node.id) && sink == Cleared(old(sink), node.id)
                && result == None && mode == old(mode) && selectedNode == old(selectedNode)
    {
      match mode
      case SelectSourceMode =>
        source := Some(node.id);
        mode := AddNodeMode;
      case SelectSinkMode =>
        sink := Some(node.id);
        mode := AddNodeMode;
      case AddEdgeMode =>
        if selectedNode.None? {
          selectedNode := Some(node);
        } else if selectedNode.value.id != node.id {
          var from := selectedNode.value.id;
          var edgeExists := HasDirectedEdge(edges, from, node.id);
          if !edgeExists {
            AddDirectedKeepsWellFormed(edges, from, node.id, capacity);
            edges := edges + [NewEdge(from, node.id, capacity)];
          }
          selectedNode := None;
        }
      case AddNodeMode =>
      case MoveNodeMode =>
      case DeleteMode =>
        DeleteNode(node.id);
    }

    /** A click on an edge deletes it in delete mode. */
    method HandleEdgeClick(edge: FlowEdge)
      requires Valid()
      modifies this`edges, this`result
      ensures Valid()
      ensures mode == DeleteMode ==> edges == Filter(old(edges), IdIsNot(edge.id)) && result == None
      ensures mode != DeleteMode ==> edges == old(edges) && result == old(result)
    {
      if mode == DeleteMode {
        DeleteEdge(edge.id);
      }
    }

    /** Switching mode drops a half-made edge. */
    method SetMode(newMode: EditMode)
      modifies this`mode, this`selectedNode
      ensures mode == newMode && selectedNode == None
    {
      mode := newMode;
      selectedNode := None;
    }

    /** The capacity field was edited to `value`. */
    method UpdateCapacity(value: string)
      requires Valid()
      modifies this`capacity
      ensures Valid()
      ensures capacity == CapacityFrom(value)
    {
      var parsed := ParseInt(value);
      capacity := if parsed.None? || parsed.value == 0 then 1 else parsed.value;
      if capacity < 1 {
        capacity := 1;
      }
    }

    /** Empties the graph and forgets the markers and the last result; the
        mode, the selection and the capacity are kept. */
    method ResetGraph()
      requires Valid()
      modifies this`nodes, this`edges, this`source, this`sink, this`result
      ensures Valid()
      ensures nodes == [] && edges == [] && source == None && sink == None && result == None
    {
      nodes := [];
      edges := [];
      source := None;
      sink := None;
      result := None;
    }

    /** Deletes the node(s) with id `nodeId` and every edge touching it,
        clears a marker on it, and drops the result. */
    method DeleteNode(nodeId: int)
      requires Valid()
      modifies this`nodes, this`edges, this`source, this`sink, this`result
      ensures Valid()
      ensures nodes == Filter(old(nodes), NodeIdIsNot(nodeId))
      ensures edges == Filter(old(edges), AvoidsEndpoint(nodeId))
      ensures source == Cleared(old(source), nodeId) && sink == Cleared(old(sink), nodeId)
      ensures result == None
      ensures forall n :: n in nodes ==> n.id != nodeId
      ensures forall e :: e in edges ==> e.from != nodeId && e.to != nodeId
    {
      var keptNodes := Filter(nodes, NodeIdIsNot(nodeId));
      var keptEdges := Filter(edges, AvoidsEndpoint(nodeId));
      FilterKeepsDistinctIds(nodes, NodeIdIsNot(nodeId));
      FilterKeepsWellFormed(edges, AvoidsEndpoint(nodeId));
      FilterMembers(nodes, NodeIdIsNot(nodeId));
      FilterMembers(edges, AvoidsEndpoint(nodeId));
      nodes, edges := keptNodes, keptEdges;
      assert Valid();
      if source == Some(nodeId) {
        source := None;
      }
      if sink == Some(nodeId) {
        sink := None;
      }
      result := None;
    }

    /** Deletes the edges with id `edgeId` and drops the result. Under the
        edge invariant that is exactly one edge, or none. */
    method DeleteEdge(edgeId: string)
      requires Valid()
      modifies this`edges, this`result
      ensures Valid()
      ensures edges == Filter(old(edges), IdIsNot(edgeId)) && result == None
      ensures forall k :: 0 <= k < |old(edges)| && old(edges)[k].id == edgeId ==> edges == RemoveAt(old(edges), k)
      ensures (forall k :: 0 <= k < |old(edges)| ==> old(edges)[k].id != edgeId) ==> edges == old(edges)
    {
      FilterKeepsWellFormed(edges, IdIsNot(edgeId));
      forall k | 0 <= k < |edges| && edges[k].id == edgeId
        ensures Filter(edges, IdIsNot(edgeId)) == RemoveAt(edges, k)
      {
        DeleteByIdRemovesOne(edges, k);
      }
      if forall k :: 0 <= k < |edges| ==> edges[k].id != edgeId {
        DeleteUnknownIdKeepsAll(edges, edgeId);
      }
      edges := Filter(edges, IdIsNot(edgeId));
      result := None;
    }

    /** Checks that a computation can start, in the source's order (markers,
        node count, edge count); on success marks the editor busy and
        returns the request to send. */
    method CalculateMaxFlow() returns (request: Option<Request>)
      requires Valid()
      modifies this`error, this`isLoading
      ensures source.None? || sink.None? ==>
                request == None && error == Some(MissingTerminals) && isLoading == old(isLoading)
      ensures source.Some? && sink.Some? && |nodes| < 2 ==>
                request == None && error == Some(TooFewNodes) && isLoading == old(isLoading)
      ensures source.Some? && sink.Some? && |nodes| >= 2 && edges == [] ==>
                request == None && error == Some(NoEdges) && isLoading == old(isLoading)
      ensures source.Some? && sink.Some? && |nodes| >= 2 && edges != [] ==>
                request == Some(Request(GraphOf(edges), CapacitiesOf(edges), source.value, sink.value))
                && isLoading && error == None
      ensures request.Some? ==>
                forall k :: 0 <= k < |edges| ==>
                  request.value.graph[k] == (edges[k].from, edges[k].to)
                  && EdgeKey(edges[k]) in request.value.capacities
                  && request.value.capacities[EdgeKey(edges[k])] == edges[k].capacity
    {
      if source.None? || sink.None? {
        error := Some(MissingTerminals);
        return None;
      }
      if |nodes| < 2 {
        error := Some(TooFewNodes);
        return None;
      }
      if |edges| == 0 {
        error := Some(NoEdges);
        return None;
      }
      isLoading := true;
      error := None;
      CapacitiesOfWellFormed(edges);
      request := Some(Request(GraphOf(edges), CapacitiesOf(edges), source.value, sink.value));
    }

    /** The answer arrived: it becomes the result and every edge gets the
        flow of its pair. */
    method ReceiveFlowResult(response: FlowResponse)
      requires Valid()
      modifies this`result, this`isLoading, this`edges
      ensures Valid()
      ensures result == Some(response) && !isLoading
      ensures edges == MergeFlows(old(edges), response.flows)
    {
      var merged := MergeFlows(edges, response.flows);
      MergeFlowsKeepsWellFormed(edges, response.flows);
      edges := merged;
      result := Some(response);
      isLoading := false;
    }

    /** The request failed; `detail` is the message of an `Error` object. */
    method ReceiveFlowError(detail: Option<string>)
      modifies this`error, this`isLoading
      ensures error == Some(ServiceFailed(detail)) && !isLoading
    {
      error := Some(ServiceFailed(detail));
      isLoading := false;
    }
  }
}
