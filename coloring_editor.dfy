/** The graph-colouring editor as a stateful object: the node list, the edge
    list and the adjacency matrix it keeps in sync, the pointer mode with its
    pending `connecting` end point, and the drag flags. Time-driven
    animations are reduced to their committed end effects: an operation that
    starts an exit animation returns what is pending, and the matching
    `Complete...` method applies what the animation does when it ends. */
module ColoringEditor {
  import opened Common
  import opened ColoringModel
  import opened ColoringImport

  /** An exit animation started by a pointer press: a node or an edge whose
      removal from the lists happens when the animation ends. */
  datatype Pending = NothingPending | NodeRemoval(index: nat) | EdgeRemoval(index: nat)

  /** The first node, in list order, whose drag flag is set. */
  function FirstDragging(nodes: seq<Node>): (r: Option<nat>)
    ensures r.Some? ==> r.value < |nodes| && nodes[r.value].dragging
    ensures r.Some? ==> forall k :: 0 <= k < r.value ==> !nodes[k].dragging
    ensures r.None? ==> forall k :: 0 <= k < |nodes| ==> !nodes[k].dragging
  {
    FindFirst(nodes, (n: Node) => n.dragging)
  }

  class GraphColoringEditor {
    var nodes: seq<Node>
    var edges: seq<Edge>
    var adjacencyMatrix: Matrix
    var mode: Mode
    /** The id of the first end point chosen in connect mode. */
    var connecting: Option<nat>
    var isDraggingCanvas: bool
    var scale: real
    var offsetX: real
    var offsetY: real
    /** The last pointer position (screen coordinates) the handlers recorded. */
    var lastX: real
    var lastY: real
    var error: Option<ImportError>

    /** Node ids are their positions, and the zoom factor is positive. */
    ghost predicate Valid()
      reads this
    {
      DenseIds(nodes) && scale > 0.0
    }

    constructor ()
      ensures Valid()
      ensures nodes == [] && edges == [] && adjacencyMatrix == []
      ensures mode == Move && connecting == None && !isDraggingCanvas
      ensures scale == 1.0 && offsetX == 0.0 && offsetY == 0.0 && error == None
    {
      nodes, edges, adjacencyMatrix := [], [], [];
      mode, connecting, isDraggingCanvas := Move, None, false;
      scale, offsetX, offsetY := 1.0, 0.0, 0.0;
      lastX, lastY := 0.0, 0.0;
      error := None;
    }

    // ------------------------------------------------------------ matrix

    /** Grows the matrix to the node count (see `Expanded`). */
    method ExpandAdjacencyMatrix()
      modifies this`adjacencyMatrix
      ensures adjacencyMatrix == Expanded(old(adjacencyMatrix), |nodes|)
    {
      adjacencyMatrix := GrowMatrix(adjacencyMatrix, |nodes|);
    }

    /** Replaces the matrix by the one rebuilt from the edges. */
    method UpdateAdjacencyMatrix()
      modifies this`adjacencyMatrix
      ensures adjacencyMatrix == MatrixOf(|nodes|, edges)
      ensures IsAdjacency(adjacencyMatrix) && |adjacencyMatrix| == |nodes|
    {
      adjacencyMatrix := BuildMatrix(|nodes|, edges);
      MatrixOfIsAdjacency(|nodes|, edges);
    }

    // ------------------------------------------------------------- nodes

    /** Appends a settled node whose id is the old node count. */
    method AddNode(x: real, y: real)
      requires Valid()
      modifies this`nodes, this`adjacencyMatrix
      ensures Valid()
      ensures nodes == old(nodes) + [Node(|old(nodes)|, x, y, None, false, 1.0, 1.0)]
      ensures adjacencyMatrix == Expanded(old(adjacencyMatrix), |nodes|)
    {
      nodes := nodes + [Node(|nodes|, x, y, None, false, 1.0, 1.0)];
      ExpandAdjacencyMatrix();
    }

    /** Appends a node that will fade in (scale and opacity start at 0). */
    method AddNodeWithAnimation(x: real, y: real)
      requires Valid()
      modifies this`nodes, this`adjacencyMatrix
      ensures Valid()
      ensures nodes == old(nodes) + [Node(|old(nodes)|, x, y, None, false, 0.0, 0.0)]
      ensures adjacencyMatrix == Expanded(old(adjacencyMatrix), |nodes|)
    {
      nodes := nodes + [Node(|nodes|, x, y, None, false, 0.0, 0.0)];
      ExpandAdjacencyMatrix();
    }

    /** The immediate part of deleting node `index`: its edges go at once;
        the node itself stays until its exit animation ends. */
    method DeleteNode(index: nat)
      modifies this`edges
      ensures edges == Filter(old(edges), AvoidsNode(index))
      ensures forall e :: e in edges ==> e.source != index && e.target != index
    {
      FilterMembers(edges, AvoidsNode(index));
      edges := Filter(edges, AvoidsNode(index));
    }

    /** The end of a node's exit animation: the node at `index` is spliced
        out, the survivors are re-identified as `0..n-1`, endpoints above
        `index` move down by one and the matrix is rebuilt. */
    method CompleteNodeRemoval(index: nat)
      requires Valid()
      modifies this`nodes, this`edges, this`adjacencyMatrix
      ensures Valid()
      ensures nodes == Renumbered(RemoveAt(old(nodes), index))
      ensures edges == ShiftEdges(old(edges), index)
      ensures adjacencyMatrix == MatrixOf(|nodes|, edges)
    {
      nodes := RemoveAt(nodes, index);
      ghost var spliced := nodes;
      for i := 0 to |nodes|
        invariant |nodes| == |spliced|
        invariant forall k :: 0 <= k < i ==> nodes[k] == spliced[k].(id := k)
        invariant forall k :: i <= k < |nodes| ==> nodes[k] == spliced[k]
        invariant edges == old(edges)
      {
        nodes := nodes[i := nodes[i].(id := i)];
      }
      assert nodes == Renumbered(spliced);
      for k := 0 to |edges|
        invariant |edges| == |old(edges)|
        invariant forall l :: 0 <= l < k ==> edges[l] == ShiftEdge(old(edges)[l], index)
        invariant forall l :: k <= l < |edges| ==> edges[l] == old(edges)[l]
        invariant nodes == Renumbered(spliced)
      {
        var edge := edges[k];
        if edge.source > index {
          edge := edge.(source := edge.source - 1);
        }
        if edge.target > index {
          edge := edge.(target := edge.target - 1);
        }
        edges := edges[k := edge];
      }
      UpdateAdjacencyMatrix();
    }

    // ------------------------------------------------------------- edges

    /** Adds a settled edge unless the pair is already joined. */
    method AddEdge(source: nat, target: nat)
      modifies this`edges
      ensures edges == AppendIfNew(old(edges), Edge(source, target, 1.0, false))
      ensures Joined(old(edges), source, target) ==> edges == old(edges)
      ensures !Joined(old(edges), source, target) ==> edges == old(edges) + [Edge(source, target, 1.0, false)]
    {
      if !Joined(edges, source, target) {
        edges := edges + [Edge(source, target, 1.0, false)];
      }
    }

    /** Adds an edge that will draw in, unless the pair is already joined;
        when it adds, it rebuilds the matrix, in which the new edge (still at
        progress 0) does not show yet. */
    method AddEdgeWithAnimation(source: nat, target: nat)
      modifies this`edges, this`adjacencyMatrix
      ensures edges == AppendIfNew(old(edges), Edge(source, target, 0.0, true))
      ensures Joined(old(edges), source, target) ==> edges == old(edges) && adjacencyMatrix == old(adjacencyMatrix)
      ensures !Joined(old(edges), source, target) ==>
                edges == old(edges) + [Edge(source, target, 0.0, true)]
                && adjacencyMatrix == MatrixOf(|nodes|, edges) == MatrixOf(|nodes|, old(edges))
    {
      if !Joined(edges, source, target) {
        FreshEdgeNotShown(|nodes|, edges, source, target);
        edges := edges + [Edge(source, target, 0.0, true)];
        UpdateAdjacencyMatrix();
      }
    }

    /** The immediate part of deleting the edge joining `source` and
        `target`: the first such edge is highlighted and its index returned;
        it leaves the list when its exit animation ends. */
    method DeleteEdge(source: nat, target: nat) returns (pending: Option<nat>)
      modifies this`edges
      ensures pending == FirstJoining(old(edges), source, target)
      ensures pending.Some? ==> edges == old(edges)[pending.value := old(edges)[pending.value].(highlight := true)]
      ensures pending.None? ==> edges == old(edges)
    {
      pending := FirstJoining(edges, source, target);
      if pending.Some? {
        var k := pending.value;
        edges := edges[k := edges[k].(highlight := true)];
      }
    }

    /** The end of an edge's exit animation: the edge at the index found when
        the deletion started is spliced out and the matrix rebuilt. */
    method CompleteEdgeRemoval(index: nat)
      modifies this`edges, this`adjacencyMatrix
      ensures edges == RemoveAt(old(edges), index)
      ensures adjacencyMatrix == MatrixOf(|nodes|, edges)
    {
      edges := RemoveAt(edges, index);
      UpdateAdjacencyMatrix();
    }

    // ----------------------------------------------------- matrix editing

    /** A cell of the matrix table was edited: the cell is normalised to 0/1
        and mirrored, then an edge is added for a 1 (unless one exists) or
        the deletion of the edge starts for a 0. Adding rebuilds the matrix,
        so a 1 written for a new pair reads 0 right afterwards. */
    method MatrixValueChanged(i: nat, j: nat) returns (pending: Option<nat>)
      requires i < |adjacencyMatrix| && j < |adjacencyMatrix|
      modifies this`adjacencyMatrix, this`edges
      ensures var written := WriteMirrored(old(adjacencyMatrix), i, j);
              var v := Normalized(old(adjacencyMatrix), i, j);
              && (v == 1 && Joined(old(edges), i, j) ==>
                    edges == old(edges) && adjacencyMatrix == written && pending == None)
              && (v == 1 && !Joined(old(edges), i, j) ==>
                    edges == old(edges) + [Edge(i, j, 0.0, true)]
                    && adjacencyMatrix == MatrixOf(|nodes|, old(edges)) && pending == None)
              && (v == 0 ==>
                    adjacencyMatrix == written && pending == FirstJoining(old(edges), i, j)
                    && (pending.Some? ==> edges == old(edges)[pending.value := old(edges)[pending.value].(highlight := true)])
                    && (pending.None? ==> edges == old(edges)))
      ensures Normalized(old(adjacencyMatrix), i, j) == 1 && !Joined(old(edges), i, j) && i < |nodes| && j < |nodes| ==>
                adjacencyMatrix[i][j] == 0 && adjacencyMatrix[j][i] == 0
    {
      var v := Normalized(adjacencyMatrix, i, j);
      adjacencyMatrix := adjacencyMatrix[i := SetCell(adjacencyMatrix[i], j, v)];
      adjacencyMatrix := adjacencyMatrix[j := SetCell(adjacencyMatrix[j], i, GetCell(adjacencyMatrix[i], j))];
      ghost var written := adjacencyMatrix;
      if GetCell(adjacencyMatrix[i], j) == 1 {
        var edgeExists := Joined(edges, i, j);
        if !edgeExists {
          AddEdgeWithAnimation(i, j);
        }
        pending := None;
      } else {
        pending := DeleteEdge(i, j);
      }
    }

    // ------------------------------------------------------ pointer input

    /** Switching mode drops a half-made connection. */
    method SetMode(m: Mode)
      modifies this`mode, this`connecting
      ensures mode == m && connecting == None
    {
      mode := m;
      connecting := None;
    }

    /** A press at world point `(x, y)`. `edgeHit` is what the edge hit test
        found there (it is only consulted when no node is hit). */
    method ProcessPointerDown(x: real, y: real, edgeHit: Option<(nat, nat)>) returns (pending: Pending)
      requires Valid()
      modifies this`nodes, this`edges, this`adjacencyMatrix, this`connecting, this`isDraggingCanvas
      ensures Valid()
      ensures var hit := FindNodeAt(old(nodes), x, y);
              && (hit.Some? && mode == Add ==> unchanged(this) && pending == NothingPending)
              && (hit.Some? && mode == Delete ==>
                    pending == NodeRemoval(hit.value) && edges == Filter(old(edges), AvoidsNode(hit.value))
                    && nodes == old(nodes) && adjacencyMatrix == old(adjacencyMatrix)
                    && connecting == old(connecting) && isDraggingCanvas == old(isDraggingCanvas))
              && (hit.Some? && mode == Connect && old(connecting).None? ==>
                    connecting == Some(hit.value) && pending == NothingPending
                    && nodes == old(nodes) && edges == old(edges) && adjacencyMatrix == old(adjacencyMatrix)
                    && isDraggingCanvas == old(isDraggingCanvas))
              && (hit.Some? && mode == Connect && old(connecting).Some? ==>
                    connecting == None && pending == NothingPending
                    && nodes == old(nodes) && isDraggingCanvas == old(isDraggingCanvas))
              && (hit.Some? && mode == Connect && old(connecting).Some? && old(connecting).value != hit.value ==>
                    edges == AppendIfNew(old(edges), Edge(old(connecting).value, hit.value, 0.0, true))
                    && adjacencyMatrix == MatrixOf(|nodes|, edges))
              && (hit.Some? && mode == Connect && old(connecting) == Some(hit.value) ==>
                    edges == old(edges) && adjacencyMatrix == old(adjacencyMatrix))
              && (hit.Some? && mode == Move ==>
                    nodes == old(nodes)[hit.value := old(nodes)[hit.value].(dragging := true)]
                    && pending == NothingPending && edges == old(edges) && adjacencyMatrix == old(adjacencyMatrix)
                    && connecting == old(connecting) && isDraggingCanvas == old(isDraggingCanvas))
      ensures var hit := FindNodeAt(old(nodes), x, y);
              && (hit.None? && mode == Delete && edgeHit.Some? ==>
                    var found := FirstJoining(old(edges), edgeHit.value.0, edgeHit.value.1);
                    && (found.Some? ==>
                          pending == EdgeRemoval(found.value)
                          && edges == old(edges)[found.value := old(edges)[found.value].(highlight := true)])
                    && (found.None? ==> pending == NothingPending && edges == old(edges))
                    && nodes == old(nodes) && adjacencyMatrix == old(adjacencyMatrix)
                    && connecting == old(connecting) && isDraggingCanvas == old(isDraggingCanvas))
              && (hit.None? && mode == Delete && edgeHit.None? ==> unchanged(this) && pending == NothingPending)
              && (hit.None? && mode == Add ==>
                    nodes == old(nodes) + [Node(|old(nodes)|, x, y, None, false, 0.0, 0.0)]
                    && edges == old(edges) && adjacencyMatrix == MatrixOf(|nodes|, edges)
                    && pending == NothingPending
                    && connecting == old(connecting) && isDraggingCanvas == old(isDraggingCanvas))
              && (hit.None? && mode == Connect ==>
                    connecting == None && pending == NothingPending
                    && nodes == old(nodes) && edges == old(edges) && adjacencyMatrix == old(adjacencyMatrix)
                    && isDraggingCanvas == old(isDraggingCanvas))
              && (hit.None? && mode == Move ==>
                    isDraggingCanvas && pending == NothingPending
                    && nodes == old(nodes) && edges == old(edges) && adjacencyMatrix == old(adjacencyMatrix)
                    && connecting == old(connecting))
    {
      pending := NothingPending;
      var clickedNodeIndex := FindNodeAt(nodes, x, y);
      if clickedNodeIndex.Some? {
        var k := clickedNodeIndex.value;
        if mode == Add {
          // a press on a node does nothing in add mode
        } else if mode == Delete {
          DeleteNode(k);
          pending := NodeRemoval(k);
        } else if mode == Connect {
          if connecting.None? {
            connecting := Some(nodes[k].id);
          } else {
            if connecting.value != k {
              AddEdgeWithAnimation(connecting.value, k);
              UpdateAdjacencyMatrix();
            }
            connecting := None;
          }
        } else {
          nodes := nodes[k := nodes[k].(dragging := true)];
        }
      } else {
        if edgeHit.Some? && mode == Delete {
          var found := DeleteEdge(edgeHit.value.0, edgeHit.value.1);
          if found.Some? {
            pending := EdgeRemoval(found.value);
          }
        } else {
          if mode == Add {
            AddNodeWithAnimation(x, y);
            UpdateAdjacencyMatrix();
          } else if mode == Connect {
            connecting := None;
          } else if mode == Move {
            isDraggingCanvas := true;
          }
        }
      }
    }

    /** The pointer moved to world point `(x, y)`, screen point
        `(clientX, clientY)`: the first dragged node follows it; otherwise a
        canvas drag pans by the screen delta divided by the zoom factor. */
    method ProcessPointerMove(x: real, y: real, clientX: real, clientY: real)
      requires Valid()
      modifies this`nodes, this`offsetX, this`offsetY, this`lastX, this`lastY
      ensures Valid()
      ensures var d := FirstDragging(old(nodes));
              && (d.Some? ==>
                    nodes == old(nodes)[d.value := old(nodes)[d.value].(x := x, y := y)]
                    && offsetX == old(offsetX) && offsetY == old(offsetY)
                    && lastX == old(lastX) && lastY == old(lastY))
              && (d.None? && isDraggingCanvas ==>
                    nodes == old(nodes)
                    && offsetX == old(offsetX) + (clientX - old(lastX)) / scale
                    && offsetY == old(offsetY) + (clientY - old(lastY)) / scale
                    && lastX == clientX && lastY == clientY)
              && (d.None? && !isDraggingCanvas ==>
                    nodes == old(nodes) && offsetX == old(offsetX) && offsetY == old(offsetY)
                    && lastX == old(lastX) && lastY == old(lastY))
    {
      var isDraggingNode := false;
      var i := 0;
      while i < |nodes|
        invariant 0 <= i <= |nodes|
        invariant nodes == old(nodes) && !isDraggingNode
        invariant forall k :: 0 <= k < i ==> !nodes[k].dragging
      {
        if nodes[i].dragging {
          nodes := nodes[i := nodes[i].(x := x, y := y)];
          isDraggingNode := true;
          break;
        }
        i := i + 1;
      }
      if isDraggingCanvas && !isDraggingNode {
        var dx := clientX - lastX;
        var dy := clientY - lastY;
        offsetX := offsetX + dx / scale;
        offsetY := offsetY + dy / scale;
        lastX, lastY := clientX, clientY;
      }
    }

    /** Release (or the pointer leaving the canvas): every drag ends,
        whatever the mode. */
    method ProcessPointerUp()
      requires Valid()
      modifies this`nodes, this`isDraggingCanvas
      ensures Valid()
      ensures |nodes| == |old(nodes)|
      ensures forall k :: 0 <= k < |nodes| ==> nodes[k] == old(nodes)[k].(dragging := false)
      ensures !isDraggingCanvas
    {
      for i := 0 to |nodes|
        invariant |nodes| == |old(nodes)|
        invariant forall k :: 0 <= k < i ==> nodes[k] == old(nodes)[k].(dragging := false)
        invariant forall k :: i <= k < |nodes| ==> nodes[k] == old(nodes)[k]
      {
        nodes := nodes[i := nodes[i].(dragging := false)];
      }
      isDraggingCanvas := false;
    }

    // ------------------------------------------------------------ import

    /** Checks a parsed matrix file. A bad shape sets `error` and yields
        nothing; a good one yields the matrix to load, made symmetric. */
    method ImportMatrix(p: Parsed) returns (toLoad: Option<Matrix>)
      modifies this`error
      ensures ValidateImport(p).Err? ==> error == Some(ValidateImport(p).error) && toLoad == None
      ensures ValidateImport(p).Ok? ==>
                var M := ValidateImport(p).value;
                error == old(error) && toLoad == Some(if IsSymmetric(M) then M else OrFixed(M))
      ensures toLoad.Some? ==> IsSquare(toLoad.value, |toLoad.value|) && IsSymmetric(toLoad.value)
    {
      match ValidateImport(p)
      case Err(e) =>
        error := Some(e);
        toLoad := None;
      case Ok(M) =>
        var fixed := Symmetrize(M);
        toLoad := Some(fixed);
    }

    /** The deferred step of an import: one settled node per row at the
        given layout positions, an animated edge for each 1 above the
        diagonal (in row order), and the matrix itself as the new matrix. */
    method LoadImportedMatrix(M: Matrix, xs: seq<real>, ys: seq<real>)
      requires Valid()
      requires IsSquare(M, |M|) && |xs| == |M| && |ys| == |M|
      modifies this`nodes, this`edges, this`adjacencyMatrix
      ensures Valid()
      ensures nodes == old(nodes) + PlacedNodes(|old(nodes)|, xs, ys)
      ensures edges == AddAll(old(edges), ImportPairs(M))
      ensures adjacencyMatrix == M
    {
      PlaceImportedNodes(xs, ys);
      AddImportedEdges(M);
      adjacencyMatrix := M;
    }

    /** One settled node per position, appended in order.
        Each add also grows or rebuilds the matrix; that value is left
        unstated because `LoadImportedMatrix` overwrites it right after. */
    method PlaceImportedNodes(xs: seq<real>, ys: seq<real>)
      requires Valid() && |xs| == |ys|
      modifies this`nodes, this`adjacencyMatrix
      ensures Valid()
      ensures nodes == old(nodes) + PlacedNodes(|old(nodes)|, xs, ys)
    {
      var n0 := |nodes|;
      for i := 0 to |xs|
        invariant Valid()
        invariant nodes == old(nodes) + PlacedNodes(n0, xs[..i], ys[..i])
      {
        assert PlacedNodes(n0, xs[..i + 1], ys[..i + 1])
            == PlacedNodes(n0, xs[..i], ys[..i]) + [Node(n0 + i, xs[i], ys[i], None, false, 1.0, 1.0)];
        AddNode(xs[i], ys[i]);
      }
      assert xs[..|xs|] == xs && ys[..|ys|] == ys;
    }

    /** An animated edge for each 1 above the diagonal, row by row.
        Each add also grows or rebuilds the matrix; that value is left
        unstated because `LoadImportedMatrix` overwrites it right after. */
    method AddImportedEdges(M: Matrix)
      requires IsSquare(M, |M|)
      modifies this`edges, this`adjacencyMatrix
      ensures edges == AddAll(old(edges), ImportPairs(M))
    {
      for i := 0 to |M|
        invariant edges == AddAll(old(edges), PairsBefore(M, i))
      {
        AddImportedRow(M, i);
        AddAllAppend(old(edges), PairsBefore(M, i), RowPairs(M, i, |M|));
      }
    }

    /** The inner loop of the import: the cells of row `i` right of the
        diagonal, left to right.
        Each add also grows or rebuilds the matrix; that value is left
        unstated because `LoadImportedMatrix` overwrites it right after. */
    method AddImportedRow(M: Matrix, i: nat)
      requires IsSquare(M, |M|) && i < |M|
      modifies this`edges, this`adjacencyMatrix
      ensures edges == AddAll(old(edges), RowPairs(M, i, |M|))
    {
      for j := i + 1 to |M|
        invariant edges == AddAll(old(edges), RowPairs(M, i, j))
      {
        if M[i][j] == 1 {
          assert RowPairs(M, i, j + 1) == RowPairs(M, i, j) + [(i, j)];
          AddAllSnoc(old(edges), RowPairs(M, i, j), (i, j));
          AddEdgeWithAnimation(i, j);
        } else {
          assert RowPairs(M, i, j + 1) == RowPairs(M, i, j);
        }
      }
    }
  }
}
