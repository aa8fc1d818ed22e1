/** Values and pure functions of the graph-colouring editor: nodes, undirected
    edges, the adjacency matrix derived from them, and the bookkeeping a node
    deletion does on the survivors. The stateful editor that uses them is in
    module ColoringEditor. */
module ColoringModel {
  import opened Common

  /** The four pointer modes of the colouring editor. */
  datatype Mode = Add | Delete | Connect | Move

  /** A node; `id` is meant to equal its index in the node list. `scale` and
      `opacity` are the entry/exit animation state (1 when settled). */
  datatype Node = Node(id: nat, x: real, y: real, color: Option<int>, dragging: bool,
                       scale: real, opacity: real)

  /** An undirected edge between two node indices; `progress` is the draw-in
      animation state (0 when just requested, 1 when settled). */
  datatype Edge = Edge(source: nat, target: nat, progress: real, highlight: bool)

  /** A JavaScript `number[][]`. A cell holds a JavaScript value encoded as an
      integer: 0 and 1 stand for themselves, other values for other numbers
      (or, from an imported file, other JSON values). */
  type Matrix = seq<seq<int>>

  /** The value read from a hole of a sparse JavaScript array (`undefined`). */
  const Undefined: int := -1

  /** A node is hit when the pointer is within this distance of its centre. */
  const SelectionRadius: real := 30.0

  /** An edge shows in the matrix once its draw-in has got this far. */
  const MatrixThreshold: real := 0.5

  // ---------------------------------------------------------------- edges

  /** `e` joins `a` and `b`, in either direction. */
  predicate Connects(e: Edge, a: nat, b: nat) {
    (e.source == a && e.target == b) || (e.source == b && e.target == a)
  }

  /** Some edge of `edges` joins `a` and `b` (the source's `edges.some(...)`). */
  predicate Joined(edges: seq<Edge>, a: nat, b: nat) {
    exists k | 0 <= k < |edges| :: Connects(edges[k], a, b)
  }

  /** No two edges join the same unordered pair. */
  predicate NoDuplicatePairs(edges: seq<Edge>) {
    forall k, l | 0 <= k < l < |edges| :: !Connects(edges[l], edges[k].source, edges[k].target)
  }

  /** The edge list after asking to add `e`: unchanged if its pair is already
      joined (in either order), otherwise `e` appended at the end. */
  function AppendIfNew(edges: seq<Edge>, e: Edge): (r: seq<Edge>)
    ensures Joined(edges, e.source, e.target) ==> r == edges
    ensures !Joined(edges, e.source, e.target) ==> |r| == |edges| + 1 && r[..|edges|] == edges && r[|edges|] == e
    ensures Joined(r, e.source, e.target)
  {
    if Joined(edges, e.source, e.target) then edges
    else
      assert Connects((edges + [e])[|edges|], e.source, e.target);
      edges + [e]
  }

  /** Asking for the same pair twice, in either order, leaves one edge. */
  lemma AppendIfNewTwice(edges: seq<Edge>, e: Edge, f: Edge)
    requires Connects(f, e.source, e.target)
    ensures AppendIfNew(AppendIfNew(edges, e), f) == AppendIfNew(edges, e)
  {
    var r := AppendIfNew(edges, e);
    var k :| 0 <= k < |r| && Connects(r[k], e.source, e.target);
    assert Connects(r[k], f.source, f.target);
  }

  /** Adding through `AppendIfNew` never creates a second edge for a pair. */
  lemma AppendIfNewKeepsNoDuplicates(edges: seq<Edge>, e: Edge)
    requires NoDuplicatePairs(edges)
    ensures NoDuplicatePairs(AppendIfNew(edges, e))
  {
    var r := AppendIfNew(edges, e);
    if !Joined(edges, e.source, e.target) {
      forall k, l | 0 <= k < l < |r| ensures !Connects(r[l], r[k].source, r[k].target) {
        if l == |edges| {
          assert r[k] == edges[k];
        } else {
          assert r[k] == edges[k] && r[l] == edges[l];
        }
      }
    }
  }

  /** Keeps the edges with no endpoint at `index` (the immediate part of a
      node deletion). */
  function AvoidsNode(index: nat): Edge -> bool {
    (e: Edge) => e.source != index && e.target != index
  }

  /** The edge list right after `deleteNode(index)`: no edge touches `index`,
      every other edge is kept, and the kept ones stay in order. */
  lemma DropIncidentEdges(edges: seq<Edge>, index: nat)
    ensures forall e :: e in Filter(edges, AvoidsNode(index)) ==> e.source != index && e.target != index
    ensures forall e :: e in edges && e.source != index && e.target != index ==> e in Filter(edges, AvoidsNode(index))
    ensures NoDuplicatePairs(edges) ==> NoDuplicatePairs(Filter(edges, AvoidsNode(index)))
  {
    FilterMembers(edges, AvoidsNode(index));
    if NoDuplicatePairs(edges) {
      FilterKeepsNoDuplicates(edges, AvoidsNode(index));
    }
  }

  lemma FilterKeepsNoDuplicates(edges: seq<Edge>, p: Edge -> bool)
    requires NoDuplicatePairs(edges)
    ensures NoDuplicatePairs(Filter(edges, p))
  {
    var ok := (e: Edge, f: Edge) => !Connects(f, e.source, e.target);
    assert Pairwise(edges, ok);
    FilterKeepsPairwise(edges, p, ok);
  }

  /** The first edge joining `a` and `b` (the source's `findIndex`). */
  function FirstJoining(edges: seq<Edge>, a: nat, b: nat): (r: Option<nat>)
    ensures r.Some? ==> r.value < |edges| && Connects(edges[r.value], a, b)
    ensures r.Some? ==> forall k :: 0 <= k < r.value ==> !Connects(edges[k], a, b)
    ensures r.None? <==> !Joined(edges, a, b)
  {
    FindFirst(edges, (e: Edge) => Connects(e, a, b))
  }

  // -------------------------------------------------------- renumbering

  /** Where an endpoint goes when node `index` is spliced out. */
  function Down(v: nat, index: nat): (w: nat)
    ensures v > index ==> w == v - 1
    ensures v <= index ==> w == v
  {
    if v > index then v - 1 else v
  }

  function ShiftEdge(e: Edge, index: nat): Edge {
    e.(source := Down(e.source, index), target := Down(e.target, index))
  }

  /** Every edge with endpoints above `index` moved down by one. */
  function ShiftEdges(edges: seq<Edge>, index: nat): (r: seq<Edge>)
    ensures |r| == |edges|
    ensures forall k :: 0 <= k < |r| ==> r[k] == ShiftEdge(edges[k], index)
  {
    seq(|edges|, k requires 0 <= k < |edges| => ShiftEdge(edges[k], index))
  }

  /** Each node carries its position in the list as its id. */
  predicate DenseIds(nodes: seq<Node>) {
    forall i :: 0 <= i < |nodes| ==> nodes[i].id == i
  }

  /** The survivors re-identified as `0..n-1`, nothing else changed. */
  function Renumbered(nodes: seq<Node>): (r: seq<Node>)
    ensures |r| == |nodes| && DenseIds(r)
    ensures forall i :: 0 <= i < |r| ==> r[i] == nodes[i].(id := i)
  {
    seq(|nodes|, i requires 0 <= i < |nodes| => nodes[i].(id := i))
  }

  /** After the splice and the shift, an edge that did not touch the removed
      node still joins the same two nodes it joined before. */
  lemma ShiftKeepsEndpoints(nodes: seq<Node>, index: nat, e: Edge)
    requires index < |nodes|
    requires e.source < |nodes| && e.target < |nodes|
    requires e.source != index && e.target != index
    ensures var after := Renumbered(RemoveAt(nodes, index));
            var f := ShiftEdge(e, index);
            f.source < |after| && f.target < |after|
            && after[f.source] == nodes[e.source].(id := f.source)
            && after[f.target] == nodes[e.target].(id := f.target)
  {
  }

  /** Shifting keeps edges distinct as long as none of them touches the
      removed index. */
  lemma ShiftKeepsNoDuplicates(edges: seq<Edge>, index: nat)
    requires NoDuplicatePairs(edges)
    requires forall k :: 0 <= k < |edges| ==> edges[k].source != index && edges[k].target != index
    ensures NoDuplicatePairs(ShiftEdges(edges, index))
  {
    var r := ShiftEdges(edges, index);
    forall k, l | 0 <= k < l < |r| ensures !Connects(r[l], r[k].source, r[k].target) {
      if Connects(r[l], r[k].source, r[k].target) {
        DownInjective(edges[l].source, edges[k].source, index);
        DownInjective(edges[l].source, edges[k].target, index);
        DownInjective(edges[l].target, edges[k].source, index);
        DownInjective(edges[l].target, edges[k].target, index);
        assert Connects(edges[l], edges[k].source, edges[k].target);
      }
    }
  }

  lemma DownInjective(a: nat, b: nat, index: nat)
    requires a != index && b != index
    ensures Down(a, index) == Down(b, index) ==> a == b
  {
  }

  // ------------------------------------------------------------- matrix

  /** `e` is drawn far enough to be shown in an `n`-node matrix. */
  predicate Counts(e: Edge, n: nat) {
    e.source < n && e.target < n && e.progress >= MatrixThreshold
  }

  /** Some edge that counts joins `i` and `j`. */
  predicate ShownJoined(edges: seq<Edge>, n: nat, i: nat, j: nat) {
    exists k | 0 <= k < |edges| :: Counts(edges[k], n) && Connects(edges[k], i, j)
  }

  /** The matrix an `n`-node graph with `edges` should show. */
  function MatrixOf(n: nat, edges: seq<Edge>): (m: Matrix)
    ensures |m| == n && forall i :: 0 <= i < n ==> |m[i]| == n
  {
    seq(n, i requires 0 <= i < n => seq(n, j requires 0 <= j < n => if ShownJoined(edges, n, i, j) then 1 else 0))
  }

  /** `m` is an `n` by `n` matrix. */
  predicate IsSquare(m: Matrix, n: nat) {
    |m| == n && forall i :: 0 <= i < n ==> |m[i]| == n
  }

  /** `m` is square, symmetric and holds only 0 and 1. */
  predicate IsAdjacency(m: Matrix) {
    IsSquare(m, |m|)
    && (forall i, j :: 0 <= i < |m| && 0 <= j < |m| ==> m[i][j] == m[j][i])
    && (forall i, j :: 0 <= i < |m| && 0 <= j < |m| ==> m[i][j] == 0 || m[i][j] == 1)
  }

  lemma MatrixOfIsAdjacency(n: nat, edges: seq<Edge>)
    ensures IsAdjacency(MatrixOf(n, edges))
  {
    var m := MatrixOf(n, edges);
    forall i, j | 0 <= i < n && 0 <= j < n ensures m[i][j] == m[j][i] {
      if ShownJoined(edges, n, i, j) {
        var k :| 0 <= k < |edges| && Counts(edges[k], n) && Connects(edges[k], i, j);
        assert Connects(edges[k], j, i);
      }
      if ShownJoined(edges, n, j, i) {
        var k :| 0 <= k < |edges| && Counts(edges[k], n) && Connects(edges[k], j, i);
        assert Connects(edges[k], i, j);
      }
    }
  }

  /** An edge that has just been requested (`progress` 0) does not show: the
      matrix rebuilt right after an animated add is the one from before. */
  lemma FreshEdgeNotShown(n: nat, edges: seq<Edge>, s: nat, t: nat)
    ensures MatrixOf(n, AppendIfNew(edges, Edge(s, t, 0.0, true))) == MatrixOf(n, edges)
  {
    var e := Edge(s, t, 0.0, true);
    var r := AppendIfNew(edges, e);
    forall i, j | 0 <= i < n && 0 <= j < n ensures ShownJoined(r, n, i, j) == ShownJoined(edges, n, i, j) {
      if ShownJoined(r, n, i, j) {
        var k :| 0 <= k < |r| && Counts(r[k], n) && Connects(r[k], i, j);
        assert k < |edges| && r[k] == edges[k];
      }
      if ShownJoined(edges, n, i, j) {
        var k :| 0 <= k < |edges| && Counts(edges[k], n) && Connects(edges[k], i, j);
        assert r[k] == edges[k];
      }
    }
    SameShownSameMatrix(n, r, edges);
  }

  lemma SameShownSameMatrix(n: nat, a: seq<Edge>, b: seq<Edge>)
    requires forall i, j :: 0 <= i < n && 0 <= j < n ==> ShownJoined(a, n, i, j) == ShownJoined(b, n, i, j)
    ensures MatrixOf(n, a) == MatrixOf(n, b)
  {
    forall i | 0 <= i < n ensures MatrixOf(n, a)[i] == MatrixOf(n, b)[i] {
    }
  }

  /** Rebuilds the matrix from the edge list: an `n` by `n` zero matrix with a
      1 at both `[s][t]` and `[t][s]` for every edge whose endpoints are both
      below `n` and whose draw-in has reached the threshold. */
  method BuildMatrix(n: nat, edges: seq<Edge>) returns (m: Matrix)
    ensures IsSquare(m, n)
    ensures forall i, j :: 0 <= i < n && 0 <= j < n ==>
              (m[i][j] == 1 <==> ShownJoined(edges, n, i, j)) && (m[i][j] == 0 <==> !ShownJoined(edges, n, i, j))
    ensures m == MatrixOf(n, edges)
  {
    m := seq(n, _ => seq(n, _ => 0));
    for k := 0 to |edges|
      invariant IsSquare(m, n)
      invariant forall i, j :: 0 <= i < n && 0 <= j < n ==>
                  m[i][j] == if ShownJoined(edges[..k], n, i, j) then 1 else 0
    {
      var e := edges[k];
      if e.source < n && e.target < n {
        if e.progress >= MatrixThreshold {
          m := m[e.source := m[e.source][e.target := 1]];
          m := m[e.target := m[e.target][e.source := 1]];
        }
      }
      forall i, j | 0 <= i < n && 0 <= j < n
        ensures m[i][j] == if ShownJoined(edges[..k + 1], n, i, j) then 1 else 0
      {
        ShownJoinedExtend(edges, k, n, i, j);
      }
    }
    assert edges[..|edges|] == edges;
    forall i | 0 <= i < n ensures m[i] == MatrixOf(n, edges)[i] {
    }
  }

  lemma ShownJoinedExtend(edges: seq<Edge>, k: nat, n: nat, i: nat, j: nat)
    requires k < |edges|
    ensures ShownJoined(edges[..k + 1], n, i, j)
            <==> ShownJoined(edges[..k], n, i, j) || (Counts(edges[k], n) && Connects(edges[k], i, j))
  {
    var p, q := edges[..k], edges[..k + 1];
    if ShownJoined(q, n, i, j) && !(Counts(edges[k], n) && Connects(edges[k], i, j)) {
      var l :| 0 <= l < |q| && Counts(q[l], n) && Connects(q[l], i, j);
      assert l < k && p[l] == q[l];
    }
    if ShownJoined(p, n, i, j) {
      var l :| 0 <= l < |p| && Counts(p[l], n) && Connects(p[l], i, j);
      assert q[l] == p[l];
    }
    if Counts(edges[k], n) && Connects(edges[k], i, j) {
      assert q[k] == edges[k];
    }
  }

  // ------------------------------------------------------------ hit test

  /** The pointer at `(x, y)` is within the selection radius of `node`
      (compared on squared distances, which is the same test). */
  predicate WithinReach(node: Node, x: real, y: real) {
    (node.x - x) * (node.x - x) + (node.y - y) * (node.y - y) <= SelectionRadius * SelectionRadius
  }

  /** The first node, in creation order, within reach of `(x, y)`. */
  function FindNodeAt(nodes: seq<Node>, x: real, y: real): (r: Option<nat>)
    ensures r.Some? ==> r.value < |nodes| && WithinReach(nodes[r.value], x, y)
    ensures r.Some? ==> forall k :: 0 <= k < r.value ==> !WithinReach(nodes[k], x, y)
    ensures r.None? ==> forall k :: 0 <= k < |nodes| ==> !WithinReach(nodes[k], x, y)
  {
    FindFirst(nodes, (n: Node) => WithinReach(n, x, y))
  }

  // ------------------------------------------------------- matrix growth

  function Zeros(n: nat): (r: seq<int>)
    ensures |r| == n && forall k :: 0 <= k < n ==> r[k] == 0
  {
    seq(n, _ => 0)
  }

  function Holes(n: nat): (r: seq<int>)
    ensures |r| == n && forall k :: 0 <= k < n ==> r[k] == Undefined
  {
    seq(n, _ => Undefined)
  }

  /** Reading `row[j]`: past the end a JavaScript array yields `undefined`. */
  function GetCell(row: seq<int>, j: nat): int {
    if j < |row| then row[j] else Undefined
  }

  /** Writing `row[j] = v`: past the end a JavaScript array grows to `j + 1`
      elements, leaving holes between its old end and `j`. */
  function SetCell(row: seq<int>, j: nat, v: int): (r: seq<int>)
    ensures |r| == if j < |row| then |row| else j + 1
    ensures r[j] == v
    ensures forall k :: 0 <= k < |r| && k != j ==> r[k] == GetCell(row, k)
  {
    if j < |row| then row[j := v] else row + Holes(j - |row|) + [v]
  }

  /** The matrix `expandAdjacencyMatrix` leaves when there are `n` nodes. Each
      old row gets zero columns appended; each new row `i` starts as `|M|`
      zeros and only its diagonal cell is written, which leaves holes when
      `i > |M|`. So the result is square only when `n` is `|M|` or `|M| + 1`. */
  function Expanded(M: Matrix, n: nat): (r: Matrix)
    ensures |r| == if n <= |M| then |M| else n
    ensures forall i :: 0 <= i < |M| ==> M[i] <= r[i]
    ensures forall i :: |M| <= i < n ==> |r[i]| == i + 1
  {
    var m := |M|;
    if n <= m then M
    else
      var r := seq(n, i requires 0 <= i < n => if i < m then M[i] + Zeros(n - m) else Zeros(m) + Holes(i - m) + [0]);
      assert forall i :: m <= i < n ==> r[i] == Zeros(m) + Holes(i - m) + [0];
      r
  }

  /** Growing a square matrix by exactly one node gives a square matrix with
      the old cells kept and a zero last row and column. */
  lemma ExpandedByOne(M: Matrix, m: nat)
    requires IsSquare(M, m)
    ensures var E := Expanded(M, m + 1);
            IsSquare(E, m + 1)
            && (forall i, j :: 0 <= i < m && 0 <= j < m ==> E[i][j] == M[i][j])
            && (forall k :: 0 <= k <= m ==> E[m][k] == 0 && E[k][m] == 0)
  {
    var E := Expanded(M, m + 1);
    assert E[m] == Zeros(m) + Holes(0) + [0];
    forall k | 0 <= k < m ensures E[k] == M[k] + Zeros(1) {
    }
  }

  /** Growing by two or more nodes does not give a square matrix: the first
      new row is one cell longer than the old size. */
  lemma ExpandedByMore(M: Matrix, n: nat)
    requires n >= |M| + 2
    ensures |Expanded(M, n)| == n && |Expanded(M, n)[|M|]| == |M| + 1 < n
  {
    assert Expanded(M, n)[|M|] == Zeros(|M|) + Holes(0) + [0];
  }

  /** Row `i` of the growing matrix once columns `|M|..j-1` are done. */
  ghost function RowSoFar(M: Matrix, i: nat, j: nat): seq<int>
    requires |M| <= j
  {
    var m := |M|;
    if i < m then M[i] + Zeros(j - m)
    else if i < j then Zeros(m) + Holes(i - m) + [0]
    else Zeros(m)
  }

  /** The two loops of `expandAdjacencyMatrix`, on a copy of the matrix. */
  method GrowMatrix(M: Matrix, n: nat) returns (r: Matrix)
    ensures r == Expanded(M, n)
    ensures n <= |M| ==> r == M
    ensures n > |M| ==> |r| == n && forall i :: 0 <= i < |M| ==> r[i][..|M[i]|] == M[i]
  {
    var m := |M|;
    r := M;
    if n > m {
      for i := m to n
        invariant |r| == i && r[..m] == M
        invariant forall k :: m <= k < i ==> r[k] == Zeros(m)
      {
        r := r + [Zeros(m)];
      }
      for i := 0 to n
        invariant |r| == n
        invariant forall k :: 0 <= k < i ==> r[k] == Expanded(M, n)[k]
        invariant forall k :: i <= k < n ==> r[k] == if k < m then M[k] else Zeros(m)
      {
        ghost var before := r;
        for j := m to n
          invariant |r| == n
          invariant forall k :: 0 <= k < n && k != i ==> r[k] == before[k]
          invariant r[i] == RowSoFar(M, i, j)
        {
          if i == j {
            r := r[i := SetCell(r[i], j, 0)];
          } else if i < m {
            r := r[i := r[i] + [0]];
          }
        }
      }
    }
  }

  // -------------------------------------------------- matrix cell edits

  /** The value a matrix cell edit settles on: 0 stays 0, anything else
      (including a missing cell) becomes 1. */
  function Normalized(M: Matrix, i: nat, j: nat): (v: int)
    requires i < |M|
    ensures v == 0 || v == 1
    ensures v == 0 <==> GetCell(M[i], j) == 0
  {
    if GetCell(M[i], j) == 0 then 0 else 1
  }

  /** `matrix[i][j]` normalised and copied to `matrix[j][i]`. */
  function WriteMirrored(M: Matrix, i: nat, j: nat): (r: Matrix)
    requires i < |M| && j < |M|
    ensures |r| == |M|
    ensures GetCell(r[i], j) == Normalized(M, i, j) && GetCell(r[j], i) == Normalized(M, i, j)
    ensures forall k :: 0 <= k < |M| && k != i && k != j ==> r[k] == M[k]
  {
    var v := Normalized(M, i, j);
    var written := M[i := SetCell(M[i], j, v)];
    written[j := SetCell(written[j], i, GetCell(written[i], j))]
  }

  /** On a square 0/1 symmetric matrix the edit keeps the matrix square,
      0/1 and symmetric, and touches no cell but `[i][j]` and `[j][i]`. */
  lemma WriteMirroredKeepsAdjacency(M: Matrix, i: nat, j: nat)
    requires IsAdjacency(M) && i < |M| && j < |M|
    ensures var r := WriteMirrored(M, i, j);
            IsAdjacency(r)
            && forall a, b :: 0 <= a < |M| && 0 <= b < |M| && !(a == i && b == j) && !(a == j && b == i) ==> r[a][b] == M[a][b]
  {
    var r := WriteMirrored(M, i, j);
    var v := Normalized(M, i, j);
    assert r[i][j] == v && r[j][i] == v;
    forall a | 0 <= a < |M| ensures |r[a]| == |M| {
    }
  }
}
