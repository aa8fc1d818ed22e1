/** The in-memory half of importing an adjacency matrix into the colouring
    editor: checking the shape of the parsed JSON, forcing the matrix
    symmetric, and the list of node pairs that become edges. */
module ColoringImport {
  import opened Common
  import opened ColoringModel

  /** One element of the parsed top-level array: an array of cells, or any
      other JSON value. Cells are JSON values encoded as in `Matrix`. */
  datatype ParsedRow = NonArrayRow | Row(cells: seq<int>)

  /** The parsed file: a top-level array, or any other JSON value. */
  datatype Parsed = NonArray | Rows(rows: seq<ParsedRow>)

  /** The two messages an import can leave in the editor's `error` field. */
  datatype ImportError =
    | InvalidFormat  // not an array of arrays
    | NotSquare      // some row's length differs from the number of rows

  /** Checks that the file holds an array of arrays, then that it is square. */
  function ValidateImport(p: Parsed): (r: Result<Matrix, ImportError>)
    ensures r == Err(InvalidFormat) <==> p.NonArray? || exists k | 0 <= k < |p.rows| :: p.rows[k].NonArrayRow?
    ensures r == Err(NotSquare) <==>
              && p.Rows? && (forall k | 0 <= k < |p.rows| :: p.rows[k].Row?)
              && exists k | 0 <= k < |p.rows| :: |p.rows[k].cells| != |p.rows|
    ensures r.Ok? ==> p.Rows? && IsSquare(r.value, |p.rows|)
                      && forall k :: 0 <= k < |p.rows| ==> p.rows[k] == Row(r.value[k])
  {
    match p
    case NonArray => Err(InvalidFormat)
    case Rows(rows) =>
      if exists k | 0 <= k < |rows| :: rows[k].NonArrayRow? then Err(InvalidFormat)
      else if exists k | 0 <= k < |rows| :: |rows[k].cells| != |rows| then Err(NotSquare)
      else Ok(seq(|rows|, k requires 0 <= k < |rows| => rows[k].cells))
  }

  /** Every cell equals its mirror (the source compares with `===`). */
  predicate IsSymmetric(M: Matrix)
    requires IsSquare(M, |M|)
  {
    forall i, j :: 0 <= i < |M| && 0 <= j < |M| ==> M[i][j] == M[j][i]
  }

  /** The OR of a cell and its mirror, written as 0 or 1. */
  function OrCell(M: Matrix, i: nat, j: nat): int
    requires IsSquare(M, |M|) && i < |M| && j < |M|
  {
    if M[i][j] == 1 || M[j][i] == 1 then 1 else 0
  }

  /** The repaired matrix: off the diagonal each cell and its mirror become 1
      when either of them was 1 and 0 otherwise; the diagonal is kept. */
  function OrFixed(M: Matrix): (r: Matrix)
    requires IsSquare(M, |M|)
    ensures IsSquare(r, |M|)
  {
    seq(|M|, i requires 0 <= i < |M| =>
      seq(|M|, j requires 0 <= j < |M| => if i == j then M[i][i] else OrCell(M, i, j)))
  }

  /** The repair yields a symmetric matrix that is 0/1 off the diagonal and
      keeps every 1 of the input. */
  lemma OrFixedProperties(M: Matrix)
    requires IsSquare(M, |M|)
    ensures IsSymmetric(OrFixed(M))
    ensures forall i, j :: 0 <= i < |M| && 0 <= j < |M| && i != j ==>
              (OrFixed(M)[i][j] == 1 <==> M[i][j] == 1 || M[j][i] == 1)
              && (OrFixed(M)[i][j] == 0 <==> M[i][j] != 1 && M[j][i] != 1)
    ensures forall i :: 0 <= i < |M| ==> OrFixed(M)[i][i] == M[i][i]
  {
  }

  /** Whether `(a, b)`, `a != b`, has been visited by the repair loops once
      they reached row `i`, column `j`. */
  ghost predicate Visited(a: nat, b: nat, i: nat, j: nat) {
    var hi := if a < b then b else a;
    var lo := if a < b then a else b;
    hi < i || (hi == i && lo < j)
  }

  /** The loops of the import that make the matrix symmetric: left alone when
      it already is, repaired by `OrFixed` otherwise. */
  method Symmetrize(M: Matrix) returns (r: Matrix)
    requires IsSquare(M, |M|)
    ensures IsSquare(r, |M|) && IsSymmetric(r)
    ensures r == if IsSymmetric(M) then M else OrFixed(M)
  {
    var n := |M|;
    r := M;
    if !IsSymmetric(M) {
      for i := 0 to n
        invariant IsSquare(r, n)
        invariant forall a, b :: 0 <= a < n && 0 <= b < n ==>
                    r[a][b] == if a != b && Visited(a, b, i, 0) then OrCell(M, a, b) else M[a][b]
      {
        for j := 0 to i
          invariant IsSquare(r, n)
          invariant forall a, b :: 0 <= a < n && 0 <= b < n ==>
                      r[a][b] == if a != b && Visited(a, b, i, j) then OrCell(M, a, b) else M[a][b]
        {
          var value := if r[i][j] == 1 || r[j][i] == 1 then 1 else 0;
          r := r[i := r[i][j := value]];
          r := r[j := r[j][i := value]];
        }
      }
      forall a | 0 <= a < n ensures r[a] == OrFixed(M)[a] {
      }
    }
    OrFixedProperties(M);
  }

  // ------------------------------------------------- edges from a matrix

  /** Row `i`'s pairs `(i, b)` with `i < b < j` and a 1 at `[i][b]`, by `b`. */
  function RowPairs(M: Matrix, i: nat, j: nat): (r: seq<(nat, nat)>)
    requires IsSquare(M, |M|) && i < |M| && j <= |M|
    decreases j
  {
    if j <= i + 1 then []
    else RowPairs(M, i, j - 1) + (if M[i][j - 1] == 1 then [(i, j - 1)] else [])
  }

  /** The pairs of rows `0..i-1`, row by row. */
  function PairsBefore(M: Matrix, i: nat): (r: seq<(nat, nat)>)
    requires IsSquare(M, |M|) && i <= |M|
  {
    if i == 0 then [] else PairsBefore(M, i - 1) + RowPairs(M, i - 1, |M|)
  }

  /** The pairs the import turns into edges, in the order it adds them. */
  function ImportPairs(M: Matrix): seq<(nat, nat)>
    requires IsSquare(M, |M|)
  {
    PairsBefore(M, |M|)
  }

  lemma {:induction false} RowPairsMembers(M: Matrix, i: nat, j: nat)
    requires IsSquare(M, |M|) && i < |M| && j <= |M|
    ensures forall p :: p in RowPairs(M, i, j) ==> p.0 == i && i < p.1 < j && M[i][p.1] == 1
    ensures forall p: (nat, nat) :: p.0 == i && i < p.1 < j && M[i][p.1] == 1 ==> p in RowPairs(M, i, j)
    decreases j
  {
    if j > i + 1 {
      var before := RowPairs(M, i, j - 1);
      assert RowPairs(M, i, j) == before + (if M[i][j - 1] == 1 then [(i, j - 1)] else []);
      RowPairsMembers(M, i, j - 1);
    }
  }

  lemma {:induction false} PairsBeforeMembers(M: Matrix, i: nat)
    requires IsSquare(M, |M|) && i <= |M|
    ensures forall p :: p in PairsBefore(M, i) ==> p.0 < i && p.0 < p.1 < |M| && M[p.0][p.1] == 1
    ensures forall p: (nat, nat) :: p.0 < i && p.0 < p.1 < |M| && M[p.0][p.1] == 1 ==> p in PairsBefore(M, i)
  {
    if i > 0 {
      var earlier, row := PairsBefore(M, i - 1), RowPairs(M, i - 1, |M|);
      assert PairsBefore(M, i) == earlier + row;
      PairsBeforeMembers(M, i - 1);
      RowPairsMembers(M, i - 1, |M|);
      forall p: (nat, nat) | p in earlier + row ensures p.0 < i && p.0 < p.1 < |M| && M[p.0][p.1] == 1 {
        if p !in earlier {
          assert p in row;
        }
      }
      forall p: (nat, nat) | p.0 < i && p.0 < p.1 < |M| && M[p.0][p.1] == 1 ensures p in earlier + row {
        if p.0 < i - 1 {
          assert p in earlier;
        } else {
          assert p in row;
        }
      }
    }
  }

  /** A pair is imported exactly when it lies above the diagonal and holds 1. */
  lemma ImportPairsMembers(M: Matrix)
    requires IsSquare(M, |M|)
    ensures forall p :: p in ImportPairs(M) <==> p.0 < p.1 < |M| && M[p.0][p.1] == 1
  {
    PairsBeforeMembers(M, |M|);
  }

  /** The settled nodes an import places at the given positions, with
      consecutive ids from `first`. */
  function PlacedNodes(first: nat, xs: seq<real>, ys: seq<real>): seq<Node>
    requires |xs| == |ys|
  {
    seq(|xs|, k requires 0 <= k < |xs| => Node(first + k, xs[k], ys[k], None, false, 1.0, 1.0))
  }

  /** The edge `addEdgeWithAnimation` appends for a pair. */
  function AnimatedEdge(p: (nat, nat)): Edge {
    Edge(p.0, p.1, 0.0, true)
  }

  /** The edge list after `addEdgeWithAnimation` for each pair in turn: the
      adds only append, at most one edge per pair. */
  function AddAll(edges: seq<Edge>, pairs: seq<(nat, nat)>): (r: seq<Edge>)
    ensures edges <= r
    ensures |r| <= |edges| + |pairs|
  {
    if pairs == [] then edges
    else AppendIfNew(AddAll(edges, pairs[..|pairs| - 1]), AnimatedEdge(pairs[|pairs| - 1]))
  }

  lemma AddAllSnoc(edges: seq<Edge>, pairs: seq<(nat, nat)>, p: (nat, nat))
    ensures AddAll(edges, pairs + [p]) == AppendIfNew(AddAll(edges, pairs), AnimatedEdge(p))
  {
    assert (pairs + [p])[..|pairs|] == pairs;
  }

  /** Adding `a` and then `b` is adding `a + b`. */
  lemma {:induction false} AddAllAppend(edges: seq<Edge>, a: seq<(nat, nat)>, b: seq<(nat, nat)>)
    ensures AddAll(edges, a + b) == AddAll(AddAll(edges, a), b)
  {
    if b == [] {
      assert a + b == a;
    } else {
      var b' := b[..|b| - 1];
      assert (a + b)[..|a + b| - 1] == a + b';
      assert (a + b)[|a + b| - 1] == b[|b| - 1];
      AddAllAppend(edges, a, b');
    }
  }

  /** What adding a list of pairs does: every pair ends up joined, every edge
      is an old one or the edge of some pair, and no pair is joined twice. */
  lemma {:induction false} AddAllProperties(edges: seq<Edge>, pairs: seq<(nat, nat)>)
    ensures forall p :: p in pairs ==> Joined(AddAll(edges, pairs), p.0, p.1)
    ensures forall e :: e in AddAll(edges, pairs) ==> e in edges || exists p :: p in pairs && e == AnimatedEdge(p)
    ensures NoDuplicatePairs(edges) ==> NoDuplicatePairs(AddAll(edges, pairs))
  {
    if pairs != [] {
      var init, last := pairs[..|pairs| - 1], pairs[|pairs| - 1];
      assert pairs == init + [last];
      AddAllProperties(edges, init);
      var before := AddAll(edges, init);
      var after := AddAll(edges, pairs);
      assert after == AppendIfNew(before, AnimatedEdge(last));
      forall p | p in pairs ensures Joined(after, p.0, p.1) {
        if p in init {
          var k :| 0 <= k < |before| && Connects(before[k], p.0, p.1);
          assert after[k] == before[k];
        }
      }
      forall e | e in after ensures e in edges || exists p :: p in pairs && e == AnimatedEdge(p) {
        if e !in before {
          assert e == AnimatedEdge(last);
        } else if e !in edges {
          var p :| p in init && e == AnimatedEdge(p);
          assert p in pairs;
        }
      }
      if NoDuplicatePairs(edges) {
        AppendIfNewKeepsNoDuplicates(before, AnimatedEdge(last));
      }
    }
  }

  /** Importing into an empty edge list gives one edge for each 1 above the
      diagonal, oriented from the smaller index, and nothing else. */
  lemma ImportedEdges(M: Matrix)
    requires IsSquare(M, |M|)
    ensures var r := AddAll([], ImportPairs(M));
            && NoDuplicatePairs(r)
            && (forall e :: e in r ==> e.source < e.target < |M| && M[e.source][e.target] == 1
                                        && e.progress == 0.0)
            && (forall i, j :: 0 <= i < j < |M| && M[i][j] == 1 ==> Joined(r, i, j))
  {
    ImportPairsMembers(M);
    AddAllProperties([], ImportPairs(M));
    forall i, j | 0 <= i < j < |M| && M[i][j] == 1 ensures Joined(AddAll([], ImportPairs(M)), i, j) {
      assert (i, j) in ImportPairs(M);
    }
  }
}
