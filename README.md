# Graph editors of a graph-colouring and maximum-flow front end, in Dafny

The browser front end sends graphs to a remote service that colours them
or computes a maximum flow. It has two interactive graph editors. This
project models and verifies the in-memory state of both.

- **Graph colouring editor.** It keeps a list of nodes whose ids are their
  positions, a list of undirected edges and an adjacency matrix derived
  from the edges. Pointer presses act according to a mode (`add`,
  `delete`, `connect`, `move`). Nodes and edges enter and leave through
  animations. Matrix cells can be edited, and a matrix can be imported
  from a file.
- **Max-flow editor.** Its nodes have stable ids, allocated as one past
  the largest id in use. Its edges are directed, and each has a capacity
  and, after a computation, a flow. The editor keeps a source and a sink
  marker and a six-way mode. It checks that a computation can start,
  builds the request body and merges the returned flows onto the edges.

Files:

- `common.dfy` (module `Common`) holds `Option`/`Result` and
  `Filter`/`FindFirst`/`RemoveAt`. These are JavaScript's `filter`,
  `findIndex`/`some`, and `splice(index, 1)`, including `splice` past
  the end.
- `text.dfy` (module `Text`) holds the decimal `toString` of an integer
  and `parseInt(s, 10)`.
- `coloring_model.dfy` (module `ColoringModel`) holds the colouring
  editor's values and pure functions:
  - edge addition without duplicates;
  - the renumbering after a node removal;
  - the matrix rebuilt from the edges;
  - matrix growth, including JavaScript's holes for writes past the end;
  - the normalising cell write;
  - the node hit test.
- `coloring_import.dfy` (module `ColoringImport`) covers checking a parsed
  matrix file, making it symmetric, and listing the pairs that become
  edges.
- `coloring_editor.dfy` (module `ColoringEditor`) holds the class
  `GraphColoringEditor`. Its `seq` fields are updated by methods that run
  the component's loops.
- `maxflow_model.dfy` (module `MaxFlowModel`) holds the max-flow values
  and the functions behind each list replacement:
  - id allocation;
  - edge ids and request keys (both proved injective);
  - direction-sensitive edge addition;
  - deletion by id;
  - capacity parsing;
  - the request body;
  - the flow merge.
- `maxflow_editor.dfy` (module `MaxFlowEditor`) holds the class
  `FlowGraphEditor`, with the component's fields and handlers.

Animations run on timers in the component. The model keeps only what an
animation commits when it finishes:

- A pointer press that starts an exit animation returns a `Pending` value.
- `CompleteNodeRemoval` and `CompleteEdgeRemoval` apply what the end of
  the node's or the edge's exit animation does.
- An animated add stores its edge at `progress` 0 or its node at
  `scale`/`opacity` 0. The rise to 1 is not modelled.

Matrix cells hold JavaScript values, written as integers: 0 and 1 stand
for themselves, `Undefined` (-1) for a hole, and other integers for any
other value.

Where the code differs from what one might expect, the model follows the
code:

- Neither `addEdge` nor `matrixValueChanged(i, i)` rejects a self-loop.
- `expandAdjacencyMatrix` gives a square matrix only when the node count
  grows by exactly one (`ExpandedByOne`, `ExpandedByMore`).
- `addEdgeWithAnimation` rebuilds the matrix while the new edge is still
  at progress 0. Setting a cell to 1 for a pair with no edge therefore
  leaves that cell at 0 (`FreshEdgeNotShown`, the last ensures of
  `MatrixValueChanged`).
- Max-flow duplicate detection looks at one direction only. When
  `b -> a` is absent, adding `a -> b` and then `b -> a` always yields
  both edges (`AddDirectedBothWays`).
- Adding a max-flow edge does not clear the result.
- Nothing stops the source and the sink from being the same node.

## Model

Source paths are relative to the repository root.

| member | source | states |
|---|---|---|
| Common.FilterMembers | front/src/app/components/max-flow/max-flow.component.ts:715-718 | The survivors are exactly the elements satisfying the predicate: every survivor satisfies it and came from the list, and every element that satisfies it survives. |
| Common.FilterAppend | front/src/app/components/grap-colouring/grap-colouring.component.ts:653-655 | Filtering distributes over concatenation, so the kept elements stay in their original order. |
| Common.FilterKeepsAll | front/src/app/components/max-flow/max-flow.component.ts:733 | When no element is rejected, filtering returns the list unchanged. |
| Common.FilterRejectsOne | front/src/app/components/max-flow/max-flow.component.ts:733 | When exactly one element is rejected, filtering is the same as splicing out that element. |
| Common.FilterKeepsPairwise | front/src/app/components/max-flow/max-flow.component.ts:715-718 | Any relation that holds between each element and every later one still holds after filtering. |
| Common.FindFirst | front/src/app/components/grap-colouring/grap-colouring.component.ts:754-758 | Returns the least index whose element satisfies the predicate, or none when no element does. |
| Common.RemoveAt | front/src/app/components/grap-colouring/grap-colouring.component.ts:668 | `splice(index, 1)`: elements before the index are kept, later ones shift down by one, and an index past the end removes nothing. |
| Text.NatToString | front/src/app/components/max-flow/max-flow.component.ts:202 | The decimal form is non-empty, all digits, and starts with 0 only for 0. |
| Text.IntToString | front/src/app/components/max-flow/max-flow.component.ts:243 | The decimal form of an integer: a leading minus exactly for negatives, and digits everywhere after the first character. |
| Text.NatToStringValue | front/src/app/components/max-flow/max-flow.component.ts:202 | Reading the digits back gives the number. |
| Text.IntToStringInjective | front/src/app/components/max-flow/max-flow.component.ts:243 | Different integers have different decimal forms. |
| Text.ParseInt | front/src/app/components/max-flow/max-flow.component.ts:552 | `parseInt(s, 10)`: the empty string reads as NaN, and a string that starts with a digit reads as a non-negative number. |
| Text.ParseIntSkipsWhiteSpace | front/src/app/components/max-flow/max-flow.component.ts:552 | `parseInt` skips leading white space. |
| Text.ParseIntWithoutDigits | front/src/app/components/max-flow/max-flow.component.ts:552 | A string without any digit parses to NaN. |
| Text.ParseIntOfDigits | front/src/app/components/max-flow/max-flow.component.ts:552 | A non-empty run of digits parses to its decimal value. |
| Text.ParseIntOfNegative | front/src/app/components/max-flow/max-flow.component.ts:552 | A minus sign followed by a run of digits worth v parses to -v. |
| Text.ParseIntOfNatToString | front/src/app/components/max-flow/max-flow.component.ts:552 | `parseInt` reads back the decimal form of every natural number. |
| Text.ParseIntOfNegativeToString | front/src/app/components/max-flow/max-flow.component.ts:552 | `parseInt` reads back the decimal form of every negative integer. |
| Text.ParseIntOfIntToString | front/src/app/components/max-flow/max-flow.component.ts:552 | `parseInt` reads back every integer that `toString` writes. |
| ColoringModel.AppendIfNew | front/src/app/components/grap-colouring/grap-colouring.component.ts:736-749 | If the pair is already joined in either order, the list is unchanged. Otherwise exactly the new edge is appended and every earlier edge is kept. Either way the pair ends up joined. |
| ColoringModel.AppendIfNewTwice | front/src/app/components/grap-colouring/grap-colouring.component.ts:694-699 | Asking for the same pair again, in either order, adds nothing. |
| ColoringModel.AppendIfNewKeepsNoDuplicates | front/src/app/components/grap-colouring/grap-colouring.component.ts:736-749 | Adding through the duplicate check never joins a pair twice. |
| ColoringModel.DropIncidentEdges | front/src/app/components/grap-colouring/grap-colouring.component.ts:653-655 | After the immediate part of a node deletion, no edge touches the node and every other edge is kept. A list without duplicate pairs stays without them. |
| ColoringModel.FilterKeepsNoDuplicates | front/src/app/components/grap-colouring/grap-colouring.component.ts:653-655 | Filtering an edge list without duplicate pairs leaves none. |
| ColoringModel.FirstJoining | front/src/app/components/grap-colouring/grap-colouring.component.ts:754-758 | The first edge joining the pair in either order. It is absent exactly when no edge joins them. |
| ColoringModel.Down | front/src/app/components/grap-colouring/grap-colouring.component.ts:677-678 | An endpoint above the removed index drops by one, and any other endpoint is unchanged. |
| ColoringModel.ShiftEdges | front/src/app/components/grap-colouring/grap-colouring.component.ts:676-679 | Every edge has both endpoints shifted, and nothing else changes. |
| ColoringModel.Renumbered | front/src/app/components/grap-colouring/grap-colouring.component.ts:671-673 | The survivors get ids `0..n-1`, with every other field unchanged. |
| ColoringModel.ShiftKeepsEndpoints | front/src/app/components/grap-colouring/grap-colouring.component.ts:668-679 | After the splice, the renumbering and the shift, an edge that did not touch the removed node joins the same two nodes as before. |
| ColoringModel.ShiftKeepsNoDuplicates | front/src/app/components/grap-colouring/grap-colouring.component.ts:676-679 | The shift creates no duplicate pairs when no edge touches the removed index. |
| ColoringModel.MatrixOf | front/src/app/components/grap-colouring/grap-colouring.component.ts:788-808 | The matrix the edges should produce is n by n. |
| ColoringModel.MatrixOfIsAdjacency | front/src/app/components/grap-colouring/grap-colouring.component.ts:788-808 | The rebuilt matrix is square, symmetric and 0/1. |
| ColoringModel.FreshEdgeNotShown | front/src/app/components/grap-colouring/grap-colouring.component.ts:701-730 | Rebuilding right after an animated add gives the matrix from before the add, because an edge at progress 0 is not shown. |
| ColoringModel.BuildMatrix | front/src/app/components/grap-colouring/grap-colouring.component.ts:788-808 | The rebuild loop gives an n-by-n matrix. A cell is 1 exactly when some edge with both ends below n and progress at least 0.5 joins the pair, and 0 otherwise. |
| ColoringModel.FindNodeAt | front/src/app/components/grap-colouring/grap-colouring.component.ts:458-474 | Returns the first node, in list order, within 30 units of the point, or none when no node is that close. |
| ColoringModel.SetCell | front/src/app/components/grap-colouring/grap-colouring.component.ts:1534 | A JavaScript array write: the cell gets the value, other cells keep theirs, and a write past the end leaves holes. |
| ColoringModel.Expanded | front/src/app/components/grap-colouring/grap-colouring.component.ts:1517-1542 | The grown matrix has max(rows, node count) rows. Each old row keeps its cells as a prefix, and each new row i has length i + 1. |
| ColoringModel.ExpandedByOne | front/src/app/components/grap-colouring/grap-colouring.component.ts:1517-1542 | Growing a square m-by-m matrix for m+1 nodes gives an (m+1)-square matrix with the old cells kept and a zero last row and column. |
| ColoringModel.ExpandedByMore | front/src/app/components/grap-colouring/grap-colouring.component.ts:1524-1540 | Growing by two or more nodes leaves the first new row shorter than the node count, so the matrix is not square. |
| ColoringModel.GrowMatrix | front/src/app/components/grap-colouring/grap-colouring.component.ts:1517-1542 | The two loops of the growth compute `Expanded`. Nothing changes when there are no more nodes than rows, and each old row keeps its cells as a prefix. |
| ColoringModel.Normalized | front/src/app/components/grap-colouring/grap-colouring.component.ts:813 | The edited value is 0 or 1, and it is 0 exactly when the cell held 0. |
| ColoringModel.WriteMirrored | front/src/app/components/grap-colouring/grap-colouring.component.ts:813-816 | The cell and its mirror both read the normalised value, and every other row is untouched. |
| ColoringModel.WriteMirroredKeepsAdjacency | front/src/app/components/grap-colouring/grap-colouring.component.ts:813-816 | On a symmetric 0/1 square matrix the edit keeps it symmetric, 0/1 and square, and changes no other cell. |
| ColoringImport.ValidateImport | front/src/app/components/grap-colouring/grap-colouring.component.ts:1439-1451 | Gives the format error exactly when the file is not an array of arrays. Gives the squareness error exactly when it is one but some row's length differs from the row count. Otherwise gives the square matrix itself. |
| ColoringImport.OrFixed | front/src/app/components/grap-colouring/grap-colouring.component.ts:1459-1467 | The OR repair of a square matrix is square of the same size. |
| ColoringImport.OrFixedProperties | front/src/app/components/grap-colouring/grap-colouring.component.ts:1459-1467 | The repaired matrix is symmetric. Off the diagonal a cell is 1 exactly when the cell or its mirror was 1, and 0 otherwise. The diagonal is kept. |
| ColoringImport.Symmetrize | front/src/app/components/grap-colouring/grap-colouring.component.ts:1454-1467 | The result is symmetric. It is the input when that was symmetric, and the OR-repaired matrix otherwise. |
| ColoringImport.RowPairsMembers | front/src/app/components/grap-colouring/grap-colouring.component.ts:1490-1494 | Row i's pairs are exactly `(i, b)` for `i < b < j` with a 1 at `[i][b]`. |
| ColoringImport.PairsBeforeMembers | front/src/app/components/grap-colouring/grap-colouring.component.ts:1489-1495 | The pairs of the first i rows are exactly the 1-cells above the diagonal in those rows. |
| ColoringImport.ImportPairsMembers | front/src/app/components/grap-colouring/grap-colouring.component.ts:1489-1495 | A pair becomes an edge exactly when it lies above the diagonal and holds 1. |
| ColoringImport.AddAll | front/src/app/components/grap-colouring/grap-colouring.component.ts:1489-1495 | The sequence of duplicate-checked animated adds only appends to the old list, at most one edge per pair. |
| ColoringImport.AddAllSnoc | front/src/app/components/grap-colouring/grap-colouring.component.ts:1492 | Adding one more pair means one more duplicate-checked animated add. |
| ColoringImport.AddAllAppend | front/src/app/components/grap-colouring/grap-colouring.component.ts:1489-1495 | Adding the pairs of one list and then those of another gives the same edges as adding the pairs of both lists joined. |
| ColoringImport.AddAllProperties | front/src/app/components/grap-colouring/grap-colouring.component.ts:1489-1495 | After the adds every pair is joined. Every edge is an old one or the edge of a pair. No pair is joined twice when none was before. |
| ColoringImport.ImportedEdges | front/src/app/components/grap-colouring/grap-colouring.component.ts:1489-1495 | Starting from no edges, the import yields one edge per 1-cell above the diagonal, from the smaller index, at progress 0, and no other edge. |
| ColoringEditor.FirstDragging | front/src/app/components/grap-colouring/grap-colouring.component.ts:426-433 | Returns the first node, in list order, that is being dragged, or none. |
| ColoringEditor.GraphColoringEditor.constructor | front/src/app/components/grap-colouring/grap-colouring.component.ts:122-138 | Starts with empty lists and matrix, move mode, no pending connection, no drag, zoom 1 and no error. |
| ColoringEditor.GraphColoringEditor.ExpandAdjacencyMatrix | front/src/app/components/grap-colouring/grap-colouring.component.ts:1517-1542 | The matrix becomes `Expanded(old matrix, node count)`. |
| ColoringEditor.GraphColoringEditor.UpdateAdjacencyMatrix | front/src/app/components/grap-colouring/grap-colouring.component.ts:788-808 | The matrix becomes `MatrixOf(node count, edges)`, which is square, symmetric, 0/1 and sized to the node count. |
| ColoringEditor.GraphColoringEditor.AddNode | front/src/app/components/grap-colouring/grap-colouring.component.ts:635-649 | Appends a settled node whose id is the old node count, keeps ids dense, and grows the matrix. |
| ColoringEditor.GraphColoringEditor.AddNodeWithAnimation | front/src/app/components/grap-colouring/grap-colouring.component.ts:601-633 | Appends a node at scale and opacity 0 whose id is the old node count, keeps ids dense, and grows the matrix. |
| ColoringEditor.GraphColoringEditor.DeleteNode | front/src/app/components/grap-colouring/grap-colouring.component.ts:651-655 | Removes exactly the edges touching the node, keeping the rest in order. The node itself stays. |
| ColoringEditor.GraphColoringEditor.CompleteNodeRemoval | front/src/app/components/grap-colouring/grap-colouring.component.ts:668-682 | Splices out the node, renumbers the survivors to `0..n-1` and shifts endpoints above the index down by one. The matrix is rebuilt, and ids stay dense. |
| ColoringEditor.GraphColoringEditor.AddEdge | front/src/app/components/grap-colouring/grap-colouring.component.ts:734-750 | Appends a settled edge only if no edge joins the pair in either order. Otherwise the list is unchanged. |
| ColoringEditor.GraphColoringEditor.AddEdgeWithAnimation | front/src/app/components/grap-colouring/grap-colouring.component.ts:692-732 | Appends an edge at progress 0 only for a new pair and then rebuilds a matrix that does not show it yet. An existing pair changes nothing. |
| ColoringEditor.GraphColoringEditor.DeleteEdge | front/src/app/components/grap-colouring/grap-colouring.component.ts:752-785 | Finds the first edge joining the pair, highlights it and reports its index as pending. When there is none, nothing changes. |
| ColoringEditor.GraphColoringEditor.CompleteEdgeRemoval | front/src/app/components/grap-colouring/grap-colouring.component.ts:768-773 | Splices out the edge at the recorded index and rebuilds the matrix. |
| ColoringEditor.GraphColoringEditor.MatrixValueChanged | front/src/app/components/grap-colouring/grap-colouring.component.ts:811-833 | Writes the normalised cell and its mirror. At 1 it adds the edge if the pair was not joined (and the rebuild then shows the cell as 0) or leaves everything else alone if it was. At 0 it starts deleting the first joining edge. |
| ColoringEditor.GraphColoringEditor.SetMode | front/src/app/components/grap-colouring/grap-colouring.component.ts:856-859 | Sets the mode and always drops a pending connection. |
| ColoringEditor.GraphColoringEditor.ProcessPointerDown | front/src/app/components/grap-colouring/grap-colouring.component.ts:372-416 | Dispatches on the first node within reach, then on the mode. In delete mode a hit node's edges go and its removal is pending. In connect mode the first click arms the connection, and a second click on another node adds the edge and rebuilds; any second click or an empty click disarms. In move mode a hit node starts dragging. On empty space: delete mode with an edge hit starts that edge's removal, add mode appends a node with the next index and rebuilds, and move mode starts a canvas drag. |
| ColoringEditor.GraphColoringEditor.ProcessPointerMove | front/src/app/components/grap-colouring/grap-colouring.component.ts:418-448 | The first dragged node moves to the pointer. Otherwise a canvas drag pans by the screen delta over the zoom and records the pointer. |
| ColoringEditor.GraphColoringEditor.ProcessPointerUp | front/src/app/components/grap-colouring/grap-colouring.component.ts:450-456 | Every node stops dragging, with nothing else changed, and the canvas drag ends, whatever the mode. |
| ColoringEditor.GraphColoringEditor.ImportMatrix | front/src/app/components/grap-colouring/grap-colouring.component.ts:1439-1467 | A bad shape sets the matching error and loads nothing. A good one yields the symmetrised matrix and leaves the graph alone. |
| ColoringEditor.GraphColoringEditor.LoadImportedMatrix | front/src/app/components/grap-colouring/grap-colouring.component.ts:1473-1498 | Adds one settled node per row with consecutive ids, then the animated edge of each 1 above the diagonal in row order, then takes the matrix itself. |
| ColoringEditor.GraphColoringEditor.PlaceImportedNodes | front/src/app/components/grap-colouring/grap-colouring.component.ts:1480-1486 | Appends one settled node per position, with consecutive ids, keeping ids dense. |
| ColoringEditor.GraphColoringEditor.AddImportedEdges | front/src/app/components/grap-colouring/grap-colouring.component.ts:1489-1495 | The outer loop over rows adds exactly the animated edges of the import pairs, in order. |
| ColoringEditor.GraphColoringEditor.AddImportedRow | front/src/app/components/grap-colouring/grap-colouring.component.ts:1490-1494 | The inner loop over one row adds exactly the animated edges of that row's pairs above the diagonal, in column order. |
| MaxFlowModel.MaxId | front/src/app/components/max-flow/max-flow.component.ts:217 | The largest id: no id exceeds it and some node has it. |
| MaxFlowModel.NextNodeId | front/src/app/components/max-flow/max-flow.component.ts:214-218 | 0 for no nodes. Otherwise one past the largest id, so it exceeds every id in use. |
| MaxFlowModel.AppendNextKeepsDistinct | front/src/app/components/max-flow/max-flow.component.ts:197-206 | Appending a node with the next id keeps ids distinct. |
| MaxFlowModel.NextNodeIdAfterAppend | front/src/app/components/max-flow/max-flow.component.ts:214-218 | After that append, the next id is one larger. |
| MaxFlowModel.SplitAtSeparator | front/src/app/components/max-flow/max-flow.component.ts:243 | "id, separator, id" splits in only one way when the first part has no separator after its first character. |
| MaxFlowModel.EdgeIdOfInjective | front/src/app/components/max-flow/max-flow.component.ts:243 | Different ordered pairs get different `"from-to"` edge ids, negative ids included. |
| MaxFlowModel.KeyOfInjective | front/src/app/components/max-flow/max-flow.component.ts:592 | Different ordered pairs get different `"from,to"` request keys. |
| MaxFlowModel.AddDirected | front/src/app/components/max-flow/max-flow.component.ts:237-249 | If the ordered pair already has an edge, the list is unchanged. Otherwise exactly the new edge is appended with every earlier edge kept, and the pair ends up present. |
| MaxFlowModel.AddDirectedBothWays | front/src/app/components/max-flow/max-flow.component.ts:237-249 | The duplicate check is one-directional: for any edge list without `b -> a`, adding `a -> b` and then `b -> a` leaves both directed edges. For two different nodes the second add always appends. |
| MaxFlowModel.WellFormedDistinct | front/src/app/components/max-flow/max-flow.component.ts:243 | Under the edge invariant, no two edges share an id or a request key. |
| MaxFlowModel.AddDirectedKeepsWellFormed | front/src/app/components/max-flow/max-flow.component.ts:237-249 | Adding with a capacity of at least 1 keeps the edge invariant: ids of the form `"from-to"`, capacities at least 1, ordered pairs distinct. |
| MaxFlowModel.FilterKeepsDistinctIds | front/src/app/components/max-flow/max-flow.component.ts:715 | Node deletion keeps ids distinct. |
| MaxFlowModel.FilterKeepsWellFormed | front/src/app/components/max-flow/max-flow.component.ts:718 | Edge filtering keeps the edge invariant. |
| MaxFlowModel.DeleteByIdRemovesOne | front/src/app/components/max-flow/max-flow.component.ts:733 | Under the invariant, deleting by an edge's id removes exactly that edge and keeps the others in order. |
| MaxFlowModel.OtherEdgeOtherId | front/src/app/components/max-flow/max-flow.component.ts:733 | Under the invariant, two different positions hold different ids. |
| MaxFlowModel.DeleteUnknownIdKeepsAll | front/src/app/components/max-flow/max-flow.component.ts:733 | Deleting an id that no edge has changes nothing. |
| MaxFlowModel.CapacityFrom | front/src/app/components/max-flow/max-flow.component.ts:551-554 | The capacity is always at least 1. It is the parsed integer when that is at least 1, and 1 on NaN, zero or a negative value. |
| MaxFlowModel.CapacityFromShown | front/src/app/components/max-flow/max-flow.component.ts:551-554 | Re-entering a shown capacity of at least 1 gives that capacity back. |
| MaxFlowModel.GraphOf | front/src/app/components/max-flow/max-flow.component.ts:588 | The request graph lists each edge's `[from, to]` in edge order. |
| MaxFlowModel.CapacitiesOf | front/src/app/components/max-flow/max-flow.component.ts:589-593 | The capacities object has at most one key per edge. |
| MaxFlowModel.CapacitiesOfHasKey | front/src/app/components/max-flow/max-flow.component.ts:591-593 | Every edge's `"from,to"` key is a key of the capacities object. |
| MaxFlowModel.CapacitiesOfKeyFromEdge | front/src/app/components/max-flow/max-flow.component.ts:591-593 | Every key of the capacities object is the key of some edge. |
| MaxFlowModel.CapacitiesOfKeys | front/src/app/components/max-flow/max-flow.component.ts:589-593 | The capacities object has exactly the keys of the edges. |
| MaxFlowModel.CapacitiesOfLastWins | front/src/app/components/max-flow/max-flow.component.ts:591-593 | A key holds the capacity of the last edge with that key. |
| MaxFlowModel.CapacitiesOfWellFormed | front/src/app/components/max-flow/max-flow.component.ts:589-593 | Under the edge invariant, every edge's key holds that edge's own capacity. |
| MaxFlowModel.SameNetworkSameCapacities | front/src/app/components/max-flow/max-flow.component.ts:591-593 | The capacities depend only on each edge's pair and capacity. |
| MaxFlowModel.FlowFor | front/src/app/components/max-flow/max-flow.component.ts:615 | `flows[key] \|\| 0` is the entry when present and 0 when missing. |
| MaxFlowModel.MergeFlows | front/src/app/components/max-flow/max-flow.component.ts:611-617 | Every edge keeps all its fields except `flow`, which becomes the answer's flow for its key. |
| MaxFlowModel.MergeFlowsKeepsNetwork | front/src/app/components/max-flow/max-flow.component.ts:611-617 | Merging changes neither the request graph nor the capacities, and keeps the edge invariant. |
| MaxFlowModel.MergeFlowsKeepsWellFormed | front/src/app/components/max-flow/max-flow.component.ts:611-617 | Merging flows keeps the edge invariant: ids, capacities and distinct ordered pairs are untouched. |
| MaxFlowModel.MergedFlowsMatchAnswer | front/src/app/components/max-flow/max-flow.component.ts:611-617 | When the answer covers every request key, each edge receives exactly its pair's flow. |
| MaxFlowEditor.NewNode | front/src/app/components/max-flow/max-flow.component.ts:198-203 | The new node's id differs from every existing id, and its label parses back to its id. |
| MaxFlowEditor.Cleared | front/src/app/components/max-flow/max-flow.component.ts:721-722 | A marker on the deleted node is cleared, and any other marker is kept. |
| MaxFlowEditor.FlowGraphEditor.constructor | front/src/app/components/max-flow/max-flow.component.ts:36-59 | Starts empty with no markers, add-node mode, no selection, capacity 10, no result, not loading, no error, and an 800 by 600 canvas. |
| MaxFlowEditor.FlowGraphEditor.HandleCanvasClick | front/src/app/components/max-flow/max-flow.component.ts:181-212 | In add-node mode, inside the canvas and at least 40 units from every node, a click appends a node with the next id and its decimal label. Otherwise nothing changes. Ids stay distinct. |
| MaxFlowEditor.FlowGraphEditor.HandleNodeClick | front/src/app/components/max-flow/max-flow.component.ts:220-274 | Select-source and select-sink set the marker and return to add-node mode. In add-edge mode the first click selects. A click on another node adds the directed edge unless that ordered pair exists and clears the selection. A click on the same node keeps it. Delete mode deletes the node. Add-node and move-node change nothing. The invariant is kept. |
| MaxFlowEditor.FlowGraphEditor.HandleEdgeClick | front/src/app/components/max-flow/max-flow.component.ts:276-280 | In delete mode the edge is deleted by id and the result dropped. Otherwise nothing changes. |
| MaxFlowEditor.FlowGraphEditor.SetMode | front/src/app/components/max-flow/max-flow.component.ts:529-531 | Sets the mode and always clears the selection. |
| MaxFlowEditor.FlowGraphEditor.UpdateCapacity | front/src/app/components/max-flow/max-flow.component.ts:551-554 | The capacity becomes `CapacityFrom(value)`, which is at least 1. |
| MaxFlowEditor.FlowGraphEditor.ResetGraph | front/src/app/components/max-flow/max-flow.component.ts:556-561 | Empties nodes and edges and clears source, sink and result. |
| MaxFlowEditor.FlowGraphEditor.DeleteNode | front/src/app/components/max-flow/max-flow.component.ts:713-725 | Removes the nodes with that id and every edge from or to it, keeping the rest in order. Clears a marker on it, drops the result and keeps the invariant. |
| MaxFlowEditor.FlowGraphEditor.DeleteEdge | front/src/app/components/max-flow/max-flow.component.ts:732-734 | Removes exactly the edge with that id, or nothing when no edge has it, and drops the result. |
| MaxFlowEditor.FlowGraphEditor.CalculateMaxFlow | front/src/app/components/max-flow/max-flow.component.ts:568-600 | Refuses, with the matching error, a missing marker, fewer than two nodes, or no edges, checked in that order. Otherwise it becomes busy, clears the error and returns the request, in which each edge's pair is listed in order and its key holds its own capacity. |
| MaxFlowEditor.FlowGraphEditor.ReceiveFlowResult | front/src/app/components/max-flow/max-flow.component.ts:606-617 | Stores the answer, stops loading and merges the flows onto the edges. The edge invariant is kept. |
| MaxFlowEditor.FlowGraphEditor.ReceiveFlowError | front/src/app/components/max-flow/max-flow.component.ts:624-627 | Records the failure and stops loading. |

## Left out

- Rendering, the DOM, themes, cursor styles, the matrix-cell flash, and image and matrix export are not modelled.
- Animation timing is not modelled: the per-frame steps of 0.1 and 0.05 and the highlight timeout. An animated add leaves its item at 0. The caller decides when an exit completes, and whether it does.
- The exit animation of a node or edge whose scale or progress is still 0 never starts in the component, so that item is never removed. The model cannot express this, because completion is left to the caller.
- Two exit animations running at once are not modelled. The completion of a node or edge removal splices the index recorded when it started. That index may have gone stale, and `CompleteNodeRemoval` and `CompleteEdgeRemoval` take it as given.
- ColoringEditor.GraphColoringEditor.ProcessPointerDown: `connecting` holds the armed node's id rather than the node object. Where a pending node removal renumbers nodes in place, the source's later `connecting.id` can differ from the id stored here.
- The edge hit test (`findEdgeAt` and point-to-segment distance) is not modelled. Its answer is a parameter of `ProcessPointerDown`.
- Zoom by wheel, touch events and the screen-to-world conversion in the mouse and touch handlers are not modelled. `ProcessPointerDown` and `ProcessPointerMove` take world coordinates, and recording the press position is not modelled.
- Colour assignment (`colorGraph`, `animateColoring`) depends on the HTTP service, and `generateRandomGraph` uses `Math.random`. Neither is modelled.
- The colouring editor's `resetGraph` is an animation chain and is not modelled. `ColoringImport.ImportedEdges` describes loading into an empty edge list, which is what the import meets only if the reset has finished by then (see the next line).
- ColoringEditor.GraphColoringEditor.LoadImportedMatrix: the model runs the import's 500 ms body on the state as it stands. Its promises that the matrix becomes the imported one, that the new ids start at the old node count and that `Valid()` holds assume the staggered reset finished before that timer. The source does not ensure this. Node exits start 50 ms apart and edge exits 30 ms apart (grap-colouring.component.ts:1263, 1293). The reset clears the matrix only after 30 ms per old edge (1296-1299), so with 17 or more old edges it wipes the imported matrix. With about 8 or more old nodes, some are still being spliced when `addNode` takes `nodes.length` as the id (636), so the ids stop matching the positions. Old items already at scale or progress 0 are never removed. The empty start that `ImportedEdges` assumes carries the same assumption.
- ColoringEditor.GraphColoringEditor.MatrixValueChanged: the indices must be inside the matrix. The matrix table only offers cells of the matrix. Out of range, the source throws a `TypeError`: at once when `i` is past the end, and when `j` is past the end only after writing the normalised `[i][j]`, which lengthens row `i`. That partial write and the exception are not modelled.
- File reading and `JSON.parse` are not modelled, including the "failed to parse" message. `ColoringImport.ValidateImport` starts from the parsed value.
- JSON values other than arrays are encoded as integers in the model.
- The circle layout of imported nodes uses `Math.cos`/`Math.sin`. The positions are parameters of `LoadImportedMatrix`.
- Local storage (`saveGraphLocally`, `loadSavedGraph`) is not modelled. Edges loaded from a saved graph need not satisfy `WellFormedEdges`, and the model only builds edges through clicks.
- The D3 set-up, the force simulation and node dragging in the max-flow editor are not modelled. Node coordinates are taken as given.
- MaxFlowModel.FlowFor: a `NaN` flow, which `|| 0` also turns into 0, is not modelled, because flows are reals.
- Text.ParseInt: very large inputs are read exactly, whereas JavaScript rounds them to the nearest double. The Unicode space separators other than U+00A0 are not treated as white space.
- Text.IntToString: integers are written in plain decimal. JavaScript switches to exponent notation from 10^21.
- The backend solvers and the HTTP service wrappers are not modelled. `ReceiveFlowResult` and `ReceiveFlowError` take what the service would deliver.
