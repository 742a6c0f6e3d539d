/** src/streaming/static/websocket.js: the browser-side graph editor.  The
    user draws edges between the vertex "camera" and ten transform vertices;
    an edge is admitted only if its source is not "camera", its source has no
    outgoing edge yet and its target has no incoming edge yet.  After every
    admitted edge, and after every Ctrl+X, the current edge list is sent to the
    server as `{nodes: [{source, target}, ...]}`.

    The admission rule is what makes the server's chain compiler terminate:
    under it the backward walk from "camera" never revisits a node. */
module GraphEditor {
  import opened RustCore
  import opened Connections
  import FrameHandler

  const CAMERA: string := "camera"

  /** `node_details`: the labels of the ten transform vertices. */
  const NODE_DETAILS: seq<string> := [
    "canny", "binary", "face", "white_balance", "superpixel",
    "haar_like", "removed_red", "removed_green", "removed_blue", "text"]

  /** Every vertex of the graph: the ten transform vertices and the camera. */
  const LABELS: set<string> := (set l | l in NODE_DETAILS) + {CAMERA}

  /** Five of the ten transform labels name a frame handler; "face", the
      three "removed_*" labels and "text" do not, and neither does "camera". */
  lemma LabelsAndHandlers(l: string)
    requires l in LABELS
    ensures FrameHandler.SearchFrameHandler(l).Some? <==>
            l in {"canny", "binary", "white_balance", "superpixel", "haar_like"}
  {
  }

  /** An edge cell of the mxGraph model.  `id` is the cell id mxGraph assigns
      (increasing in creation order); dangling edges are disallowed, so both
      ends are always vertices. */
  datatype EdgeCell = EdgeCell(id: nat, source: string, target: string)

  /** A selected cell when Ctrl+X is pressed: a vertex or an edge. */
  datatype SelectedCell = VertexCell(value: string) | EdgeRef(id: nat)

  /** `getOutgoingEdges(vertex).length`. */
  function Outgoing(cells: seq<EdgeCell>, v: string): (n: nat)
    ensures n == 0 <==> forall i :: 0 <= i < |cells| ==> cells[i].source != v
  {
    if cells == [] then 0
    else Outgoing(cells[..|cells| - 1], v) + (if cells[|cells| - 1].source == v then 1 else 0)
  }

  /** `getIncomingEdges(vertex).length`. */
  function Incoming(cells: seq<EdgeCell>, v: string): (n: nat)
    ensures n == 0 <==> forall i :: 0 <= i < |cells| ==> cells[i].target != v
  {
    if cells == [] then 0
    else Incoming(cells[..|cells| - 1], v) + (if cells[|cells| - 1].target == v then 1 else 0)
  }

  /** `graph.isValidSource`. */
  predicate IsValidSource(vertex: string) {
    vertex != CAMERA
  }

  /** Whether the editor admits a new edge `source -> target`: mxGraph first
      asks `isValidSource`, then the overridden `addEdge` refuses a camera
      source and any vertex that already has an edge on that side. */
  predicate AddEdgeAccepts(cells: seq<EdgeCell>, source: string, target: string)
  {
    && IsValidSource(source)
    && source != CAMERA
    && !(Outgoing(cells, source) > 0 || Incoming(cells, target) > 0)
  }

  /** The admission rule stated edge by edge. */
  lemma AddEdgeAcceptsExactly(cells: seq<EdgeCell>, source: string, target: string)
    ensures AddEdgeAccepts(cells, source, target) <==>
            source != CAMERA &&
            (forall i :: 0 <= i < |cells| ==> cells[i].source != source) &&
            (forall i :: 0 <= i < |cells| ==> cells[i].target != target)
  {
  }

  /** The invariant the editor keeps: at most one edge out of and one edge
      into every vertex, and none out of the camera. */
  ghost predicate OneInOneOut(cells: seq<EdgeCell>) {
    && (forall v :: Outgoing(cells, v) <= 1)
    && (forall v :: Incoming(cells, v) <= 1)
    && Outgoing(cells, CAMERA) == 0
  }

  predicate IdsIncreasing(cells: seq<EdgeCell>) {
    forall i, j :: 0 <= i < j < |cells| ==> cells[i].id < cells[j].id
  }

  /** Every edge cell has an id below `nextId`. */
  predicate IdsBelow(cells: seq<EdgeCell>, nextId: nat) {
    forall e :: e in cells ==> e.id < nextId
  }

  /** Every edge cell joins two of the editor's vertices. */
  predicate OnLabels(cells: seq<EdgeCell>) {
    forall e :: e in cells ==> e.source in LABELS && e.target in LABELS
  }

  /** Appending a cell with the next id keeps the ids increasing and below
      the new `nextId`. */
  lemma AppendKeepsIds(cells: seq<EdgeCell>, e: EdgeCell, nextId: nat)
    requires IdsIncreasing(cells) && IdsBelow(cells, nextId) && e.id == nextId
    ensures IdsIncreasing(cells + [e]) && IdsBelow(cells + [e], nextId + 1)
  {
    forall i | 0 <= i < |cells| ensures cells[i].id < nextId {
      assert cells[i] in cells;
    }
  }

  /** The message `sendNodeConnections` writes: one `{source, target}` per
      edge cell, in cell order. */
  function Payload(cells: seq<EdgeCell>): (payload: Connections)
    ensures |payload.nodes| == |cells|
    ensures forall i :: 0 <= i < |cells| ==>
              payload.nodes[i].source == cells[i].source && payload.nodes[i].target == cells[i].target
  {
    Connections(seq(|cells|, i requires 0 <= i < |cells| => Connection(cells[i].source, cells[i].target)))
  }

  lemma {:induction false} AppendCounts(cells: seq<EdgeCell>, e: EdgeCell, v: string)
    ensures Outgoing(cells + [e], v) == Outgoing(cells, v) + (if e.source == v then 1 else 0)
    ensures Incoming(cells + [e], v) == Incoming(cells, v) + (if e.target == v then 1 else 0)
  {
    assert (cells + [e])[..|cells|] == cells;
  }

  /** Adding an admitted edge keeps the invariant. */
  lemma AcceptedEdgeKeepsInvariant(cells: seq<EdgeCell>, e: EdgeCell)
    requires OneInOneOut(cells)
    requires AddEdgeAccepts(cells, e.source, e.target)
    ensures OneInOneOut(cells + [e])
  {
    forall v ensures Outgoing(cells + [e], v) <= 1 && Incoming(cells + [e], v) <= 1 {
      AppendCounts(cells, e, v);
    }
    AppendCounts(cells, e, CAMERA);
  }

  /** `graph.removeCells([edge])`: the model without the edge cell `id`. */
  function WithoutEdge(cells: seq<EdgeCell>, id: nat): (r: seq<EdgeCell>)
    ensures forall e :: e in r <==> e in cells && e.id != id
    ensures IdsIncreasing(cells) ==> IdsIncreasing(r)
  {
    if cells == [] then []
    else
      var last := cells[|cells| - 1];
      var rest := WithoutEdge(cells[..|cells| - 1], id);
      assert forall e :: e in cells <==> e in cells[..|cells| - 1] || e == last by {
        assert cells == cells[..|cells| - 1] + [last];
      }
      if last.id == id then rest else rest + [last]
  }

  /** Removing an edge never adds an edge at a vertex. */
  lemma {:induction false} WithoutEdgeCounts(cells: seq<EdgeCell>, id: nat, v: string)
    ensures Outgoing(WithoutEdge(cells, id), v) <= Outgoing(cells, v)
    ensures Incoming(WithoutEdge(cells, id), v) <= Incoming(cells, v)
  {
    if cells != [] {
      var last := cells[|cells| - 1];
      var rest := WithoutEdge(cells[..|cells| - 1], id);
      WithoutEdgeCounts(cells[..|cells| - 1], id, v);
      if last.id != id {
        AppendCounts(rest, last, v);
      }
    }
  }

  lemma RemovalKeepsInvariant(cells: seq<EdgeCell>, id: nat)
    requires OneInOneOut(cells)
    ensures OneInOneOut(WithoutEdge(cells, id))
  {
    forall v ensures Outgoing(WithoutEdge(cells, id), v) <= 1 && Incoming(WithoutEdge(cells, id), v) <= 1 {
      WithoutEdgeCounts(cells, id, v);
    }
    WithoutEdgeCounts(cells, id, CAMERA);
  }

  /** The Ctrl+X loop: every selected edge is removed in turn; selected
      vertices are left alone. */
  function RemoveSelection(cells: seq<EdgeCell>, selection: seq<SelectedCell>): (r: seq<EdgeCell>)
    ensures forall e :: e in r ==> e in cells
  {
    if selection == [] then cells
    else
      var rest := RemoveSelection(cells, selection[..|selection| - 1]);
      match selection[|selection| - 1]
      case EdgeRef(id) => WithoutEdge(rest, id)
      case VertexCell(_) => rest
  }

  /** After Ctrl+X exactly the selected edges are gone. */
  lemma {:induction false} RemoveSelectionContents(cells: seq<EdgeCell>, selection: seq<SelectedCell>)
    ensures forall e :: e in RemoveSelection(cells, selection) <==> e in cells && EdgeRef(e.id) !in selection
  {
    if selection != [] {
      var prefix, last := selection[..|selection| - 1], selection[|selection| - 1];
      RemoveSelectionContents(cells, prefix);
      assert selection == prefix + [last];
      forall e: EdgeCell ensures EdgeRef(e.id) in selection <==> EdgeRef(e.id) in prefix || EdgeRef(e.id) == last {
      }
    }
  }

  /** Under the invariant two edges never share a source or a target. */
  ghost predicate Linear(connections: seq<Connection>) {
    && (forall i, j :: 0 <= i < j < |connections| ==>
          connections[i].source != connections[j].source && connections[i].target != connections[j].target)
    && (forall i :: 0 <= i < |connections| ==> connections[i].source != LAST_TARGET)
  }

  lemma {:induction false} SharedEndCounts(cells: seq<EdgeCell>, i: nat, j: nat)
    requires i < j < |cells|
    ensures cells[i].source == cells[j].source ==> Outgoing(cells, cells[j].source) >= 2
    ensures cells[i].target == cells[j].target ==> Incoming(cells, cells[j].target) >= 2
  {
    var prefix := cells[..|cells| - 1];
    if j < |cells| - 1 {
      SharedEndCounts(prefix, i, j);
    } else {
      assert prefix[i] == cells[i];
    }
  }

  lemma InvariantMakesLinear(cells: seq<EdgeCell>)
    requires OneInOneOut(cells)
    ensures Linear(Payload(cells).nodes)
  {
    var es := Payload(cells).nodes;
    forall i, j | 0 <= i < j < |es|
      ensures es[i].source != es[j].source && es[i].target != es[j].target
    {
      SharedEndCounts(cells, i, j);
    }
  }

  /** Under the admission rule the backward walk from the camera visits
      pairwise distinct nodes. */
  lemma {:induction false} LinearWalkDistinct(connections: seq<Connection>, a: nat, b: nat)
    requires Linear(connections) && a < b && Walk(connections, b).Some?
    ensures Walk(connections, a) != Walk(connections, b)
    decreases b
  {
    var nb := Walk(connections, b - 1).value;
    PrecedingIsFirstMatch(connections, nb);
    var jb :| 0 <= jb < |connections| && connections[jb].target == nb && connections[jb].source == Walk(connections, b).value;
    if a > 0 && Walk(connections, a).Some? {
      var na := Walk(connections, a - 1).value;
      PrecedingIsFirstMatch(connections, na);
      var ja :| 0 <= ja < |connections| && connections[ja].target == na && connections[ja].source == Walk(connections, a).value;
      if Walk(connections, a) == Walk(connections, b) {
        assert ja == jb;
        LinearWalkDistinct(connections, a - 1, b - 1);
      }
    }
  }

  /** Under the admission rule the compiler's walk stops within
      `|connections| + 1` steps. */
  lemma LinearStops(connections: seq<Connection>)
    requires Linear(connections)
    ensures Walk(connections, |connections| + 1).None?
    ensures Stops(connections)
  {
    var m := |connections| + 1;
    if Walk(connections, m).Some? {
      forall k | 1 <= k <= m ensures Walk(connections, k).Some? {
        if Walk(connections, k).None? { WalkStaysStopped(connections, k, m); }
      }
      forall a, b | 1 <= a < b <= m ensures Walk(connections, a) != Walk(connections, b) {
        LinearWalkDistinct(connections, a, b);
      }
      DistinctWalkBound(connections, m);
    }
  }

  /** Whatever the editor sends compiles: the server's loop terminates and
      the chain has at most one name per edge. */
  lemma EditorPayloadCompiles(cells: seq<EdgeCell>)
    requires OneInOneOut(cells)
    ensures Stops(Payload(cells).nodes)
    ensures Walk(Payload(cells).nodes, |cells| + 1).None?
  {
    InvariantMakesLinear(cells);
    LinearStops(Payload(cells).nodes);
  }

  /** The graph model of the editor page and the messages it has sent. */
  class Editor {
    var cells: seq<EdgeCell>
    var nextId: nat
    var sent: seq<Connections>

    ghost predicate Valid()
      reads this
    {
      && OneInOneOut(cells)
      && IdsIncreasing(cells)
      && IdsBelow(cells, nextId)
      && OnLabels(cells)
    }

    /** `main(container)`: the vertices are inserted, no edge exists and
        nothing has been sent. */
    constructor ()
      ensures Valid() && cells == [] && sent == []
    {
      cells, nextId, sent := [], 0, [];
    }

    /** `sendNodeConnections`. */
    method SendNodeConnections()
      modifies this`sent
      ensures sent == old(sent) + [Payload(cells)]
    {
      sent := sent + [Payload(cells)];
    }

    /** The user drags an edge from `source` to `target`.  An admitted edge is
        added and, through the `ADD_CELLS` listener, one payload is sent; a
        refused edge changes nothing and sends nothing. */
    method AddEdge(source: string, target: string) returns (edge: Option<EdgeCell>)
      requires Valid() && source in LABELS && target in LABELS
      modifies this
      ensures Valid()
      ensures edge.Some? <==> AddEdgeAccepts(old(cells), source, target)
      ensures edge.Some? ==> edge.value == EdgeCell(old(nextId), source, target) &&
                             cells == old(cells) + [edge.value] &&
                             nextId == old(nextId) + 1 &&
                             sent == old(sent) + [Payload(cells)]
      ensures edge.None? ==> cells == old(cells) && sent == old(sent) && nextId == old(nextId)
    {
      if !IsValidSource(source) {
        return None;
      }
      if source == CAMERA {
        return None;
      }
      if Outgoing(cells, source) > 0 || Incoming(cells, target) > 0 {
        return None;
      }
      var e := EdgeCell(nextId, source, target);
      AcceptedEdgeKeepsInvariant(cells, e);
      AppendKeepsIds(cells, e, nextId);
      cells := cells + [e];
      nextId := nextId + 1;
      SendNodeConnections();
      return Some(e);
    }

    /** Ctrl+X: remove every selected edge, then send the payload once. */
    method CutSelection(selection: seq<SelectedCell>)
      requires Valid()
      modifies this
      ensures Valid()
      ensures cells == RemoveSelection(old(cells), selection)
      ensures nextId == old(nextId)
      ensures sent == old(sent) + [Payload(cells)]
    {
      for i := 0 to |selection|
        invariant Valid() && nextId == old(nextId) && sent == old(sent)
        invariant cells == RemoveSelection(old(cells), selection[..i])
      {
        assert selection[..i + 1][..i] == selection[..i];
        match selection[i] {
          case EdgeRef(id) =>
            RemovalKeepsInvariant(cells, id);
            cells := WithoutEdge(cells, id);
          case VertexCell(_) =>
        }
      }
      assert selection[..|selection|] == selection;
      SendNodeConnections();
    }
  }
}
