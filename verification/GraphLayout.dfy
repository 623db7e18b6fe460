/** Laying out the intel chain: one column per node type, tasks moved below the incidents. */
module GraphLayout {
  datatype NodeType = Signal | Rule | Alert | Incident | Task

  datatype RawNode = RawNode(id: string, nodeType: NodeType)

  datatype Position = Position(x: int, y: int)

  datatype Node = Node(id: string, nodeType: NodeType, position: Position)

  function LayerX(t: NodeType): int {
    match t
    case Signal => 30
    case Rule => 280
    case Alert => 530
    case Incident => 780
    case Task => 780
  }

  /** The ids of one type, in input order. */
  function Layer(nodes: seq<RawNode>, t: NodeType): seq<string> {
    if nodes == [] then []
    else
      var n := |nodes| - 1;
      Layer(nodes[..n], t) + (if nodes[n].nodeType == t then [nodes[n].id] else [])
  }

  /** Where node k stands within its layer. */
  function Rank(nodes: seq<RawNode>, k: nat): nat
    requires k < |nodes|
  {
    |Layer(nodes[..k], nodes[k].nodeType)|
  }

  /** The i-th of n nodes, centred on y = 200. */
  function CentredY(n: nat, i: nat): int {
    200 - (n - 1) * 120 / 2 + i * 120
  }

  predicate TasksMoved(nodes: seq<RawNode>) {
    Layer(nodes, Task) != [] && Layer(nodes, Incident) != []
  }

  /** The place of the i-th node of a type. */
  function PlaceOf(nodes: seq<RawNode>, t: NodeType, i: nat): Position {
    if t == Task && TasksMoved(nodes) then
      var m := |Layer(nodes, Incident)|;
      Position(LayerX(Task) + 220, CentredY(m, m - 1) + 140 + i * 120)
    else
      Position(LayerX(t), CentredY(|Layer(nodes, t)|, i))
  }

  ghost predicate DistinctIds(nodes: seq<RawNode>) {
    forall i, j :: 0 <= i < j < |nodes| ==> nodes[i].id != nodes[j].id
  }

  lemma {:induction false} LayerHasNode(nodes: seq<RawNode>, k: nat)
    requires k < |nodes|
    ensures Rank(nodes, k) < |Layer(nodes, nodes[k].nodeType)|
    ensures Layer(nodes, nodes[k].nodeType)[Rank(nodes, k)] == nodes[k].id
  {
    var n := |nodes| - 1;
    if k == n {
      assert nodes[..k] == nodes[..n];
    } else {
      LayerHasNode(nodes[..n], k);
      assert nodes[..n][..k] == nodes[..k];
    }
  }

  lemma {:induction false} NodeOfLayer(nodes: seq<RawNode>, t: NodeType, i: nat) returns (k: nat)
    requires i < |Layer(nodes, t)|
    ensures k < |nodes| && nodes[k].nodeType == t && Rank(nodes, k) == i
  {
    var n := |nodes| - 1;
    if i < |Layer(nodes[..n], t)| {
      k := NodeOfLayer(nodes[..n], t, i);
      assert nodes[..n][..k] == nodes[..k];
    } else {
      k := n;
    }
  }

  /** With distinct ids, an id has one place in one layer. */
  lemma LayersAreDisjoint(nodes: seq<RawNode>, t: NodeType, i: nat, u: NodeType, j: nat)
    requires DistinctIds(nodes)
    requires i < |Layer(nodes, t)| && j < |Layer(nodes, u)| && Layer(nodes, t)[i] == Layer(nodes, u)[j]
    ensures t == u && i == j
  {
    var k := NodeOfLayer(nodes, t, i);
    var l := NodeOfLayer(nodes, u, j);
    LayerHasNode(nodes, k);
    LayerHasNode(nodes, l);
    assert nodes[k].id == nodes[l].id;
  }

  ghost predicate Placed(positions: map<string, Position>, ids: seq<string>, i: int, place: Position)
    requires 0 <= i < |ids|
  {
    ids[i] in positions && positions[ids[i]] == place
  }

  lemma LayerGrows(nodes: seq<RawNode>, k: nat, t: NodeType)
    requires k < |nodes|
    ensures Layer(nodes[..k + 1], t) == Layer(nodes[..k], t) + (if nodes[k].nodeType == t then [nodes[k].id] else [])
  {
    assert nodes[..k + 1][..k] == nodes[..k];
  }

  /** Groups ids by type, in order of first appearance. */
  method GroupByType(nodes: seq<RawNode>) returns (byType: map<NodeType, seq<string>>, order: seq<NodeType>)
    ensures forall t :: t in byType <==> Layer(nodes, t) != []
    ensures forall t <- byType :: byType[t] == Layer(nodes, t)
    ensures forall t :: t in order <==> t in byType
  {
    byType, order := map[], [];
    for k := 0 to |nodes|
      invariant forall t :: t in byType <==> Layer(nodes[..k], t) != []
      invariant forall t <- byType :: byType[t] == Layer(nodes[..k], t)
      invariant forall t :: t in order <==> t in byType
    {
      var n := nodes[k];
      forall t {
        LayerGrows(nodes, k, t);
      }
      if n.nodeType !in byType {
        byType := byType[n.nodeType := []];
        order := order + [n.nodeType];
      }
      byType := byType[n.nodeType := byType[n.nodeType] + [n.id]];
    }
    assert nodes[..|nodes|] == nodes;
  }

  /** Places the ids of one column; every other id keeps its place. */
  method PlaceColumn(positions: map<string, Position>, ids: seq<string>, x: int, top: int)
    returns (placed: map<string, Position>)
    ensures forall id :: id in placed <==> id in positions || id in ids
    ensures forall id <- positions :: id !in ids ==> placed[id] == positions[id]
    ensures (forall i, j :: 0 <= i < j < |ids| ==> ids[i] != ids[j]) ==>
              forall i :: 0 <= i < |ids| ==> Placed(placed, ids, i, Position(x, top + i * 120))
  {
    placed := positions;
    for k := 0 to |ids|
      invariant forall id :: id in placed <==> id in positions || id in ids[..k]
      invariant forall id <- positions :: id !in ids ==> placed[id] == positions[id]
      invariant (forall i, j :: 0 <= i < j < |ids| ==> ids[i] != ids[j]) ==>
                  forall i :: 0 <= i < k ==> Placed(placed, ids, i, Position(x, top + i * 120))
    {
      placed := placed[ids[k] := Position(x, top + k * 120)];
      assert ids[..k + 1] == ids[..k] + [ids[k]];
    }
    assert ids[..|ids|] == ids;
  }

  ghost predicate AllPlaced(positions: map<string, Position>, nodes: seq<RawNode>, t: NodeType, x: int, top: int) {
    var ids := Layer(nodes, t);
    forall i :: 0 <= i < |ids| ==> Placed(positions, ids, i, Position(x, top + i * 120))
  }

  lemma OtherLayersKeep(before: map<string, Position>, after: map<string, Position>, nodes: seq<RawNode>,
                        t: NodeType, u: NodeType, x: int, top: int)
    requires DistinctIds(nodes) && t != u
    requires AllPlaced(before, nodes, u, x, top)
    requires forall id <- before :: id in after && (id !in Layer(nodes, t) ==> after[id] == before[id])
    ensures AllPlaced(after, nodes, u, x, top)
  {
    var ids := Layer(nodes, u);
    forall i | 0 <= i < |ids| ensures Placed(after, ids, i, Position(x, top + i * 120)) {
      assert Placed(before, ids, i, Position(x, top + i * 120));
      if j :| 0 <= j < |Layer(nodes, t)| && Layer(nodes, t)[j] == ids[i] {
        LayersAreDisjoint(nodes, u, i, t, j);
      }
    }
  }

  lemma LayerIsDistinct(nodes: seq<RawNode>, t: NodeType)
    requires DistinctIds(nodes)
    ensures forall i, j :: 0 <= i < j < |Layer(nodes, t)| ==> Layer(nodes, t)[i] != Layer(nodes, t)[j]
  {
    forall i, j | 0 <= i < j < |Layer(nodes, t)| ensures Layer(nodes, t)[i] != Layer(nodes, t)[j] {
      if Layer(nodes, t)[i] == Layer(nodes, t)[j] {
        LayersAreDisjoint(nodes, t, i, t, j);
      }
    }
  }

  function Top(nodes: seq<RawNode>, t: NodeType): int {
    CentredY(|Layer(nodes, t)|, 0)
  }

  ghost predicate Grouped(nodes: seq<RawNode>, byType: map<NodeType, seq<string>>) {
    && (forall t :: t in byType <==> Layer(nodes, t) != [])
    && (forall t <- byType :: byType[t] == Layer(nodes, t))
  }

  ghost predicate Centred(positions: map<string, Position>, nodes: seq<RawNode>, t: NodeType) {
    AllPlaced(positions, nodes, t, LayerX(t), Top(nodes, t))
  }

  /** Centres one layer without disturbing the others. */
  method PlaceLayer(ghost nodes: seq<RawNode>, t: NodeType, ids: seq<string>, positions: map<string, Position>)
    returns (placed: map<string, Position>)
    requires ids == Layer(nodes, t)
    ensures DistinctIds(nodes) ==>
              && Centred(placed, nodes, t)
              && forall u :: Centred(positions, nodes, u) ==> Centred(placed, nodes, u)
  {
    placed := PlaceColumn(positions, ids, LayerX(t), 200 - (|ids| - 1) * 120 / 2);
    if DistinctIds(nodes) {
      LayerIsDistinct(nodes, t);
      forall u | Centred(positions, nodes, u) ensures Centred(placed, nodes, u) {
        if u != t {
          OtherLayersKeep(positions, placed, nodes, t, u, LayerX(u), Top(nodes, u));
        }
      }
    }
  }

  /** Lays out each type on its own, centred on y = 200. */
  method PlaceLayers(nodes: seq<RawNode>, byType: map<NodeType, seq<string>>, order: seq<NodeType>)
    returns (positions: map<string, Position>)
    requires Grouped(nodes, byType) && forall t :: t in order <==> t in byType
    ensures DistinctIds(nodes) ==> forall t <- byType :: Centred(positions, nodes, t)
  {
    positions := map[];
    for e := 0 to |order|
      invariant DistinctIds(nodes) ==> forall d :: 0 <= d < e ==> Centred(positions, nodes, order[d])
    {
      assert order[e] in order;
      positions := PlaceLayer(nodes, order[e], byType[order[e]], positions);
    }
    forall t | t in byType && DistinctIds(nodes) ensures Centred(positions, nodes, t) {
      var d :| 0 <= d < |order| && order[d] == t;
    }
  }

  /** Tasks share a column with incidents: they move right and below the last incident. */
  method MoveTasks(nodes: seq<RawNode>, byType: map<NodeType, seq<string>>, positions: map<string, Position>)
    returns (moved: map<string, Position>)
    requires Grouped(nodes, byType)
    requires DistinctIds(nodes) ==> forall t <- byType :: Centred(positions, nodes, t)
    ensures DistinctIds(nodes) ==>
              forall t <- byType, i :: 0 <= i < |byType[t]| ==> Placed(moved, byType[t], i, PlaceOf(nodes, t, i))
  {
    moved := positions;
    if Task in byType && Incident in byType {
      var incidents := byType[Incident];
      var m := |incidents|;
      var last := incidents[m - 1];
      var incidentBottom := if last in positions then positions[last].y else 200;
      moved := PlaceColumn(positions, byType[Task], LayerX(Task) + 220, incidentBottom + 140);
      if DistinctIds(nodes) {
        assert Centred(positions, nodes, Incident);
        assert Placed(positions, incidents, m - 1, Position(LayerX(Incident), Top(nodes, Incident) + (m - 1) * 120));
        LayerIsDistinct(nodes, Task);
        forall t | t in byType && t != Task ensures Centred(moved, nodes, t) {
          OtherLayersKeep(positions, moved, nodes, Task, t, LayerX(t), Top(nodes, t));
        }
      }
    }
    forall t, i | t in byType && 0 <= i < |byType[t]| && DistinctIds(nodes)
      ensures Placed(moved, byType[t], i, PlaceOf(nodes, t, i))
    {
      if !(t == Task && TasksMoved(nodes)) {
        assert Centred(moved, nodes, t);
        assert Placed(moved, Layer(nodes, t), i, Position(LayerX(t), Top(nodes, t) + i * 120));
      }
    }
  }

  /** Input order is kept, and with distinct ids every node gets the place of its rank in its layer. */
  method LayoutNodes(nodes: seq<RawNode>) returns (laid: seq<Node>)
    ensures |laid| == |nodes|
    ensures forall k :: 0 <= k < |nodes| ==> laid[k].id == nodes[k].id && laid[k].nodeType == nodes[k].nodeType
    ensures DistinctIds(nodes) ==>
              forall k :: 0 <= k < |nodes| ==> laid[k].position == PlaceOf(nodes, nodes[k].nodeType, Rank(nodes, k))
    ensures forall j, k :: 0 <= j < |nodes| && 0 <= k < |nodes| && nodes[j].id == nodes[k].id ==>
              laid[j].position == laid[k].position
  {
    var byType, order := GroupByType(nodes);
    var centred := PlaceLayers(nodes, byType, order);
    var positions := MoveTasks(nodes, byType, centred);
    laid := seq(|nodes|, k requires 0 <= k < |nodes| =>
      Node(nodes[k].id, nodes[k].nodeType,
           if nodes[k].id in positions then positions[nodes[k].id] else Position(0, 0)));
    forall k | 0 <= k < |nodes| && DistinctIds(nodes)
      ensures laid[k].position == PlaceOf(nodes, nodes[k].nodeType, Rank(nodes, k))
    {
      LayerHasNode(nodes, k);
      var t, i := nodes[k].nodeType, Rank(nodes, k);
      assert t in byType && Placed(positions, byType[t], i, PlaceOf(nodes, t, i));
    }
  }

  // ── What the layout guarantees ─────────────────────────────────────────────

  function Distance(a: int, b: int): nat {
    if a <= b then b - a else a - b
  }

  /** Two nodes in one column are a node's height apart, two in different columns a node's width. */
  predicate Separated(p: Position, q: Position) {
    if p.x == q.x then Distance(p.y, q.y) >= 120 else Distance(p.x, q.x) >= 220
  }

  lemma RanksDiffer(nodes: seq<RawNode>, j: nat, k: nat)
    requires j < k < |nodes| && nodes[j].nodeType == nodes[k].nodeType
    ensures Rank(nodes, j) < Rank(nodes, k)
  {
    LayerHasNode(nodes[..k], j);
    assert nodes[..k][..j] == nodes[..j];
  }

  lemma PlacesAreSeparated(nodes: seq<RawNode>, j: nat, k: nat)
    requires j < k < |nodes|
    ensures Separated(PlaceOf(nodes, nodes[j].nodeType, Rank(nodes, j)),
                      PlaceOf(nodes, nodes[k].nodeType, Rank(nodes, k)))
  {
    LayerHasNode(nodes, j);
    LayerHasNode(nodes, k);
    if nodes[j].nodeType == nodes[k].nodeType {
      RanksDiffer(nodes, j, k);
    }
  }

  /** Nodes of one type stand in one column, from top to bottom in input order, next to each other 120 apart. */
  lemma InputOrderGoesDown(nodes: seq<RawNode>, j: nat, k: nat)
    requires j < k < |nodes| && nodes[j].nodeType == nodes[k].nodeType
    ensures var t := nodes[j].nodeType;
            var p, q := PlaceOf(nodes, t, Rank(nodes, j)), PlaceOf(nodes, t, Rank(nodes, k));
            && p.x == q.x && q.y >= p.y + 120
            && ((forall i :: j < i < k ==> nodes[i].nodeType != nodes[j].nodeType) ==> q.y == p.y + 120)
  {
    RanksDiffer(nodes, j, k);
    if forall i :: j < i < k ==> nodes[i].nodeType != nodes[j].nodeType {
      NoneBetween(nodes, j, k);
    }
  }

  lemma {:induction false} NoneBetween(nodes: seq<RawNode>, j: nat, k: nat)
    requires j < k <= |nodes| && forall i :: j < i < k ==> nodes[i].nodeType != nodes[j].nodeType
    ensures Layer(nodes[..k], nodes[j].nodeType) == Layer(nodes[..j], nodes[j].nodeType) + [nodes[j].id]
    decreases k
  {
    LayerGrows(nodes, k - 1, nodes[j].nodeType);
    if k == j + 1 {
    } else {
      NoneBetween(nodes, j, k - 1);
    }
  }

  /** Any two laid-out nodes are separated if and only if the ids are distinct. */
  method LayoutSeparates(nodes: seq<RawNode>) returns (laid: seq<Node>)
    ensures |laid| == |nodes|
    ensures (forall j, k :: 0 <= j < k < |laid| ==> Separated(laid[j].position, laid[k].position)) <==>
            DistinctIds(nodes)
  {
    laid := LayoutNodes(nodes);
    if DistinctIds(nodes) {
      forall j, k | 0 <= j < k < |laid| ensures Separated(laid[j].position, laid[k].position) {
        PlacesAreSeparated(nodes, j, k);
      }
    } else {
      var j, k :| 0 <= j < k < |nodes| && nodes[j].id == nodes[k].id;
      assert !Separated(laid[j].position, laid[k].position);
    }
  }

  /** Columns stand in the order signal, rule, alert, incident, with moved tasks to the right of the incidents. */
  lemma ColumnsAreOrdered(nodes: seq<RawNode>, i: nat)
    ensures PlaceOf(nodes, Signal, i).x == 30
    ensures PlaceOf(nodes, Rule, i).x == PlaceOf(nodes, Signal, i).x + 250
    ensures PlaceOf(nodes, Alert, i).x == PlaceOf(nodes, Rule, i).x + 250
    ensures PlaceOf(nodes, Incident, i).x == PlaceOf(nodes, Alert, i).x + 250
    ensures PlaceOf(nodes, Task, i).x ==
            PlaceOf(nodes, Incident, i).x +
            (if Layer(nodes, Task) != [] && Layer(nodes, Incident) != [] then 220 else 0)
  {
  }

  /** A layer that is not moved is centred on y = 200: mirrored ranks lie at mirrored heights. */
  lemma LayersAreCentred(nodes: seq<RawNode>, t: NodeType, i: nat)
    requires i < |Layer(nodes, t)| && !(t == Task && TasksMoved(nodes))
    ensures PlaceOf(nodes, t, i).y + PlaceOf(nodes, t, |Layer(nodes, t)| - 1 - i).y == 2 * 200
  {
    var n := |Layer(nodes, t)|;
    assert (n - 1) * 120 / 2 * 2 == (n - 1) * 120;
  }

  /** Moved tasks start 140 below the lowest incident, so no task is level with or above an incident. */
  lemma TasksAreBelowIncidents(nodes: seq<RawNode>, i: nat, j: nat)
    requires TasksMoved(nodes) && i < |Layer(nodes, Task)| && j < |Layer(nodes, Incident)|
    ensures PlaceOf(nodes, Task, i).y >= PlaceOf(nodes, Incident, j).y + 140
    ensures PlaceOf(nodes, Task, i).y == PlaceOf(nodes, Incident, |Layer(nodes, Incident)| - 1).y + 140 + 120 * i
  {
  }
}
