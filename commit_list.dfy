/**
  The commit graph of the history view (`CommitList.CreateLogGraph`): one pass over the
  commits of `git log --topo-order --all`, newest first, that gives every commit a row,
  a lane (column) and a colour, and every parent-to-child edge a style, a column and a
  colour. Edges are written into per-row occupancy lists; a lane is freed once all the
  parent edges of its occupant are drawn. The GUI version also attaches the reference
  labels afterwards.

  Nodes and edges are values: a node refers to its commit by value and to its edges by
  value, an edge to its two nodes by row number. The rows of the original, pairs of a
  node and its edge list, are the sequence of nodes and the sequence of occupancy lists.
*/
module CommitList {
  import opened Wrappers
  import opened CommitStore

  /** Height of one row in pixels. */
  const LineHeight: int := 16

  datatype EdgeStyle = DirectEdge | BranchEdge | MergeEdge

  datatype NodeKind = NormalNode | BranchNode | MergeNode | JunctionNode

  datatype RefKind = BranchRef | RemoteRef | TagRef | HeadBranchRef | DetachedHeadRef | ModuleRef

  datatype Label = Label(name: string, kind: RefKind)

  /** An edge from the node in row `parent` up to the node of its child in row `child`. */
  datatype Edge = Edge(parent: nat, child: nat, style: EdgeStyle, x: nat, color: nat)

  datatype Node = Node(
    commit: Commit,
    x: nat,
    y: nat,
    color: nat,
    parentEdges: seq<Edge>,
    childEdges: seq<Edge>,
    references: seq<Label>)

  /** The two versions of the layout: the GUI's, and the older one whose merge-column
      search looks at edges only. */
  datatype Version = Gui | Wx

  type Occupancy = seq<Option<Edge>>

  /** `GraphNode`'s style: more than one parent makes a merge, more than one child a
      branch, both a junction. */
  function Kind(c: Commit): (k: NodeKind)
    ensures (k == MergeNode || k == JunctionNode) <==> |c.parents| > 1
    ensures (k == BranchNode || k == JunctionNode) <==> |c.children| > 1
  {
    if |c.parents| > 1 && |c.children| > 1 then JunctionNode
    else if |c.parents| > 1 then MergeNode
    else if |c.children| > 1 then BranchNode
    else NormalNode
  }

  function Max(a: nat, b: nat): nat
  {
    if a < b then b else a
  }

  // ---- The column of a merge edge ----

  /** Row `yy` of the span of an edge from row `y` blocks column `col`: the GUI version
      counts the node of a row strictly inside the span, both versions an edge already
      written there. */
  predicate Collision(version: Version, nodes: seq<Node>, rows: seq<Occupancy>, y: nat, yy: nat, col: nat)
    requires yy < |nodes| && yy < |rows|
  {
    (version == Gui && yy < y && nodes[yy].x == col) ||
    (col < |rows[yy]| && rows[yy][col] != None)
  }

  /** Column `col` is free over the rows `(c, y]` of an edge from row `y` to row `c`. */
  predicate Free(version: Version, nodes: seq<Node>, rows: seq<Occupancy>, y: nat, c: nat, col: nat)
    requires y < |nodes| && y < |rows|
  {
    forall yy :: c < yy <= y ==> !Collision(version, nodes, rows, y, yy, col)
  }

  /** A column beyond every node and every occupancy list of the rows `(c, y]`. */
  function SpanBound(nodes: seq<Node>, rows: seq<Occupancy>, y: nat, c: nat): (b: nat)
    requires y < |nodes| && y < |rows|
    ensures forall yy :: c < yy <= y ==> nodes[yy].x < b && |rows[yy]| <= b
    decreases y
  {
    if y <= c then 0
    else
      var below := if y == 0 then 0 else SpanBound(nodes, rows, y - 1, c);
      Max(below, Max(nodes[y].x + 1, |rows[y]|))
  }

  /** The inner scan of the search: from row `y` down to row `c + 1`, stopping at the
      first row that blocks the column. */
  method Collides(version: Version, nodes: seq<Node>, rows: seq<Occupancy>, y: nat, c: nat, col: nat)
    returns (hit: bool)
    requires y < |nodes| && y < |rows|
    ensures hit <==> !Free(version, nodes, rows, y, c, col)
  {
    var yy := y;
    while yy > c
      invariant yy <= y
      invariant forall z: nat :: yy < z <= y ==> !Collision(version, nodes, rows, y, z, col)
    {
      if (version == Gui && yy < y && nodes[yy].x == col) ||
         (col < |rows[yy]| && rows[yy][col] != None) {
        assert Collision(version, nodes, rows, y, yy, col);
        return true;
      }
      yy := yy - 1;
    }
    return false;
  }

  /** The search for a merge edge's column: starting from `start`, the column moves right
      until it is free, so it is the first free column from `start` on. */
  method MergeColumn(version: Version, nodes: seq<Node>, rows: seq<Occupancy>, y: nat, c: nat,
                     start: nat)
    returns (col: nat)
    requires y < |nodes| && y < |rows|
    ensures start <= col
    ensures Free(version, nodes, rows, y, c, col)
    ensures forall k :: start <= k < col ==> !Free(version, nodes, rows, y, c, k)
  {
    ghost var bound := SpanBound(nodes, rows, y, c);
    col := start;
    var success := false;
    while !success
      invariant start <= col
      invariant forall k :: start <= k < col ==> !Free(version, nodes, rows, y, c, k)
      invariant success ==> Free(version, nodes, rows, y, c, col)
      decreases if success then 0 else 1 + (if col < bound then bound - col else 0)
    {
      var hit := Collides(version, nodes, rows, y, c, col);
      if hit {
        col := col + 1;
      } else {
        success := true;
      }
    }
  }

  // ---- Writing an edge into the rows it spans ----

  /** An occupancy list padded with None up to `e.x` and holding `e` at `e.x`. */
  function Written(row: Occupancy, e: Edge): (r: Occupancy)
    ensures |r| == Max(|row|, e.x + 1)
    ensures r[e.x] == Some(e)
    ensures forall k :: 0 <= k < |r| && k != e.x ==> r[k] == if k < |row| then row[k] else None
  {
    var padded := if |row| < e.x + 1 then row + seq(e.x + 1 - |row|, _ => None) else row;
    padded[e.x := Some(e)]
  }

  /** Registers an edge from row `y` to row `c` in every row of `(c, y]`. */
  method RegisterEdge(rows: seq<Occupancy>, e: Edge, y: nat, c: nat) returns (r: seq<Occupancy>)
    requires y < |rows|
    ensures |r| == |rows|
    ensures forall yy :: 0 <= yy < |r| ==> r[yy] == if c < yy <= y then Written(rows[yy], e) else rows[yy]
  {
    r := rows;
    var yy := y;
    while yy > c
      invariant yy <= y && |r| == |rows|
      invariant c <= yy || yy == y
      invariant forall z :: 0 <= z < |r| ==> r[z] == if yy < z <= y then Written(rows[z], e) else rows[z]
    {
      var edges := r[yy];
      if |edges| < e.x + 1 {
        edges := edges + seq(e.x + 1 - |edges|, _ => None);
      }
      edges := edges[e.x := Some(e)];
      r := r[yy := edges];
      yy := yy - 1;
    }
  }

  // ---- Lanes ----

  /** Every lane holds nothing or the row of an earlier node. */
  ghost predicate LanesValid(lanes: seq<Option<nat>>, n: nat)
  {
    forall i :: 0 <= i < |lanes| && lanes[i].Some? ==> lanes[i].value < n
  }

  /** Lane `i` holds a node that lists the commit `id` among its parents. */
  predicate ChildLane(lanes: seq<Option<nat>>, nodes: seq<Node>, id: Id, i: nat)
    requires i < |lanes| && LanesValid(lanes, |nodes|)
  {
    lanes[i].Some? && id in nodes[lanes[i].value].commit.parents
  }

  ghost predicate AnyChildLane(lanes: seq<Option<nat>>, nodes: seq<Node>, id: Id)
    requires LanesValid(lanes, |nodes|)
  {
    exists i :: 0 <= i < |lanes| && ChildLane(lanes, nodes, id, i)
  }

  /** The column and colour of the node of commit `id`. The first lane whose node is a
      child of the commit gives both; otherwise the node takes the colour counter, which
      moves on, and the first empty lane, or a new lane at the end. */
  method ChooseLane(lanes: seq<Option<nat>>, nodes: seq<Node>, id: Id, color: nat)
    returns (x: nat, nodeColor: nat, newLanes: seq<Option<nat>>, newColor: nat)
    requires LanesValid(lanes, |nodes|)
    ensures LanesValid(newLanes, |nodes|) && x < |newLanes|
    ensures AnyChildLane(lanes, nodes, id) ==>
      x < |lanes| && ChildLane(lanes, nodes, id, x) &&
      (forall i :: 0 <= i < x ==> !ChildLane(lanes, nodes, id, i)) &&
      nodeColor == nodes[lanes[x].value].color && newLanes == lanes && newColor == color
    ensures !AnyChildLane(lanes, nodes, id) ==>
      nodeColor == color && newColor == color + 1 &&
      (None in lanes ==>
        x < |lanes| && lanes[x] == None && (forall i :: 0 <= i < x ==> lanes[i] != None) &&
        newLanes == lanes) &&
      (None !in lanes ==> x == |lanes| && newLanes == lanes + [None])
  {
    var i := 0;
    while i < |lanes|
      invariant i <= |lanes|
      invariant forall j :: 0 <= j < i ==> !ChildLane(lanes, nodes, id, j)
    {
      if lanes[i].Some? && id in nodes[lanes[i].value].commit.parents {
        assert ChildLane(lanes, nodes, id, i);
        return i, nodes[lanes[i].value].color, lanes, color;
      }
      i := i + 1;
    }
    nodeColor, newColor := color, color + 1;
    newLanes := lanes;
    x := 0;
    while x < |lanes| && lanes[x] != None
      invariant x <= |lanes|
      invariant forall j :: 0 <= j < x ==> lanes[j] != None
    {
      x := x + 1;
    }
    if x == |lanes| {
      newLanes := lanes + [None];
    }
  }

  /** A node all of whose parent edges are drawn. */
  predicate Finished(n: Node)
  {
    |n.parentEdges| == |n.commit.parents|
  }

  /** Ends every lane whose node has all its parent edges drawn. */
  method FreeLanes(lanes: seq<Option<nat>>, nodes: seq<Node>) returns (r: seq<Option<nat>>)
    requires LanesValid(lanes, |nodes|)
    ensures |r| == |lanes|
    ensures forall i :: 0 <= i < |r| ==>
      r[i] == if lanes[i].Some? && Finished(nodes[lanes[i].value]) then None else lanes[i]
  {
    r := lanes;
    var i := 0;
    while i < |r|
      invariant i <= |r| == |lanes|
      invariant forall j :: 0 <= j < |r| ==>
        r[j] == if j < i && lanes[j].Some? && Finished(nodes[lanes[j].value]) then None else lanes[j]
    {
      if r[i].Some? && Finished(nodes[r[i].value]) {
        r := r[i := None];
      }
      i := i + 1;
    }
  }

  // ---- Edges ----

  /** The condition for a direct edge: the child sits in the node's column and still
      occupies the node's lane. */
  predicate DirectCase(lanes: seq<Option<nat>>, nodes: seq<Node>, y: nat, c: nat)
    requires y < |nodes| && c < |nodes| && nodes[y].x < |lanes|
  {
    nodes[c].x == nodes[y].x && lanes[nodes[y].x] == Some(c)
  }

  /** The style, column and colour of the edge from the node in row `y` to its child in
      row `c`: direct in the shared column with the child's colour; otherwise a branch edge
      in the child's column with the child's colour when the child has one parent;
      otherwise a merge edge with the node's colour in the first free column from
      `max(node.x, child.x + 1)` on. */
  method ChildEdge(version: Version, nodes: seq<Node>, rows: seq<Occupancy>,
                   lanes: seq<Option<nat>>, y: nat, c: nat)
    returns (e: Edge)
    requires y < |nodes| && y < |rows| && c < |nodes| && nodes[y].x < |lanes|
    ensures e.parent == y && e.child == c
    ensures e.style == DirectEdge <==> DirectCase(lanes, nodes, y, c)
    ensures e.style == BranchEdge <==>
      !DirectCase(lanes, nodes, y, c) && |nodes[c].commit.parents| == 1
    ensures e.style != MergeEdge ==> e.x == nodes[c].x && e.color == nodes[c].color
    ensures e.style == MergeEdge ==>
      var start := Max(nodes[y].x, nodes[c].x + 1);
      e.color == nodes[y].color && start <= e.x &&
      Free(version, nodes, rows, y, c, e.x) &&
      forall k :: start <= k < e.x ==> !Free(version, nodes, rows, y, c, k)
  {
    var node, child := nodes[y], nodes[c];
    if child.x == node.x && lanes[node.x] == Some(c) {
      e := Edge(y, c, DirectEdge, node.x, child.color);
    } else if |child.commit.parents| == 1 {
      e := Edge(y, c, BranchEdge, child.x, child.color);
    } else {
      var col := MergeColumn(version, nodes, rows, y, c, Max(node.x, child.x + 1));
      e := Edge(y, c, MergeEdge, col, node.color);
    }
  }

  // ---- The whole layout ----

  /** The sha1s of the first `n` commits. */
  ghost function SeenIds(commits: seq<Commit>, n: nat): set<Id>
    requires n <= |commits|
  {
    set i | 0 <= i < n :: commits[i].sha1
  }

  /** Every child of the commit in row `i` has a node by the time row `i` is drawn: it is
      that commit or an earlier one. */
  ghost predicate ChildrenSeen(commits: seq<Commit>, i: nat)
    requires i < |commits|
  {
    forall j :: 0 <= j < |commits[i].children| ==> commits[i].children[j] in SeenIds(commits, i + 1)
  }

  /** The table from sha1 to row after `n` rows: a row holding that commit. */
  ghost predicate IndexOk(commits: seq<Commit>, rowOf: map<Id, nat>, n: nat)
    requires n <= |commits|
  {
    rowOf.Keys == SeenIds(commits, n) &&
    forall id :: id in rowOf ==> rowOf[id] < n && commits[rowOf[id]].sha1 == id
  }

  /** The style rules, as far as the finished graph shows them: a direct edge runs in the
      shared column of both nodes with the child's colour, a branch edge to a child with
      one parent in the child's column and colour, a merge edge to a child without exactly
      one parent with the node's colour, right of the child and not left of the node. */
  ghost predicate StyleOk(nodes: seq<Node>, e: Edge)
    requires e.parent < |nodes| && e.child < |nodes|
  {
    var node, child := nodes[e.parent], nodes[e.child];
    (e.style == DirectEdge ==> e.x == node.x && e.x == child.x && e.color == child.color) &&
    (e.style == BranchEdge ==>
      |child.commit.parents| == 1 && e.x == child.x && e.color == child.color) &&
    (e.style == MergeEdge ==>
      |child.commit.parents| != 1 && e.color == node.color && node.x <= e.x && child.x < e.x)
  }

  /** Every row the edge spans, `(child, parent]`, has an edge in the edge's column. */
  ghost predicate Registered(rows: seq<Occupancy>, e: Edge)
    requires e.parent < |rows|
  {
    forall yy :: e.child < yy <= e.parent ==> e.x < |rows[yy]| && rows[yy][e.x].Some?
  }

  /** The `j`-th child edge of the node in row `i`: it leaves row `i` for the row of the
      `j`-th child, which is no later, and it keeps the style rules and is registered. */
  ghost predicate EdgeOk(nodes: seq<Node>, rows: seq<Occupancy>, i: nat, j: nat)
    requires i < |nodes| == |rows| && j < |nodes[i].childEdges| && j < |nodes[i].commit.children|
  {
    var e := nodes[i].childEdges[j];
    e.parent == i && e.child <= i &&
    nodes[e.child].commit.sha1 == nodes[i].commit.children[j] &&
    StyleOk(nodes, e) && Registered(rows, e)
  }

  /** The node in row `i` has one edge per child, each as `EdgeOk` says. */
  ghost predicate RowDone(nodes: seq<Node>, rows: seq<Occupancy>, i: nat)
    requires i < |nodes| == |rows|
  {
    |nodes[i].childEdges| == |nodes[i].commit.children| &&
    forall j :: 0 <= j < |nodes[i].childEdges| ==> EdgeOk(nodes, rows, i, j)
  }

  /** `columns` is the largest column of a node or an edge among the first `n` rows (0 when
      there is none). */
  ghost predicate ColumnsOk(nodes: seq<Node>, columns: nat, n: nat)
    requires n <= |nodes|
  {
    (forall i :: 0 <= i < n ==> nodes[i].x <= columns) &&
    (forall i, j :: 0 <= i < n && 0 <= j < |nodes[i].childEdges| ==> nodes[i].childEdges[j].x <= columns) &&
    (columns == 0 ||
     (exists i :: 0 <= i < n && nodes[i].x == columns) ||
     (exists i, j :: 0 <= i < n && 0 <= j < |nodes[i].childEdges| && nodes[i].childEdges[j].x == columns))
  }

  /** What a later step keeps of the nodes: commit, column, row and colour of every node,
      and the child edges of the first `n`. */
  ghost predicate Stable(nodes: seq<Node>, nodes': seq<Node>, n: nat)
  {
    |nodes'| == |nodes| &&
    forall i :: 0 <= i < |nodes| ==>
      nodes'[i].commit == nodes[i].commit && nodes'[i].x == nodes[i].x &&
      nodes'[i].y == nodes[i].y && nodes'[i].color == nodes[i].color &&
      (i < n ==> nodes'[i].childEdges == nodes[i].childEdges)
  }

  /** The labels of every node are as they were. */
  ghost predicate SameLabels(nodes: seq<Node>, nodes': seq<Node>)
  {
    |nodes'| == |nodes| && forall i :: 0 <= i < |nodes| ==> nodes'[i].references == nodes[i].references
  }

  /** Occupancy only grows: no list gets shorter and no written entry is cleared. */
  ghost predicate Grown(rows: seq<Occupancy>, rows': seq<Occupancy>)
  {
    |rows'| == |rows| && forall yy :: 0 <= yy < |rows| ==> RowGrown(rows[yy], rows'[yy])
  }

  /** A row's occupancy list grows: no slot disappears and no occupied slot is freed. */
  ghost predicate RowGrown(row: Occupancy, row': Occupancy)
  {
    |row| <= |row'| && forall k :: 0 <= k < |row| && row[k].Some? ==> row'[k].Some?
  }

  lemma GrownTrans(a: seq<Occupancy>, b: seq<Occupancy>, c: seq<Occupancy>)
    requires Grown(a, b) && Grown(b, c)
    ensures Grown(a, c)
  {
    forall yy | 0 <= yy < |a|
      ensures RowGrown(a[yy], c[yy])
    {
      assert RowGrown(a[yy], b[yy]) && RowGrown(b[yy], c[yy]);
    }
  }

  /** An edge that keeps its place in its node's list stays as `EdgeOk` says. */
  lemma EdgeKept(nodes: seq<Node>, rows: seq<Occupancy>, nodes': seq<Node>, rows': seq<Occupancy>,
                 i: nat, j: nat)
    requires i < |nodes| == |rows| && j < |nodes[i].childEdges| && j < |nodes[i].commit.children|
    requires Stable(nodes, nodes', 0) && Grown(rows, rows')
    requires j < |nodes'[i].childEdges| && nodes'[i].childEdges[j] == nodes[i].childEdges[j]
    requires EdgeOk(nodes, rows, i, j)
    ensures EdgeOk(nodes', rows', i, j)
  {
    var e := nodes[i].childEdges[j];
    forall yy | e.child < yy <= e.parent
      ensures e.x < |rows'[yy]| && rows'[yy][e.x].Some?
    {
      assert e.x < |rows[yy]| && rows[yy][e.x].Some?;
    }
  }

  /** Rows already drawn stay drawn under a later step. */
  lemma RowsKept(nodes: seq<Node>, rows: seq<Occupancy>, nodes': seq<Node>, rows': seq<Occupancy>,
                 n: nat)
    requires n <= |nodes| == |rows|
    requires Stable(nodes, nodes', n) && Grown(rows, rows')
    requires forall i :: 0 <= i < n ==> RowDone(nodes, rows, i)
    ensures forall i :: 0 <= i < n ==> RowDone(nodes', rows', i)
  {
    forall i | 0 <= i < n
      ensures RowDone(nodes', rows', i)
    {
      assert RowDone(nodes, rows, i);
      forall j | 0 <= j < |nodes'[i].childEdges|
        ensures EdgeOk(nodes', rows', i, j)
      {
        EdgeKept(nodes, rows, nodes', rows', i, j);
      }
    }
  }

  /** Registering an edge only grows the occupancy lists. */
  lemma RegisterGrows(rows: seq<Occupancy>, r: seq<Occupancy>, e: Edge, y: nat, c: nat)
    requires |r| == |rows|
    requires forall yy :: 0 <= yy < |r| ==> r[yy] == if c < yy <= y then Written(rows[yy], e) else rows[yy]
    ensures Grown(rows, r)
  {
  }

  /** One child edge of the node in row `y`, to the node in row `c`: styled, registered in
      the rows it spans, and appended to the node's child edges and to the child's parent
      edges. (The original appends before styling; the style does not read those lists.) */
  method AddEdge(version: Version, nodes: seq<Node>, rows: seq<Occupancy>, lanes: seq<Option<nat>>,
                 y: nat, c: nat)
    returns (nodes': seq<Node>, rows': seq<Occupancy>, e: Edge)
    requires y < |nodes| == |rows| && c <= y && nodes[y].x < |lanes|
    ensures e.parent == y && e.child == c
    ensures var n1 := nodes[y := nodes[y].(childEdges := nodes[y].childEdges + [e])];
      nodes' == n1[c := n1[c].(parentEdges := n1[c].parentEdges + [e])]
    ensures Stable(nodes, nodes', y) && Grown(rows, rows') && SameLabels(nodes, nodes')
    ensures StyleOk(nodes', e) && Registered(rows', e)
  {
    e := ChildEdge(version, nodes, rows, lanes, y, c);
    rows' := RegisterEdge(rows, e, y, c);
    RegisterGrows(rows, rows', e, y, c);
    nodes' := nodes[y := nodes[y].(childEdges := nodes[y].childEdges + [e])];
    nodes' := nodes'[c := nodes'[c].(parentEdges := nodes'[c].parentEdges + [e])];
  }

  /** The edges of the node in row `y`: for each child in turn, the child's node is looked
      up (its absence is the original's `KeyError`) and the edge is added. */
  method DrawEdges(version: Version, nodes: seq<Node>, rows: seq<Occupancy>, lanes: seq<Option<nat>>,
                   rowOf: map<Id, nat>, y: nat, columns: nat)
    returns (nodes': seq<Node>, rows': seq<Occupancy>, columns': nat, missing: Option<Id>)
    requires y < |nodes| == |rows| && nodes[y].childEdges == [] && nodes[y].x < |lanes|
    requires forall id :: id in rowOf ==> rowOf[id] <= y && nodes[rowOf[id]].commit.sha1 == id
    ensures missing.None? <==> forall j :: 0 <= j < |nodes[y].commit.children| ==> nodes[y].commit.children[j] in rowOf
    ensures missing.Some? ==> missing.value in nodes[y].commit.children && missing.value !in rowOf
    ensures missing.None? ==>
      Stable(nodes, nodes', y) && Grown(rows, rows') && RowDone(nodes', rows', y) &&
      SameLabels(nodes, nodes') &&
      columns <= columns' &&
      (forall j :: 0 <= j < |nodes'[y].childEdges| ==> nodes'[y].childEdges[j].x <= columns') &&
      (columns' == columns || exists j :: 0 <= j < |nodes'[y].childEdges| && nodes'[y].childEdges[j].x == columns')
  {
    nodes', rows', columns', missing := nodes, rows, columns, None;
    var children := nodes[y].commit.children;
    var k := 0;
    while k < |children|
      invariant k <= |children| && |nodes'| == |rows'| == |nodes|
      invariant Stable(nodes, nodes', y) && Grown(rows, rows') && SameLabels(nodes, nodes')
      invariant nodes'[y].commit == nodes[y].commit && |nodes'[y].childEdges| == k
      invariant forall j :: 0 <= j < k ==> children[j] in rowOf
      invariant forall j :: 0 <= j < k ==> EdgeOk(nodes', rows', y, j)
      invariant columns <= columns'
      invariant forall j :: 0 <= j < k ==> nodes'[y].childEdges[j].x <= columns'
      invariant columns' == columns || exists j :: 0 <= j < k && nodes'[y].childEdges[j].x == columns'
    {
      var childId := children[k];
      if childId !in rowOf {
        return nodes', rows', columns', Some(childId);
      }
      ghost var before, rowsBefore, columnsBefore := nodes', rows', columns';
      var e;
      nodes', rows', e := AddEdge(version, nodes', rows', lanes, y, rowOf[childId]);
      columns' := Max(columns', e.x);
      DrawStep(nodes, rows, before, rowsBefore, nodes', rows', e, y, k);
      WidestStep(before[y].childEdges, e, columns, columnsBefore);
      k := k + 1;
    }
  }

  /** The widest edge column after one more edge. */
  lemma WidestStep(edges: seq<Edge>, e: Edge, columns: nat, before: nat)
    requires columns <= before
    requires forall j :: 0 <= j < |edges| ==> edges[j].x <= before
    requires before == columns || exists j :: 0 <= j < |edges| && edges[j].x == before
    ensures var edges', after := edges + [e], Max(before, e.x);
      columns <= after && (forall j :: 0 <= j < |edges'| ==> edges'[j].x <= after) &&
      (after == columns || exists j :: 0 <= j < |edges'| && edges'[j].x == after)
  {
    var edges', after := edges + [e], Max(before, e.x);
    if after != before {
      assert edges'[|edges|].x == after;
    } else if after != columns {
      var j :| 0 <= j < |edges| && edges[j].x == before;
      assert edges'[j].x == after;
    }
  }

  /** The loop step of `DrawEdges`: the earlier edges stay as they were, the new one is the
      `k`-th. */
  lemma DrawStep(nodes: seq<Node>, rows: seq<Occupancy>, before: seq<Node>, rowsBefore: seq<Occupancy>,
                 nodes': seq<Node>, rows': seq<Occupancy>, e: Edge, y: nat, k: nat)
    requires y < |nodes| == |rows| == |before| == |rowsBefore|
    requires Stable(nodes, before, y) && Grown(rows, rowsBefore)
    requires Stable(before, nodes', y) && Grown(rowsBefore, rows')
    requires k < |nodes[y].commit.children| && before[y].commit == nodes[y].commit
    requires |before[y].childEdges| == k && nodes'[y].childEdges == before[y].childEdges + [e]
    requires forall j :: 0 <= j < k ==> EdgeOk(before, rowsBefore, y, j)
    requires e.parent == y && e.child <= y && StyleOk(nodes', e) && Registered(rows', e)
    requires nodes'[e.child].commit.sha1 == nodes[y].commit.children[k]
    ensures Stable(nodes, nodes', y) && Grown(rows, rows')
    ensures forall j :: 0 <= j <= k ==> EdgeOk(nodes', rows', y, j)
  {
    GrownTrans(rows, rowsBefore, rows');
    forall j | 0 <= j < k
      ensures EdgeOk(nodes', rows', y, j)
    {
      EdgeKept(before, rowsBefore, nodes', rows', y, j);
    }
    assert nodes'[y].childEdges[k] == e;
  }

  /** The finished picture of the first `n` rows: a node per commit in its own row, every
      row's edges drawn, the index from sha1 to row, and the widest column. */
  ghost predicate Drawn(commits: seq<Commit>, n: nat, nodes: seq<Node>, rows: seq<Occupancy>,
                        rowOf: map<Id, nat>, columns: nat)
  {
    n <= |commits| && |nodes| == |rows| == n &&
    (forall i :: 0 <= i < n ==> nodes[i].commit == commits[i] && nodes[i].y == i) &&
    IndexOk(commits, rowOf, n) &&
    (forall i :: 0 <= i < n ==> RowDone(nodes, rows, i)) &&
    ColumnsOk(nodes, columns, n)
  }

  /** No node has a reference label yet. */
  ghost predicate Unlabelled(nodes: seq<Node>)
  {
    forall i :: 0 <= i < |nodes| ==> nodes[i].references == []
  }

  /** Appending a node and an empty row keeps the rows already drawn. */
  lemma RowsExtended(nodes: seq<Node>, rows: seq<Occupancy>, node: Node, n: nat)
    requires n == |nodes| == |rows|
    requires forall i :: 0 <= i < n ==> RowDone(nodes, rows, i)
    ensures forall i :: 0 <= i < n ==> RowDone(nodes + [node], rows + [[]], i)
  {
    var nodes', rows' := nodes + [node], rows + [[]];
    forall i | 0 <= i < n
      ensures RowDone(nodes', rows', i)
    {
      assert RowDone(nodes, rows, i);
      forall j | 0 <= j < |nodes'[i].childEdges|
        ensures EdgeOk(nodes', rows', i, j)
      {
        assert EdgeOk(nodes, rows, i, j);
        var e := nodes[i].childEdges[j];
        forall yy | e.child < yy <= e.parent
          ensures e.x < |rows'[yy]| && rows'[yy][e.x].Some?
        {
          assert e.x < |rows[yy]| && rows[yy][e.x].Some?;
        }
      }
    }
  }

  /** The widest column after row `y` is drawn, from the widest before it, the node's column
      and the widest of its edges. */
  lemma ColumnsStep(nodes: seq<Node>, nodes': seq<Node>, y: nat, columns: nat, columns': nat)
    requires y < |nodes| && Stable(nodes, nodes', y)
    requires ColumnsOk(nodes, columns, y)
    requires Max(columns, nodes[y].x) <= columns'
    requires forall j :: 0 <= j < |nodes'[y].childEdges| ==> nodes'[y].childEdges[j].x <= columns'
    requires columns' == Max(columns, nodes[y].x) ||
      exists j :: 0 <= j < |nodes'[y].childEdges| && nodes'[y].childEdges[j].x == columns'
    ensures ColumnsOk(nodes', columns', y + 1)
  {
    forall i, j | 0 <= i < y + 1 && 0 <= j < |nodes'[i].childEdges|
      ensures nodes'[i].childEdges[j].x <= columns'
    {
      if i < y {
        assert nodes'[i].childEdges == nodes[i].childEdges;
      }
    }
    if columns' != 0 && columns' != nodes[y].x &&
       !(exists j :: 0 <= j < |nodes'[y].childEdges| && nodes'[y].childEdges[j].x == columns') {
      assert columns' == columns;
      if exists i :: 0 <= i < y && nodes[i].x == columns {
        var i :| 0 <= i < y && nodes[i].x == columns;
        assert nodes'[i].x == columns';
      } else {
        var i, j :| 0 <= i < y && 0 <= j < |nodes[i].childEdges| && nodes[i].childEdges[j].x == columns;
        assert nodes'[i].childEdges[j].x == columns';
      }
    }
  }

  /** One row of the layout: the node of commit `y` takes its lane and colour, its edges
      are drawn, finished lanes are freed and the node takes its lane. */
  method LayoutRow(version: Version, commits: seq<Commit>, y: nat, nodes: seq<Node>,
                   rows: seq<Occupancy>, lanes: seq<Option<nat>>, rowOf: map<Id, nat>,
                   columns: nat, color: nat)
    returns (nodes': seq<Node>, rows': seq<Occupancy>, lanes': seq<Option<nat>>,
             rowOf': map<Id, nat>, columns': nat, color': nat, missing: Option<Id>)
    requires y < |commits| && Drawn(commits, y, nodes, rows, rowOf, columns)
    requires LanesValid(lanes, y) && Unlabelled(nodes)
    ensures missing.None? <==> ChildrenSeen(commits, y)
    ensures missing.Some? ==> missing.value in commits[y].children && missing.value !in SeenIds(commits, y + 1)
    ensures missing.None? ==>
      Drawn(commits, y + 1, nodes', rows', rowOf', columns') && LanesValid(lanes', y + 1) &&
      Unlabelled(nodes')
  {
    var commit := commits[y];
    var x, nodeColor, grown;
    x, nodeColor, grown, color' := ChooseLane(lanes, nodes, commit.sha1, color);
    var node := Node(commit, x, y, nodeColor, [], [], []);
    var nodes1, rows1 := nodes + [node], rows + [[]];
    rowOf' := rowOf[commit.sha1 := y];
    RowOpened(commits, y, nodes, rows, rowOf, columns, node);
    nodes', rows', columns', missing := DrawEdges(version, nodes1, rows1, grown, rowOf', y, Max(columns, x));
    lanes' := grown;
    if missing.Some? {
      return;
    }
    RowClosed(commits, y, nodes1, rows1, rowOf', columns, nodes', rows', columns');
    lanes' := FreeLanes(grown, nodes');
    lanes' := lanes'[x := Some(y)];
  }

  /** The state once the node of row `y` is appended, before its edges are drawn. */
  ghost predicate Opened(commits: seq<Commit>, y: nat, nodes: seq<Node>, rows: seq<Occupancy>,
                         rowOf: map<Id, nat>, columns: nat)
  {
    y < |commits| && |nodes| == |rows| == y + 1 &&
    (forall i :: 0 <= i <= y ==> nodes[i].commit == commits[i] && nodes[i].y == i) &&
    IndexOk(commits, rowOf, y + 1) &&
    (forall id :: id in rowOf ==> rowOf[id] <= y && nodes[rowOf[id]].commit.sha1 == id) &&
    (forall i :: 0 <= i < y ==> RowDone(nodes, rows, i)) &&
    ColumnsOk(nodes, columns, y) && Unlabelled(nodes)
  }

  lemma RowOpened(commits: seq<Commit>, y: nat, nodes: seq<Node>, rows: seq<Occupancy>,
                  rowOf: map<Id, nat>, columns: nat, node: Node)
    requires y < |commits| && Drawn(commits, y, nodes, rows, rowOf, columns) && Unlabelled(nodes)
    requires node.commit == commits[y] && node.y == y && node.references == []
    ensures Opened(commits, y, nodes + [node], rows + [[]], rowOf[commits[y].sha1 := y], columns)
  {
    var nodes1, rowOf1 := nodes + [node], rowOf[commits[y].sha1 := y];
    RowsExtended(nodes, rows, node, y);
    IndexExtended(commits, y, rowOf);
    ColumnsExtended(nodes, node, columns);
    assert forall i :: 0 <= i <= y ==> nodes1[i].commit == commits[i] && nodes1[i].y == i;
    assert forall id :: id in rowOf1 ==> rowOf1[id] <= y && nodes1[rowOf1[id]].commit.sha1 == id;
  }

  lemma IndexExtended(commits: seq<Commit>, y: nat, rowOf: map<Id, nat>)
    requires y < |commits| && IndexOk(commits, rowOf, y)
    ensures IndexOk(commits, rowOf[commits[y].sha1 := y], y + 1)
  {
    assert SeenIds(commits, y + 1) == SeenIds(commits, y) + {commits[y].sha1};
  }

  lemma ColumnsExtended(nodes: seq<Node>, node: Node, columns: nat)
    requires ColumnsOk(nodes, columns, |nodes|)
    ensures ColumnsOk(nodes + [node], columns, |nodes|)
  {
    var y, nodes1 := |nodes|, nodes + [node];
    forall i, j | 0 <= i < y && 0 <= j < |nodes1[i].childEdges|
      ensures nodes1[i].childEdges[j].x <= columns
    {
      assert nodes1[i] == nodes[i];
    }
    if columns != 0 {
      if exists i :: 0 <= i < y && nodes[i].x == columns {
        var i :| 0 <= i < y && nodes[i].x == columns;
        assert nodes1[i].x == columns;
      } else {
        var i, j :| 0 <= i < y && 0 <= j < |nodes[i].childEdges| && nodes[i].childEdges[j].x == columns;
        assert nodes1[i].childEdges[j].x == columns;
      }
    }
  }

  lemma RowClosed(commits: seq<Commit>, y: nat, nodes: seq<Node>, rows: seq<Occupancy>,
                  rowOf: map<Id, nat>, columns: nat, nodes': seq<Node>, rows': seq<Occupancy>,
                  columns': nat)
    requires Opened(commits, y, nodes, rows, rowOf, columns)
    requires Stable(nodes, nodes', y) && Grown(rows, rows') && RowDone(nodes', rows', y)
    requires SameLabels(nodes, nodes')
    requires Max(columns, nodes[y].x) <= columns'
    requires forall j :: 0 <= j < |nodes'[y].childEdges| ==> nodes'[y].childEdges[j].x <= columns'
    requires columns' == Max(columns, nodes[y].x) ||
      exists j :: 0 <= j < |nodes'[y].childEdges| && nodes'[y].childEdges[j].x == columns'
    ensures Drawn(commits, y + 1, nodes', rows', rowOf, columns') && Unlabelled(nodes')
  {
    RowsKept(nodes, rows, nodes', rows', y);
    ColumnsStep(nodes, nodes', y, columns, columns');
  }

  /** `CreateLogGraph`'s pass over the commits, newest first. A child without a node is
      the original's `KeyError`: the first row with one gives `missing`. */
  method Layout(version: Version, commits: seq<Commit>)
    returns (nodes: seq<Node>, rows: seq<Occupancy>, rowOf: map<Id, nat>, columns: nat,
             missing: Option<Id>)
    ensures missing.None? <==> forall i :: 0 <= i < |commits| ==> ChildrenSeen(commits, i)
    ensures missing.Some? ==> exists i :: FirstUnseenChild(commits, i, missing.value)
    ensures missing.None? ==>
      Drawn(commits, |commits|, nodes, rows, rowOf, columns) && Unlabelled(nodes)
  {
    nodes, rows, rowOf, columns, missing := [], [], map[], 0, None;
    var lanes: seq<Option<nat>> := [];
    var color := 0;
    var y := 0;
    while y < |commits|
      invariant y <= |commits|
      invariant Drawn(commits, y, nodes, rows, rowOf, columns) && LanesValid(lanes, y)
      invariant Unlabelled(nodes) && missing == None
      invariant forall i :: 0 <= i < y ==> ChildrenSeen(commits, i)
    {
      nodes, rows, lanes, rowOf, columns, color, missing :=
        LayoutRow(version, commits, y, nodes, rows, lanes, rowOf, columns, color);
      if missing.Some? {
        assert FirstUnseenChild(commits, y, missing.value);
        return;
      }
      y := y + 1;
    }
  }

  /** Row `i` is the first whose commit has a child without a node: `id`. */
  ghost predicate FirstUnseenChild(commits: seq<Commit>, i: nat, id: Id)
  {
    i < |commits| && (forall k :: 0 <= k < i ==> ChildrenSeen(commits, k)) &&
    id in commits[i].children && id !in SeenIds(commits, i + 1)
  }

  // ---- Reference labels ----

  /** The repository fields the labels come from. */
  datatype RefSources = RefSources(
    head: Id,
    currentBranch: Option<string>,
    mainRef: Option<Id>,
    mainMergeRef: Option<Id>,
    branches: map<string, Id>,
    remoteBranches: map<string, Id>,
    tags: map<string, Id>)

  /** Python truthiness of an optional string: present and non-empty. */
  predicate Truthy(s: Option<string>)
  {
    s.Some? && s.value != ""
  }

  /** The label of `HEAD`: the current branch, or a detached head. */
  function HeadLabel(src: RefSources): (l: Label)
    ensures l.kind == HeadBranchRef <==> Truthy(src.currentBranch)
    ensures l.kind == HeadBranchRef ==> l.name == src.currentBranch.value
  {
    if Truthy(src.currentBranch) then Label(src.currentBranch.value, HeadBranchRef)
    else Label("DETACHED HEAD", DetachedHeadRef)
  }

  /** The commit `id` names is in the pool and its node is in row `r`. */
  predicate Shown(pool: Pool, rowOf: map<Id, nat>, id: Id, r: nat)
  {
    id in pool && pool[id].sha1 in rowOf && rowOf[pool[id].sha1] == r
  }

  /** Whether the node in row `r` carries label `l`: the head label at `HEAD`, the module
      labels at the parent module's refs, every branch except the current one, every
      remote branch and every tag, each where its commit is shown. */
  ghost predicate Requested(src: RefSources, pool: Pool, rowOf: map<Id, nat>, r: nat, l: Label)
  {
    FixedRequested(src, pool, rowOf, r, l) ||
    MapRequested(pool, rowOf, src.branches, BranchRef, src.currentBranch, r, l) ||
    MapRequested(pool, rowOf, src.remoteBranches, RemoteRef, None, r, l) ||
    MapRequested(pool, rowOf, src.tags, TagRef, None, r, l)
  }

  /** The labels not taken from a table: `HEAD` and the parent module's two refs. */
  ghost predicate FixedRequested(src: RefSources, pool: Pool, rowOf: map<Id, nat>, r: nat, l: Label)
  {
    (l == HeadLabel(src) && Shown(pool, rowOf, src.head, r)) ||
    (Truthy(src.mainRef) && l == Label("MAIN/HEAD", ModuleRef) &&
      Shown(pool, rowOf, src.mainRef.value, r)) ||
    (Truthy(src.mainMergeRef) && l == Label("MAIN/MERGE_HEAD", ModuleRef) &&
      Shown(pool, rowOf, src.mainMergeRef.value, r))
  }

  /** Label `l` comes from the table `m` of names to ids, whose labels have `kind`, leaving
      out the name `skip`. */
  predicate MapRequested(pool: Pool, rowOf: map<Id, nat>, m: map<string, Id>, kind: RefKind,
                         skip: Option<string>, r: nat, l: Label)
  {
    l.kind == kind && l.name in m && skip != Some(l.name) && Shown(pool, rowOf, m[l.name], r)
  }

  /** Only the labels of the nodes differ. */
  ghost predicate OnlyLabels(nodes: seq<Node>, nodes': seq<Node>)
  {
    |nodes'| == |nodes| &&
    forall i :: 0 <= i < |nodes| ==> nodes'[i] == nodes[i].(references := nodes'[i].references)
  }

  /** `_add_reference`: an id outside the pool, or whose commit has no node, is dropped;
      otherwise the label goes at the end of that node's labels. */
  method AddReference(nodes: seq<Node>, pool: Pool, rowOf: map<Id, nat>, id: Id, mark: Label)
    returns (nodes': seq<Node>)
    ensures OnlyLabels(nodes, nodes')
    ensures forall r :: 0 <= r < |nodes| ==>
      nodes'[r].references ==
        if Shown(pool, rowOf, id, r) then nodes[r].references + [mark] else nodes[r].references
  {
    nodes' := nodes;
    if id !in pool {
      return;
    }
    var commit := pool[id];
    if commit.sha1 !in rowOf || rowOf[commit.sha1] >= |nodes| {
      return;
    }
    var r := rowOf[commit.sha1];
    nodes' := nodes[r := nodes[r].(references := nodes[r].references + [mark])];
  }

  /** One table of names to ids, in any order. */
  method AddMapReferences(nodes: seq<Node>, pool: Pool, rowOf: map<Id, nat>, m: map<string, Id>,
                          kind: RefKind, skip: Option<string>)
    returns (nodes': seq<Node>)
    ensures OnlyLabels(nodes, nodes')
    ensures forall r, l :: 0 <= r < |nodes| ==>
      (l in nodes'[r].references <==>
        l in nodes[r].references || MapRequested(pool, rowOf, m, kind, skip, r, l))
  {
    nodes' := nodes;
    var rest := m.Keys;
    ghost var done: set<string> := {};
    while rest != {}
      invariant done + rest == m.Keys && OnlyLabels(nodes, nodes')
      invariant forall r, l :: 0 <= r < |nodes| ==>
        (l in nodes'[r].references <==>
          l in nodes[r].references || (MapRequested(pool, rowOf, m, kind, skip, r, l) && l.name in done))
      decreases |rest|
    {
      var name :| name in rest;
      ghost var before := nodes';
      if skip != Some(name) {
        nodes' := AddReference(nodes', pool, rowOf, m[name], Label(name, kind));
      }
      MapStep(nodes, before, nodes', pool, rowOf, m, kind, skip, done, name);
      rest, done := rest - {name}, done + {name};
    }
    assert done == m.Keys;
    forall r, l | 0 <= r < |nodes|
      ensures l in nodes'[r].references <==>
        l in nodes[r].references || MapRequested(pool, rowOf, m, kind, skip, r, l)
    {
      if MapRequested(pool, rowOf, m, kind, skip, r, l) {
        assert l.name in done;
      }
    }
  }

  lemma MapStep(nodes: seq<Node>, before: seq<Node>, nodes': seq<Node>, pool: Pool,
                rowOf: map<Id, nat>, m: map<string, Id>, kind: RefKind, skip: Option<string>,
                done: set<string>, name: string)
    requires name in m && |before| == |nodes'| == |nodes|
    requires forall r, l :: 0 <= r < |nodes| ==>
      (l in before[r].references <==>
        l in nodes[r].references || (MapRequested(pool, rowOf, m, kind, skip, r, l) && l.name in done))
    requires skip == Some(name) ==> nodes' == before
    requires skip != Some(name) ==> forall r :: 0 <= r < |nodes| ==>
      nodes'[r].references ==
        if Shown(pool, rowOf, m[name], r) then before[r].references + [Label(name, kind)]
        else before[r].references
    ensures forall r, l :: 0 <= r < |nodes| ==>
      (l in nodes'[r].references <==>
        l in nodes[r].references || (MapRequested(pool, rowOf, m, kind, skip, r, l) && l.name in done + {name}))
  {
    forall r, l | 0 <= r < |nodes|
      ensures l in nodes'[r].references <==>
        l in nodes[r].references || (MapRequested(pool, rowOf, m, kind, skip, r, l) && l.name in done + {name})
    {
      if skip != Some(name) && Shown(pool, rowOf, m[name], r) {
        // the row of `m[name]` gains exactly the new label
        assert nodes'[r].references == before[r].references + [Label(name, kind)];
        assert l in nodes'[r].references <==> l in before[r].references || l == Label(name, kind);
      } else {
        // no row gains a label, and `name` requests none
        assert nodes'[r].references == before[r].references;
        assert l.name == name ==> !MapRequested(pool, rowOf, m, kind, skip, r, l);
      }
    }
  }

  /** The labels of `CreateLogGraph`, each on the node of its commit: the result holds
      exactly the requested labels that are not already there. */
  method AddReferences(nodes: seq<Node>, pool: Pool, rowOf: map<Id, nat>, src: RefSources)
    returns (nodes': seq<Node>)
    ensures OnlyLabels(nodes, nodes')
    ensures forall r, l :: 0 <= r < |nodes| ==>
      (l in nodes'[r].references <==> l in nodes[r].references || Requested(src, pool, rowOf, r, l))
  {
    nodes' := AddFixedReferences(nodes, pool, rowOf, src);
    nodes' := AddMapReferences(nodes', pool, rowOf, src.branches, BranchRef, src.currentBranch);
    nodes' := AddMapReferences(nodes', pool, rowOf, src.remoteBranches, RemoteRef, None);
    nodes' := AddMapReferences(nodes', pool, rowOf, src.tags, TagRef, None);
  }

  /** The head label first, then the parent module's refs when they are set. */
  method AddFixedReferences(nodes: seq<Node>, pool: Pool, rowOf: map<Id, nat>, src: RefSources)
    returns (nodes': seq<Node>)
    ensures OnlyLabels(nodes, nodes')
    ensures forall r, l :: 0 <= r < |nodes| ==>
      (l in nodes'[r].references <==> l in nodes[r].references || FixedRequested(src, pool, rowOf, r, l))
  {
    nodes' := AddReference(nodes, pool, rowOf, src.head, HeadLabel(src));
    if Truthy(src.mainRef) {
      nodes' := AddReference(nodes', pool, rowOf, src.mainRef.value, Label("MAIN/HEAD", ModuleRef));
    }
    if Truthy(src.mainMergeRef) {
      nodes' := AddReference(nodes', pool, rowOf, src.mainMergeRef.value, Label("MAIN/MERGE_HEAD", ModuleRef));
    }
  }

  /** The current branch is labelled only as the head: never with a plain branch label. */
  lemma CurrentBranchOnce(src: RefSources, pool: Pool, rowOf: map<Id, nat>, r: nat)
    requires src.currentBranch.Some?
    ensures !Requested(src, pool, rowOf, r, Label(src.currentBranch.value, BranchRef))
    ensures Truthy(src.currentBranch) && Shown(pool, rowOf, src.head, r) ==>
      Requested(src, pool, rowOf, r, Label(src.currentBranch.value, HeadBranchRef))
  {
  }

  /** Adding labels leaves the drawing as it was. */
  lemma LabelsKeepDrawing(commits: seq<Commit>, nodes: seq<Node>, nodes': seq<Node>,
                          rows: seq<Occupancy>, rowOf: map<Id, nat>, columns: nat)
    requires Drawn(commits, |commits|, nodes, rows, rowOf, columns) && OnlyLabels(nodes, nodes')
    ensures Drawn(commits, |commits|, nodes', rows, rowOf, columns)
  {
    var n := |commits|;
    assert Stable(nodes, nodes', n) by {
      forall i | 0 <= i < n
        ensures nodes'[i].childEdges == nodes[i].childEdges
      {
        assert nodes'[i] == nodes[i].(references := nodes'[i].references);
      }
    }
    assert Grown(rows, rows) by {
      forall yy | 0 <= yy < |rows|
        ensures RowGrown(rows[yy], rows[yy])
      {
      }
    }
    RowsKept(nodes, rows, nodes', rows, n);
    ColumnsKept(nodes, nodes', columns, n);
  }

  /** The widest column stays right when columns and edges of the first `n` rows stay. */
  lemma ColumnsKept(nodes: seq<Node>, nodes': seq<Node>, columns: nat, n: nat)
    requires n <= |nodes| && Stable(nodes, nodes', n) && ColumnsOk(nodes, columns, n)
    ensures ColumnsOk(nodes', columns, n)
  {
    if columns != 0 && !exists i :: 0 <= i < n && nodes[i].x == columns {
      var i, j :| 0 <= i < n && 0 <= j < |nodes[i].childEdges| && nodes[i].childEdges[j].x == columns;
      assert nodes'[i].childEdges[j].x == columns;
    } else if columns != 0 {
      var i :| 0 <= i < n && nodes[i].x == columns;
      assert nodes'[i].x == columns;
    }
  }

  /** The history view's commit list: the rows of the graph (`nodes` and `edges` are the
      node and edge-list halves of the original's `rows`), the widest column, and the
      table from commit to row. */
  class CommitList {
    var commits: seq<Commit>
    var nodes: seq<Node>
    var edges: seq<Occupancy>
    var columns: nat
    var nodeIndex: map<Id, nat>

    constructor(commits: seq<Commit>)
      ensures this.commits == commits && nodes == [] && edges == [] && columns == 0 &&
        nodeIndex == map[]
    {
      this.commits := commits;
      nodes, edges, columns, nodeIndex := [], [], 0, map[];
    }

    /** The graph is laid out for `commits`. */
    ghost predicate Valid()
      reads this
    {
      Drawn(commits, |commits|, nodes, edges, nodeIndex, columns)
    }

    /** `CreateLogGraph`: the layout, then the labels. When a child has no node the layout
        stops there, as the original does with its `KeyError`. */
    method CreateLogGraph(pool: Pool, src: RefSources) returns (missing: Option<Id>)
      modifies this`nodes, this`edges, this`columns, this`nodeIndex
      ensures missing.None? <==> forall i :: 0 <= i < |commits| ==> ChildrenSeen(commits, i)
      ensures missing.Some? ==> exists i :: FirstUnseenChild(commits, i, missing.value)
      ensures missing.None? ==> Valid()
      ensures missing.None? ==> forall r, l :: 0 <= r < |nodes| ==>
        (l in nodes[r].references <==> Requested(src, pool, nodeIndex, r, l))
    {
      var laid, rows, index, width;
      laid, rows, index, width, missing := Layout(Gui, commits);
      if missing.None? {
        var labelled := AddReferences(laid, pool, index, src);
        LabelsKeepDrawing(commits, laid, labelled, rows, index, width);
        laid := labelled;
      }
      nodes, edges, columns, nodeIndex := laid, rows, width, index;
    }

    /** The row under the vertical position `y`: rows are `LineHeight` pixels apart and
        centred on multiples of it, starting with the second. */
    function RowNumberByCoords(x: int, y: int): (row: Option<nat>)
      reads this`nodes
      ensures row.Some? <==> LineHeight / 2 <= y < LineHeight * |nodes| + LineHeight / 2
      ensures row.Some? ==>
        row.value < |nodes| &&
        LineHeight * (row.value + 1) - LineHeight / 2 <= y < LineHeight * (row.value + 1) + LineHeight / 2
    {
      var r := (y + LineHeight / 2) / LineHeight - 1;
      if r < 0 || r >= |nodes| then None else Some(r)
    }
  }

  /** The older commit list: the same layout with the merge-column search that looks at
      edges only, and no labels. */
  class LegacyCommitList {
    var commits: seq<Commit>
    var nodes: seq<Node>
    var edges: seq<Occupancy>
    var columns: nat

    constructor(commits: seq<Commit>)
      ensures this.commits == commits && nodes == [] && edges == [] && columns == 0
    {
      this.commits := commits;
      nodes, edges, columns := [], [], 0;
    }

    method CreateLogGraph() returns (missing: Option<Id>)
      modifies this`nodes, this`edges, this`columns
      ensures missing.None? <==> forall i :: 0 <= i < |commits| ==> ChildrenSeen(commits, i)
      ensures missing.Some? ==> exists i :: FirstUnseenChild(commits, i, missing.value)
      ensures missing.None? ==>
        exists index :: Drawn(commits, |commits|, nodes, edges, index, columns)
    {
      var laid, rows, index, width;
      laid, rows, index, width, missing := Layout(Wx, commits);
      nodes, edges, columns := laid, rows, width;
      if missing.None? {
        assert Drawn(commits, |commits|, nodes, edges, index, columns);
      }
    }
  }
}
