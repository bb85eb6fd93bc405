/** The in-memory evidence graph (lib/sgraph).  Nodes and edges are known to callers by the
    address of their structure, a handle; edges hold copies of their endpoints' addresses. */
module SGraph {
  import opened Bytes
  import opened Options

  /** A structure's address.  Small numbers are never addresses. */
  type Handle = h: nat | h == 0 || h >= 255

  datatype Address = Address(space: string, addr: string)
  datatype Blob = Blob(tag: string, bytes: seq<byte>)
  datatype Node = Node(a: Address, data: seq<Blob>, labels: seq<string>)
  datatype Edge = Edge(source: Address, dest: Address, labels: seq<string>)

  /** A structure and its handle. */
  datatype Cell<T> = Cell(h: Handle, v: T)

  // ----- lists of cells

  function Values<T>(cells: seq<Cell<T>>): (r: seq<T>)
    ensures |r| == |cells| && forall i | 0 <= i < |cells| :: r[i] == cells[i].v
  {
    seq(|cells|, i requires 0 <= i < |cells| => cells[i].v)
  }

  function Handles<T>(cells: seq<Cell<T>>): (r: seq<Handle>)
    ensures |r| == |cells| && forall i | 0 <= i < |cells| :: r[i] == cells[i].h
  {
    seq(|cells|, i requires 0 <= i < |cells| => cells[i].h)
  }

  predicate DistinctHandles<T>(cells: seq<Cell<T>>) {
    forall i, j | 0 <= i < j < |cells| :: cells[i].h != cells[j].h
  }

  /** The cells whose handles are not gone, in order. */
  function Keep<T>(cells: seq<Cell<T>>, gone: set<Handle>): seq<Cell<T>> {
    if cells == [] then []
    else (if cells[0].h in gone then [] else [cells[0]]) + Keep(cells[1..], gone)
  }

  lemma {:induction false} KeepMembers<T(!new)>(cells: seq<Cell<T>>, gone: set<Handle>)
    ensures forall c :: c in Keep(cells, gone) <==> c in cells && c.h !in gone
  {
    if cells != [] {
      KeepMembers(cells[1..], gone);
      assert cells == [cells[0]] + cells[1..];
    }
  }

  /** g_list_remove: drops the first cell with that handle. */
  function RemoveFirst<T>(cells: seq<Cell<T>>, h: Handle): seq<Cell<T>> {
    if cells == [] then []
    else if cells[0].h == h then cells[1..]
    else [cells[0]] + RemoveFirst(cells[1..], h)
  }

  lemma {:induction false} KeepAll<T>(cells: seq<Cell<T>>, gone: set<Handle>)
    requires forall i | 0 <= i < |cells| :: cells[i].h !in gone
    ensures Keep(cells, gone) == cells
  {
    if cells != [] {
      KeepAll(cells[1..], gone);
      assert cells == [cells[0]] + cells[1..];
    }
  }

  lemma {:induction false} RemoveIsKeep<T>(cells: seq<Cell<T>>, h: Handle)
    requires DistinctHandles(cells)
    ensures RemoveFirst(cells, h) == Keep(cells, {h})
  {
    if cells != [] {
      if cells[0].h == h {
        KeepAll(cells[1..], {h});
      } else {
        RemoveIsKeep(cells[1..], h);
      }
    }
  }

  lemma {:induction false} KeepTwice<T>(cells: seq<Cell<T>>, a: set<Handle>, b: set<Handle>)
    ensures Keep(Keep(cells, a), b) == Keep(cells, a + b)
  {
    if cells != [] {
      KeepTwice(cells[1..], a, b);
      var kept := Keep(cells[1..], a);
      if cells[0].h in a {
        assert Keep(cells, a) == kept && Keep(cells, a + b) == Keep(cells[1..], a + b);
      } else {
        assert Keep(cells, a) == [cells[0]] + kept && ([cells[0]] + kept)[1..] == kept;
      }
    }
  }

  lemma {:induction false} KeepDistinct<T(!new)>(cells: seq<Cell<T>>, gone: set<Handle>)
    requires DistinctHandles(cells)
    ensures DistinctHandles(Keep(cells, gone))
  {
    if cells != [] {
      var rest := Keep(cells[1..], gone);
      KeepDistinct(cells[1..], gone);
      KeepMembers(cells[1..], gone);
      if cells[0].h !in gone {
        forall j | 0 <= j < |rest| ensures rest[j].h != cells[0].h {
          assert rest[j] in cells[1..];
        }
      }
    }
  }

  // ----- the invariant

  datatype Graph = Graph(nodes: seq<Cell<Node>>, edges: seq<Cell<Edge>>, labels: seq<string>)

  predicate HasNode(nodes: seq<Cell<Node>>, a: Address) {
    exists i | 0 <= i < |nodes| :: nodes[i].v.a == a
  }

  predicate DistinctAddresses(nodes: seq<Cell<Node>>) {
    forall i, j | 0 <= i < j < |nodes| :: nodes[i].v.a != nodes[j].v.a
  }

  predicate Anchored(nodes: seq<Cell<Node>>, edges: seq<Cell<Edge>>) {
    forall i | 0 <= i < |edges| :: HasNode(nodes, edges[i].v.source) && HasNode(nodes, edges[i].v.dest)
  }

  /** Node addresses are pairwise different and every edge names existing nodes; live handles are
      different and no datum is empty. */
  predicate Valid(g: Graph) {
    && DistinctAddresses(g.nodes) && Anchored(g.nodes, g.edges)
    && DistinctHandles(g.nodes) && DistinctHandles(g.edges)
    && (forall i | 0 <= i < |g.nodes| :: g.nodes[i].h != 0) && (forall i | 0 <= i < |g.edges| :: g.edges[i].h != 0)
    && forall i, j | 0 <= i < |g.nodes| && 0 <= j < |g.nodes[i].v.data| :: g.nodes[i].v.data[j].bytes != []
  }

  /** sg_find_node: the first node with that address. */
  function Find(nodes: seq<Cell<Node>>, a: Address): (i: nat)
    ensures i <= |nodes|
    ensures i < |nodes| ==> nodes[i].v.a == a
    ensures forall j | 0 <= j < i :: nodes[j].v.a != a
  {
    if nodes == [] || nodes[0].v.a == a then 0 else 1 + Find(nodes[1..], a)
  }

  /** sg_find_node, which also answers for a missing address. */
  method FindNode(nodes: seq<Cell<Node>>, a: Option<Address>) returns (h: Handle)
    requires forall i | 0 <= i < |nodes| :: nodes[i].h != 0
    ensures h == if a.Some? && Find(nodes, a.value) < |nodes| then nodes[Find(nodes, a.value)].h else 0
    ensures a.Some? ==> (h != 0 <==> HasNode(nodes, a.value))
  {
    if a.None? {
      return 0;
    }
    var i := 0;
    while i < |nodes|
      invariant 0 <= i <= |nodes| && forall j | 0 <= j < i :: nodes[j].v.a != a.value
    {
      if nodes[i].v.a == a.value {
        assert Find(nodes, a.value) == i;
        return nodes[i].h;
      }
      i := i + 1;
    }
    assert Find(nodes, a.value) == |nodes|;
    h := 0;
  }

  // ----- queries

  predicate Leaves(e: Edge, a: Address) {
    e.source == a
  }

  predicate Enters(e: Edge, a: Address) {
    e.dest == a
  }

  /** The edges that start at `a`, or those that end there, in order. */
  function Touching(edges: seq<Cell<Edge>>, a: Address, incoming: bool): seq<Cell<Edge>> {
    if edges == [] then []
    else
      var e := edges[|edges| - 1];
      var front := Touching(edges[..|edges| - 1], a, incoming);
      if (if incoming then Enters(e.v, a) else Leaves(e.v, a)) then front + [e] else front
  }

  /** sg_get_edges_outgoing and sg_get_edges_incoming */
  method GetEdges(edges: seq<Cell<Edge>>, a: Address, incoming: bool) returns (r: seq<Handle>)
    ensures r == Handles(Touching(edges, a, incoming))
    ensures EdgesListed(edges, a, if incoming then Incoming else Outgoing, r)
  {
    ghost var at := TouchingAt(edges, a, incoming);
    r := [];
    assert edges[..0] == [];
    for i := 0 to |edges|
      invariant r == Handles(Touching(edges[..i], a, incoming))
    {
      assert edges[..i + 1][..i] == edges[..i];
      if (if incoming then edges[i].v.dest else edges[i].v.source) == a {
        r := r + [edges[i].h];
      }
    }
    assert edges[..|edges|] == edges;
  }

  // ----- operations on values

  predicate Live<T>(cells: seq<Cell<T>>, h: Handle) {
    exists i | 0 <= i < |cells| :: cells[i].h == h
  }

  /** Where the structure at that address is in its list. */
  function At<T>(cells: seq<Cell<T>>, h: Handle): (i: nat)
    requires Live(cells, h)
    ensures i < |cells| && cells[i].h == h
  {
    if cells[0].h == h then 0 else
      assert Live(cells[1..], h) by {
        var i :| 0 <= i < |cells| && cells[i].h == h;
        assert cells[1..][i - 1].h == h;
      }
      1 + At(cells[1..], h)
  }

  /** The handles of the edges with `a` at either end. */
  function AtNode(edges: seq<Cell<Edge>>, a: Address): set<Handle> {
    set i | 0 <= i < |edges| && (edges[i].v.source == a || edges[i].v.dest == a) :: edges[i].h
  }

  function WithNode(g: Graph, a: Address, h: Handle): Graph {
    if HasNode(g.nodes, a) then g else g.(nodes := g.nodes + [Cell(h, Node(a, [], []))])
  }

  function WithData(g: Graph, n: Handle, d: Blob): Graph
    requires Live(g.nodes, n)
  {
    var i := At(g.nodes, n);
    var c := g.nodes[i];
    g.(nodes := g.nodes[i := c.(v := c.v.(data := c.v.data + [d]))])
  }

  function NewEdge(g: Graph, src: Handle, dst: Handle, tag: Option<string>): Edge
    requires Live(g.nodes, src) && Live(g.nodes, dst)
  {
    Edge(g.nodes[At(g.nodes, src)].v.a, g.nodes[At(g.nodes, dst)].v.a, if tag.Some? then [tag.value] else [])
  }

  function WithoutNode(g: Graph, n: Handle): Graph
    requires Live(g.nodes, n)
  {
    g.(nodes := Keep(g.nodes, {n}), edges := Keep(g.edges, AtNode(g.edges, g.nodes[At(g.nodes, n)].v.a)))
  }

  datatype Op =
    | AddNode(a: Option<Address>, h: Handle)
    | AddEdge(src: Handle, dst: Handle, tag: Option<string>, h: Handle)
    | AddData(n: Handle, tag: Option<string>, bytes: seq<byte>)
    | AddNodeWithData(a: Option<Address>, tag: Option<string>, bytes: seq<byte>, h: Handle)
    | RemoveEdge(e: Handle)
    | RemoveNode(n: Handle)

  /** New structures are not at the address of a live one, and callers hold live handles; only
      sg_remove_node checks for a null one. */
  predicate Allowed(g: Graph, op: Op) {
    match op
    case AddNode(_, h) => h != 0 && !Live(g.nodes, h)
    case AddNodeWithData(_, _, _, h) => h != 0 && !Live(g.nodes, h)
    case AddEdge(src, dst, _, h) => Live(g.nodes, src) && Live(g.nodes, dst) && h != 0 && !Live(g.edges, h)
    case AddData(n, _, _) => Live(g.nodes, n)
    case RemoveEdge(e) => Live(g.edges, e)
    case RemoveNode(n) => n == 0 || Live(g.nodes, n)
  }

  /** The graph after the operation. */
  function Step(g: Graph, op: Op): Graph
    requires Allowed(g, op)
  {
    match op
    case AddNode(a, h) => if a.None? then g else WithNode(g, a.value, h)
    case AddEdge(src, dst, tag, h) => g.(edges := g.edges + [Cell(h, NewEdge(g, src, dst, tag))])
    case AddData(n, tag, bytes) => if tag.None? || bytes == [] then g else WithData(g, n, Blob(tag.value, bytes))
    case AddNodeWithData(a, tag, bytes, h) =>
      if a.None? then g
      else
        var more := WithNode(g, a.value, h);
        NodeAdded(g, a.value, h);
        var n := more.nodes[Find(more.nodes, a.value)].h;
        if tag.None? || bytes == [] then WithoutNode(more, n) else WithData(more, n, Blob(tag.value, bytes))
    case RemoveEdge(e) => g.(edges := Keep(g.edges, {e}))
    case RemoveNode(n) => if n == 0 then g else WithoutNode(g, n)
  }

  lemma {:induction false} NodeAdded(g: Graph, a: Address, h: Handle)
    ensures var nodes := WithNode(g, a, h).nodes;
            HasNode(nodes, a) && Find(nodes, a) < |nodes| && Live(nodes, nodes[Find(nodes, a)].h)
  {
    var nodes := WithNode(g, a, h).nodes;
    assert HasNode(nodes, a) by {
      if !HasNode(g.nodes, a) { assert nodes[|g.nodes|].v.a == a; }
    }
    assert Find(nodes, a) < |nodes|;
  }

  // ----- every operation keeps the invariant

  lemma {:induction false} AnchoredMore(nodes: seq<Cell<Node>>, nodes': seq<Cell<Node>>, edges: seq<Cell<Edge>>)
    requires Anchored(nodes, edges)
    requires |nodes| <= |nodes'| && forall i | 0 <= i < |nodes| :: nodes'[i].v.a == nodes[i].v.a
    ensures Anchored(nodes', edges)
  {
    forall a | HasNode(nodes, a) ensures HasNode(nodes', a) {
      var i :| 0 <= i < |nodes| && nodes[i].v.a == a;
      assert nodes'[i].v.a == a;
    }
  }

  lemma {:induction false} WithNodeValid(g: Graph, a: Address, h: Handle)
    requires Valid(g) && h != 0 && !Live(g.nodes, h)
    ensures Valid(WithNode(g, a, h))
  {
    if !HasNode(g.nodes, a) {
      AnchoredMore(g.nodes, WithNode(g, a, h).nodes, g.edges);
    }
  }

  lemma {:induction false} WithDataValid(g: Graph, n: Handle, d: Blob)
    requires Valid(g) && Live(g.nodes, n) && d.bytes != []
    ensures Valid(WithData(g, n, d))
  {
    AnchoredMore(g.nodes, WithData(g, n, d).nodes, g.edges);
  }

  lemma {:induction false} WithEdgeValid(g: Graph, src: Handle, dst: Handle, tag: Option<string>, h: Handle)
    requires Valid(g) && Allowed(g, AddEdge(src, dst, tag, h))
    ensures Valid(Step(g, AddEdge(src, dst, tag, h)))
  {
    hide DistinctAddresses;
    var e := NewEdge(g, src, dst, tag);
    assert HasNode(g.nodes, e.source) && HasNode(g.nodes, e.dest);
  }

  lemma {:induction false} KeepValid(g: Graph, gone: set<Handle>)
    requires Valid(g)
    ensures Valid(g.(edges := Keep(g.edges, gone)))
  {
    var edges := Keep(g.edges, gone);
    KeepDistinct(g.edges, gone);
    KeepMembers(g.edges, gone);
    forall i | 0 <= i < |edges|
      ensures HasNode(g.nodes, edges[i].v.source) && HasNode(g.nodes, edges[i].v.dest) && edges[i].h != 0
    {
      assert edges[i] in g.edges;
    }
  }

  lemma {:induction false} KeepAddresses(nodes: seq<Cell<Node>>, gone: set<Handle>)
    requires DistinctAddresses(nodes)
    ensures DistinctAddresses(Keep(nodes, gone))
  {
    if nodes != [] {
      var rest := Keep(nodes[1..], gone);
      KeepAddresses(nodes[1..], gone);
      KeepMembers(nodes[1..], gone);
      if nodes[0].h !in gone {
        forall j | 0 <= j < |rest| ensures rest[j].v.a != nodes[0].v.a { assert rest[j] in nodes[1..]; }
      }
    }
  }

  lemma {:induction false} OtherNodeKept(nodes: seq<Cell<Node>>, n: nat, b: Address)
    requires DistinctHandles(nodes) && n < |nodes| && HasNode(nodes, b) && b != nodes[n].v.a
    ensures HasNode(Keep(nodes, {nodes[n].h}), b)
  {
    var i :| 0 <= i < |nodes| && nodes[i].v.a == b;
    KeepMembers(nodes, {nodes[n].h});
    assert nodes[i] in Keep(nodes, {nodes[n].h});
  }

  lemma {:induction false} WithoutNodeAnchored(g: Graph, n: Handle)
    requires Valid(g) && Live(g.nodes, n)
    ensures Anchored(WithoutNode(g, n).nodes, WithoutNode(g, n).edges)
  {
    var i := At(g.nodes, n);
    var a := g.nodes[i].v.a;
    var after := WithoutNode(g, n);
    KeepMembers(g.edges, AtNode(g.edges, a));
    forall j | 0 <= j < |after.edges|
      ensures HasNode(after.nodes, after.edges[j].v.source) && HasNode(after.nodes, after.edges[j].v.dest)
    {
      var e := after.edges[j];
      assert e in g.edges && e.h !in AtNode(g.edges, a);
      OtherNodeKept(g.nodes, i, e.v.source);
      OtherNodeKept(g.nodes, i, e.v.dest);
    }
  }

  lemma {:induction false} WithoutNodeValid(g: Graph, n: Handle)
    requires Valid(g) && Live(g.nodes, n)
    ensures Valid(WithoutNode(g, n))
  {
    var nodes := Keep(g.nodes, {n});
    WithoutNodeAnchored(g, n);
    KeepValid(g, AtNode(g.edges, g.nodes[At(g.nodes, n)].v.a));
    KeepDistinct(g.nodes, {n});
    KeepAddresses(g.nodes, {n});
    KeepMembers(g.nodes, {n});
    assert forall i | 0 <= i < |nodes| :: nodes[i] in g.nodes;
  }

  lemma {:induction false} StepValid(g: Graph, op: Op)
    requires Valid(g) && Allowed(g, op)
    ensures Valid(Step(g, op))
  {
    hide Valid, WithoutNode, WithData, WithNode;
    match op
    case AddNode(a, h) => if a.Some? { WithNodeValid(g, a.value, h); }
    case AddEdge(src, dst, tag, h) => WithEdgeValid(g, src, dst, tag, h);
    case AddData(n, tag, bytes) => if tag.Some? && bytes != [] { WithDataValid(g, n, Blob(tag.value, bytes)); }
    case AddNodeWithData(a, tag, bytes, h) =>
      if a.Some? {
        var more := WithNode(g, a.value, h);
        NodeAdded(g, a.value, h);
        WithNodeValid(g, a.value, h);
        var n := more.nodes[Find(more.nodes, a.value)].h;
        if tag.Some? && bytes != [] {
          WithDataValid(more, n, Blob(tag.value, bytes));
        } else {
          WithoutNodeValid(more, n);
        }
      }
    case RemoveEdge(e) => KeepValid(g, {e});
    case RemoveNode(n) => if n != 0 { WithoutNodeValid(g, n); }
  }

  predicate RunAllowed(g: Graph, ops: seq<Op>)
    decreases |ops|
  {
    ops == [] || (Allowed(g, ops[0]) && RunAllowed(Step(g, ops[0]), ops[1..]))
  }

  function Run(g: Graph, ops: seq<Op>): Graph
    requires RunAllowed(g, ops)
    decreases |ops|
  {
    if ops == [] then g else Run(Step(g, ops[0]), ops[1..])
  }

  /** Addresses stay different and edges anchored over every run on live handles. */
  lemma {:induction false} RunValid(g: Graph, ops: seq<Op>)
    requires Valid(g) && RunAllowed(g, ops)
    ensures Valid(Run(g, ops))
    decreases |ops|
  {
    hide Valid, Step;
    if ops != [] {
      StepValid(g, ops[0]);
      RunValid(Step(g, ops[0]), ops[1..]);
    }
  }

  // ----- what the documentation promises and the code does not

  predicate UniquePairs(edges: seq<Cell<Edge>>) {
    forall i, j | 0 <= i < j < |edges| :: edges[i].v.source != edges[j].v.source || edges[i].v.dest != edges[j].v.dest
  }

  predicate Joined(edges: seq<Cell<Edge>>, src: Address, dst: Address) {
    exists i | 0 <= i < |edges| :: edges[i].v.source == src && edges[i].v.dest == dst
  }

  /** A new edge keeps (source, destination) pairs different exactly when the caller has looked for
      an edge between the two first: the library does not. */
  lemma {:induction false} PairsStayUnique(g: Graph, src: Handle, dst: Handle, tag: Option<string>, h: Handle)
    requires Allowed(g, AddEdge(src, dst, tag, h)) && UniquePairs(g.edges)
    ensures UniquePairs(Step(g, AddEdge(src, dst, tag, h)).edges)
       <==> !Joined(g.edges, g.nodes[At(g.nodes, src)].v.a, g.nodes[At(g.nodes, dst)].v.a)
  {
    var e := NewEdge(g, src, dst, tag);
    var edges := g.edges + [Cell(h, e)];
    if Joined(g.edges, e.source, e.dest) {
      var i :| 0 <= i < |g.edges| && g.edges[i].v.source == e.source && g.edges[i].v.dest == e.dest;
      assert edges[i] == g.edges[i] && edges[|g.edges|].v == e;
      assert !UniquePairs(edges);
    }
  }

  /** sg_add_node_with_data that fails for want of data leaves the graph as it was exactly when the
      node is new: an existing node is removed with its data and edges. */
  lemma {:induction false} FailedAddUndone(g: Graph, a: Address, tag: Option<string>, bytes: seq<byte>, h: Handle)
    requires Valid(g) && h != 0 && !Live(g.nodes, h) && (tag.None? || bytes == [])
    ensures Step(g, AddNodeWithData(Some(a), tag, bytes, h)) == g <==> !HasNode(g.nodes, a)
  {
    hide DistinctAddresses, DistinctHandles, Anchored, AtNode, Keep;
    NodeAdded(g, a, h);
    if HasNode(g.nodes, a) {
      var n := g.nodes[Find(g.nodes, a)];
      KeepMembers(g.nodes, {n.h});
      assert n in g.nodes && n !in Keep(g.nodes, {n.h});
    } else {
      NewNodeUndone(g, a, h);
    }
  }

  lemma {:induction false} NewNodeUndone(g: Graph, a: Address, h: Handle)
    requires Valid(g) && !Live(g.nodes, h) && !HasNode(g.nodes, a)
    ensures var more := WithNode(g, a, h);
            && Find(more.nodes, a) == |g.nodes| && more.nodes[|g.nodes|].h == h
            && Live(more.nodes, h) && WithoutNode(more, h) == g
  {
    var added := Cell(h, Node(a, [], []));
    var nodes := WithNode(g, a, h).nodes;
    assert nodes == g.nodes + [added] && nodes[|g.nodes|] == added;
    assert HasNode(nodes, a) && Live(nodes, h) && At(nodes, h) == |g.nodes|;
    KeepSnoc(g.nodes, added, {h});
    KeepAll(g.nodes, {h});
    NoneAtMissing(g, a);
    KeepNone(g.edges);
  }

  lemma {:induction false} NoneAtMissing(g: Graph, a: Address)
    requires Anchored(g.nodes, g.edges) && !HasNode(g.nodes, a)
    ensures AtNode(g.edges, a) == {}
  {
    forall i | 0 <= i < |g.edges| ensures g.edges[i].v.source != a && g.edges[i].v.dest != a {
      assert HasNode(g.nodes, g.edges[i].v.source) && HasNode(g.nodes, g.edges[i].v.dest);
    }
  }

  lemma {:induction false} KeepSnoc<T>(cells: seq<Cell<T>>, c: Cell<T>, gone: set<Handle>)
    ensures Keep(cells + [c], gone) == Keep(cells, gone) + if c.h in gone then [] else [c]
  {
    var all := cells + [c];
    if cells == [] {
      assert all[1..] == [] && Keep(all[1..], gone) == [];
    } else {
      assert all[1..] == cells[1..] + [c] && all[0] == cells[0];
      KeepSnoc(cells[1..], c, gone);
      var head, kept, last :=
        if cells[0].h in gone then [] else [cells[0]], Keep(cells[1..], gone), if c.h in gone then [] else [c];
      assert Keep(all, gone) == head + (kept + last) && Keep(cells, gone) == head + kept;
    }
  }

  // ----- neighbours

  datatype Way = Either | Outgoing | Incoming

  /** The neighbour of the node `a` that an edge contributes, as a list of at most one handle. */
  function Far(nodes: seq<Cell<Node>>, e: Edge, a: Address, way: Way): seq<Handle> {
    var out := e.source == a && way != Incoming;
    var back := e.dest == a && way != Outgoing;
    var far := if back then Find(nodes, e.source) else if out then Find(nodes, e.dest) else |nodes|;
    if far < |nodes| then [nodes[far].h] else []
  }

  function Neighbours(nodes: seq<Cell<Node>>, edges: seq<Cell<Edge>>, a: Address, way: Way): seq<Handle> {
    if edges == [] then []
    else Neighbours(nodes, edges[..|edges| - 1], a, way) + Far(nodes, edges[|edges| - 1].v, a, way)
  }

  /** The neighbour one edge contributes, or 0. */
  method FarNode(nodes: seq<Cell<Node>>, e: Edge, a: Address, way: Way) returns (neighbour: Handle)
    requires forall i | 0 <= i < |nodes| :: nodes[i].h != 0
    ensures Far(nodes, e, a, way) == if neighbour != 0 then [neighbour] else []
  {
    neighbour := 0;
    if way != Incoming && a == e.source {
      neighbour := FindNode(nodes, Some(e.dest));
    }
    if way != Outgoing && a == e.dest {
      neighbour := FindNode(nodes, Some(e.source));
    }
  }

  /** sg_get_neighbors and its two directed forms. */
  method GetNeighbours(g: Graph, a: Address, way: Way) returns (r: seq<Handle>)
    requires Valid(g)
    ensures r == Neighbours(g.nodes, g.edges, a, way)
    ensures FarEnds(g.nodes, g.edges, a, way, r)
  {
    hide Far, FarEnds, Neighbours, DistinctAddresses, DistinctHandles;
    NeighboursAre(g.nodes, g.edges, a, way);
    r := [];
    assert Neighbours(g.nodes, g.edges[..0], a, way) == [] by { NoNeighbours(g.nodes, g.edges, a, way); }
    for i := 0 to |g.edges|
      invariant r == Neighbours(g.nodes, g.edges[..i], a, way)
    {
      NeighboursNext(g.nodes, g.edges, a, way, i);
      var neighbour := FarNode(g.nodes, g.edges[i].v, a, way);
      if neighbour != 0 {
        r := r + [neighbour];
      }
    }
    assert g.edges[..|g.edges|] == g.edges;
  }

  lemma {:induction false} NoNeighbours(nodes: seq<Cell<Node>>, edges: seq<Cell<Edge>>, a: Address, way: Way)
    ensures Neighbours(nodes, edges[..0], a, way) == []
  {}

  lemma {:induction false} NeighboursNext(nodes: seq<Cell<Node>>, edges: seq<Cell<Edge>>, a: Address, way: Way, i: nat)
    requires i < |edges|
    ensures Neighbours(nodes, edges[..i + 1], a, way)
         == Neighbours(nodes, edges[..i], a, way) + Far(nodes, edges[i].v, a, way)
  {
    hide Far;
    assert edges[..i + 1][..i] == edges[..i];
  }

  // ----- what the queries list

  predicate Meets(e: Edge, a: Address, way: Way) {
    match way
    case Outgoing => e.source == a
    case Incoming => e.dest == a
    case Either => e.source == a || e.dest == a
  }

  /** The end of an edge at `a` that is away from `a`: an edge that enters is followed backwards. */
  function AwayEnd(e: Edge, a: Address, way: Way): Address {
    match way
    case Outgoing => e.dest
    case Incoming => e.source
    case Either => if e.dest == a then e.source else e.dest
  }

  predicate MeetsAt(edges: seq<Cell<Edge>>, i: nat, a: Address, way: Way) {
    i < |edges| && Meets(edges[i].v, a, way)
  }

  /** The positions in the list of the edges that meet `a`, all of them, in order. */
  ghost predicate Positions(edges: seq<Cell<Edge>>, a: Address, way: Way, at: seq<nat>) {
    && (forall k | 0 <= k < |at| :: MeetsAt(edges, at[k], a, way))
    && (forall j, k | 0 <= j < k < |at| :: at[j] < at[k])
    && forall i: nat | MeetsAt(edges, i, a, way) :: i in at
  }

  lemma {:induction false} MeetsAtNext(edges: seq<Cell<Edge>>, a: Address, way: Way, i: nat)
    requires edges != []
    ensures var n: nat := |edges| - 1;
            && (MeetsAt(edges, i, a, way) <==> MeetsAt(edges[..n], i, a, way) || (i == n && Meets(edges[n].v, a, way)))
            && (MeetsAt(edges[..n], i, a, way) ==> i < n)
  {
    hide Meets;
  }

  lemma {:induction false} PositionsNext(edges: seq<Cell<Edge>>, a: Address, way: Way, at: seq<nat>)
    requires edges != [] && Positions(edges[..|edges| - 1], a, way, at)
    ensures var n: nat := |edges| - 1;
            Positions(edges, a, way, if Meets(edges[n].v, a, way) then at + [n] else at)
  {
    hide MeetsAt, Meets;
    var n: nat := |edges| - 1;
    var at' := if Meets(edges[n].v, a, way) then at + [n] else at;
    forall k | 0 <= k < |at| ensures MeetsAt(edges, at[k], a, way) && at[k] < n {
      assert MeetsAt(edges[..n], at[k], a, way);
      MeetsAtNext(edges, a, way, at[k]);
    }
    forall k | 0 <= k < |at'| ensures MeetsAt(edges, at'[k], a, way) {
      if k == |at| { MeetsAtNext(edges, a, way, n); }
    }
    forall i: nat | MeetsAt(edges, i, a, way) ensures i in at' {
      MeetsAtNext(edges, a, way, i);
      if i == n && Meets(edges[n].v, a, way) { assert at'[|at|] == n; }
    }
  }

  lemma {:induction false} NoPositions(edges: seq<Cell<Edge>>, a: Address, way: Way)
    requires edges == []
    ensures Positions(edges, a, way, [])
  {}

  /** The node at that handle has that address. */
  predicate Names(nodes: seq<Cell<Node>>, h: Handle, b: Address) {
    exists i | 0 <= i < |nodes| :: nodes[i].h == h && nodes[i].v.a == b
  }

  ghost predicate FarEndsAt(nodes: seq<Cell<Node>>, edges: seq<Cell<Edge>>, a: Address, way: Way, r: seq<Handle>,
                            at: seq<nat>)
  {
    && Positions(edges, a, way, at) && |r| == |at|
    && forall k | 0 <= k < |r| :: at[k] < |edges| && Names(nodes, r[k], AwayEnd(edges[at[k]].v, a, way))
  }

  /** One handle for each edge that meets `a`, in the order of the edges: the node at its other end. */
  ghost predicate FarEnds(nodes: seq<Cell<Node>>, edges: seq<Cell<Edge>>, a: Address, way: Way, r: seq<Handle>) {
    exists at :: FarEndsAt(nodes, edges, a, way, r, at)
  }

  lemma {:induction false} FarIsAway(nodes: seq<Cell<Node>>, e: Edge, a: Address, way: Way)
    requires HasNode(nodes, e.source) && HasNode(nodes, e.dest)
    ensures var r := Far(nodes, e, a, way);
            if Meets(e, a, way) then |r| == 1 && Names(nodes, r[0], AwayEnd(e, a, way)) else r == []
  {
    var s, d := Find(nodes, e.source), Find(nodes, e.dest);
    assert s < |nodes| && d < |nodes|;
    assert Names(nodes, nodes[s].h, e.source) && Names(nodes, nodes[d].h, e.dest);
  }

  lemma {:induction false} NeighboursAt(nodes: seq<Cell<Node>>, edges: seq<Cell<Edge>>, a: Address, way: Way)
    returns (at: seq<nat>)
    requires Anchored(nodes, edges)
    ensures FarEndsAt(nodes, edges, a, way, Neighbours(nodes, edges, a, way), at)
  {
    hide Far, Names, AwayEnd, Meets, HasNode, Positions;
    if edges == [] {
      at := [];
      NoPositions(edges, a, way);
    } else {
      var n: nat := |edges| - 1;
      at := NeighboursAt(nodes, edges[..n], a, way);
      assert HasNode(nodes, edges[n].v.source) && HasNode(nodes, edges[n].v.dest);
      FarIsAway(nodes, edges[n].v, a, way);
      PositionsNext(edges, a, way, at);
      if Meets(edges[n].v, a, way) { at := at + [n]; }
    }
  }

  /** The neighbours follow the edges one by one, directed or not. */
  lemma {:induction false} NeighboursAre(nodes: seq<Cell<Node>>, edges: seq<Cell<Edge>>, a: Address, way: Way)
    requires Anchored(nodes, edges)
    ensures FarEnds(nodes, edges, a, way, Neighbours(nodes, edges, a, way))
  {
    hide Neighbours, FarEndsAt;
    var at := NeighboursAt(nodes, edges, a, way);
  }

  ghost predicate EdgesListedAt(edges: seq<Cell<Edge>>, a: Address, way: Way, r: seq<Handle>, at: seq<nat>) {
    Positions(edges, a, way, at) && |r| == |at| && forall k | 0 <= k < |r| :: at[k] < |edges| && r[k] == edges[at[k]].h
  }

  /** The handles of the edges that meet `a`, in order. */
  ghost predicate EdgesListed(edges: seq<Cell<Edge>>, a: Address, way: Way, r: seq<Handle>) {
    exists at :: EdgesListedAt(edges, a, way, r, at)
  }

  lemma {:induction false} TouchingAt(edges: seq<Cell<Edge>>, a: Address, incoming: bool) returns (at: seq<nat>)
    ensures EdgesListedAt(edges, a, if incoming then Incoming else Outgoing, Handles(Touching(edges, a, incoming)), at)
  {
    hide Positions;
    if edges == [] {
      at := [];
      NoPositions(edges, a, if incoming then Incoming else Outgoing);
    } else {
      var n: nat := |edges| - 1;
      at := TouchingAt(edges[..n], a, incoming);
      PositionsNext(edges, a, if incoming then Incoming else Outgoing, at);
      if Meets(edges[n].v, a, if incoming then Incoming else Outgoing) { at := at + [n]; }
    }
  }

  // ----- conservation

  /** The edges from `a` to itself. */
  function SelfLoops(edges: seq<Cell<Edge>>, a: Address): set<nat> {
    set i: nat | i < |edges| && edges[i].v.source == a && edges[i].v.dest == a
  }

  lemma {:induction false} SelfLoopsNext(edges: seq<Cell<Edge>>, a: Address)
    requires edges != []
    ensures var n: nat := |edges| - 1;
            |SelfLoops(edges, a)| == |SelfLoops(edges[..n], a)|
                                     + if edges[n].v.source == a && edges[n].v.dest == a then 1 else 0
  {
    var n: nat := |edges| - 1;
    var all, front := SelfLoops(edges, a), SelfLoops(edges[..n], a);
    assert all == if edges[n].v.source == a && edges[n].v.dest == a then front + {n} else front;
  }

  /** As many of one handle. */
  function Copies(h: Handle, k: nat): multiset<Handle> {
    multiset{}[h := k]
  }

  /** Every edge at a node contributes: the undirected neighbours, together with the node itself once
      for each of its self-loops, are the outgoing ones together with the incoming ones, node for
      node; and there are as many directed neighbours as edges. */
  lemma {:induction false} NeighboursConserved(nodes: seq<Cell<Node>>, edges: seq<Cell<Edge>>, a: Address)
    requires Anchored(nodes, edges) && HasNode(nodes, a)
    ensures multiset(Neighbours(nodes, edges, a, Either)) + Copies(nodes[Find(nodes, a)].h, |SelfLoops(edges, a)|)
         == multiset(Neighbours(nodes, edges, a, Outgoing)) + multiset(Neighbours(nodes, edges, a, Incoming))
    ensures |Neighbours(nodes, edges, a, Outgoing)| == |Touching(edges, a, false)|
    ensures |Neighbours(nodes, edges, a, Incoming)| == |Touching(edges, a, true)|
    ensures |Neighbours(nodes, edges, a, Either)| + |SelfLoops(edges, a)|
         == |Touching(edges, a, false)| + |Touching(edges, a, true)|
  {
    hide Far, SelfLoops;
    if edges == [] {
      assert SelfLoops(edges, a) == {} by { NoSelfLoops(edges, a); }
    } else {
      var n := |edges| - 1;
      NeighboursConserved(nodes, edges[..n], a);
      assert HasNode(nodes, edges[n].v.source) && HasNode(nodes, edges[n].v.dest);
      FarConserved(nodes, edges[n].v, a);
      SelfLoopsNext(edges, a);
      var front, e := edges[..n], edges[n].v;
      Regroup(Neighbours(nodes, front, a, Either), nodes[Find(nodes, a)].h, |SelfLoops(front, a)|,
              Neighbours(nodes, front, a, Outgoing), Neighbours(nodes, front, a, Incoming),
              Far(nodes, e, a, Either), if e.source == a && e.dest == a then 1 else 0, Far(nodes, e, a, Outgoing),
              Far(nodes, e, a, Incoming));
    }
  }

  lemma {:induction false} NoSelfLoops(edges: seq<Cell<Edge>>, a: Address)
    requires edges == []
    ensures SelfLoops(edges, a) == {}
  {}

  lemma {:induction false} Regroup(either: seq<Handle>, h: Handle, k: nat, out: seq<Handle>, into: seq<Handle>,
                                   either': seq<Handle>, k': nat, out': seq<Handle>, into': seq<Handle>)
    requires multiset(either) + Copies(h, k) == multiset(out) + multiset(into)
    requires multiset(either') + Copies(h, k') == multiset(out') + multiset(into')
    ensures multiset(either + either') + Copies(h, k + k') == multiset(out + out') + multiset(into + into')
  {
    assert Copies(h, k + k') == Copies(h, k) + Copies(h, k');
    assert multiset(either + either') == multiset(either) + multiset(either');
    assert multiset(out + out') == multiset(out) + multiset(out');
    assert multiset(into + into') == multiset(into) + multiset(into');
    Interchange(multiset(either), multiset(either'), Copies(h, k), Copies(h, k'));
    Interchange(multiset(out), multiset(out'), multiset(into), multiset(into'));
  }

  lemma {:induction false} Interchange<T>(a: multiset<T>, b: multiset<T>, c: multiset<T>, d: multiset<T>)
    ensures a + b + (c + d) == (a + c) + (b + d)
  {
  }

  lemma {:induction false} FarConserved(nodes: seq<Cell<Node>>, e: Edge, a: Address)
    requires HasNode(nodes, e.source) && HasNode(nodes, e.dest) && HasNode(nodes, a)
    ensures multiset(Far(nodes, e, a, Either))
            + Copies(nodes[Find(nodes, a)].h, if e.source == a && e.dest == a then 1 else 0)
         == multiset(Far(nodes, e, a, Outgoing)) + multiset(Far(nodes, e, a, Incoming))
    ensures |Far(nodes, e, a, Outgoing)| == if Leaves(e, a) then 1 else 0
    ensures |Far(nodes, e, a, Incoming)| == if Enters(e, a) then 1 else 0
    ensures |Far(nodes, e, a, Either)| == if Leaves(e, a) || Enters(e, a) then 1 else 0
  {
    hide Far, HasNode;
    FarCases(nodes, e, a);
    if e.source == a && e.dest == a {
      assert Copies(nodes[Find(nodes, a)].h, 1) == multiset{nodes[Find(nodes, a)].h};
    } else {
      assert Copies(nodes[Find(nodes, a)].h, 0) == multiset{};
    }
  }

  lemma {:induction false} FarCases(nodes: seq<Cell<Node>>, e: Edge, a: Address)
    requires HasNode(nodes, e.source) && HasNode(nodes, e.dest) && HasNode(nodes, a)
    ensures Find(nodes, a) < |nodes|
    ensures |Far(nodes, e, a, Outgoing)| == if Leaves(e, a) then 1 else 0
    ensures |Far(nodes, e, a, Incoming)| == if Enters(e, a) then 1 else 0
    ensures Far(nodes, e, a, Either) == Far(nodes, e, a, if Enters(e, a) then Incoming else Outgoing)
    ensures Leaves(e, a) && Enters(e, a) ==> Far(nodes, e, a, Outgoing) == [nodes[Find(nodes, a)].h]
  {
    assert Find(nodes, e.source) < |nodes| && Find(nodes, e.dest) < |nodes|;
  }

  // ----- the graph in place

  function AsSet(hs: seq<Handle>): set<Handle> {
    set h | h in hs
  }

  /** Each handle of `all` is in the list, once, and nothing else is. */
  predicate ListsOnce(hs: seq<Handle>, all: set<Handle>) {
    AsSet(hs) == all && forall i, j | 0 <= i < j < |hs| :: hs[i] != hs[j]
  }

  /** The node at that handle, and no other, has one more datum behind those it had. */
  ghost predicate DataAppended(a: Graph, b: Graph, n: Handle, d: Blob) {
    && b.edges == a.edges && b.labels == a.labels && |b.nodes| == |a.nodes|
    && forall i | 0 <= i < |a.nodes| ::
         && b.nodes[i].h == a.nodes[i].h && b.nodes[i].v.a == a.nodes[i].v.a
         && b.nodes[i].v.labels == a.nodes[i].v.labels
         && b.nodes[i].v.data == if a.nodes[i].h == n then a.nodes[i].v.data + [d] else a.nodes[i].v.data
  }

  lemma {:induction false} DataIsAppended(g: Graph, n: Handle, d: Blob)
    requires DistinctHandles(g.nodes) && Live(g.nodes, n)
    ensures DataAppended(g, WithData(g, n, d), n, d)
  {}

  /** A new node is put at the end; an address that has one, or is missing, changes nothing. */
  ghost predicate NodePut(a: Graph, b: Graph, at: Option<Address>, h: Handle) {
    b == if at.None? || HasNode(a.nodes, at.value) then a else a.(nodes := a.nodes + [Cell(h, Node(at.value, [], []))])
  }

  /** A new edge is put at the end, between the two nodes and with the label if there is one. */
  ghost predicate EdgeAppended(a: Graph, b: Graph, src: Handle, dst: Handle, tag: Option<string>, h: Handle) {
    exists e: Edge ::
      && b == a.(edges := a.edges + [Cell(h, e)]) && Names(a.nodes, src, e.source) && Names(a.nodes, dst, e.dest)
      && e.labels == if tag.Some? then [tag.value] else []
  }

  lemma {:induction false} EdgeIsAppended(g: Graph, src: Handle, dst: Handle, tag: Option<string>, h: Handle)
    requires Live(g.nodes, src) && Live(g.nodes, dst)
    ensures EdgeAppended(g, g.(edges := g.edges + [Cell(h, NewEdge(g, src, dst, tag))]), src, dst, tag, h)
  {
    var e := NewEdge(g, src, dst, tag);
    assert Names(g.nodes, src, e.source) && Names(g.nodes, dst, e.dest);
  }

  /** The datum went to the node with that address, which is new if there was none. */
  ghost predicate DataPut(a: Graph, b: Graph, at: Address, d: Blob, h: Handle, n: Handle) {
    if HasNode(a.nodes, at) then Names(a.nodes, n, at) && DataAppended(a, b, n, d)
    else n == h && b == a.(nodes := a.nodes + [Cell(h, Node(at, [d], []))])
  }

  lemma {:induction false} DataIsPut(a: Graph, mid: Graph, b: Graph, at: Address, d: Blob, h: Handle, n: Handle)
    requires !Live(a.nodes, h) && NodePut(a, mid, Some(at), h) && DataAppended(mid, b, n, d)
    requires Find(mid.nodes, at) < |mid.nodes| && n == mid.nodes[Find(mid.nodes, at)].h
    ensures DataPut(a, b, at, d, h, n)
  {
    hide DataAppended;
    if HasNode(a.nodes, at) {
      assert Names(a.nodes, n, at);
    } else {
      assert mid.nodes[|a.nodes|].v.a == at;
      assert Find(mid.nodes, at) == |a.nodes|;
      NewNodeData(a, mid, b, at, h, d);
    }
  }

  /** One edge is gone from the list, and nothing else. */
  ghost predicate EdgeGone(a: Graph, b: Graph, e: Handle) {
    exists i | 0 <= i < |a.edges| :: a.edges[i].h == e && b == a.(edges := a.edges[..i] + a.edges[i + 1..])
  }

  lemma {:induction false} EdgeIsGone(g: Graph, e: Handle)
    requires DistinctHandles(g.edges) && Live(g.edges, e)
    ensures EdgeGone(g, g.(edges := Keep(g.edges, {e})), e)
  {
    RemoveIsKeep(g.edges, e);
    RemovedAt(g.edges, e);
    assert g.edges[At(g.edges, e)].h == e;
  }

  /** One node is gone from the list, and with it the edges that have its address at an end. */
  ghost predicate NodeGone(a: Graph, b: Graph, n: Handle) {
    exists i | 0 <= i < |a.nodes| ::
      && a.nodes[i].h == n && b.nodes == a.nodes[..i] + a.nodes[i + 1..] && b.labels == a.labels
      && forall c :: c in b.edges <==> c in a.edges && c.v.source != a.nodes[i].v.a && c.v.dest != a.nodes[i].v.a
  }

  lemma {:induction false} NodeIsGone(g: Graph, n: Handle)
    requires Valid(g) && Live(g.nodes, n)
    ensures NodeGone(g, WithoutNode(g, n), n)
  {
    hide DistinctAddresses, Anchored;
    var i := At(g.nodes, n);
    RemoveIsKeep(g.nodes, n);
    RemovedAt(g.nodes, n);
    KeepAway(g.edges, g.nodes[i].v.a);
  }

  lemma {:induction false} KeepAway(edges: seq<Cell<Edge>>, a: Address)
    requires DistinctHandles(edges)
    ensures forall c :: c in Keep(edges, AtNode(edges, a)) <==> c in edges && c.v.source != a && c.v.dest != a
  {
    KeepMembers(edges, AtNode(edges, a));
    forall c | c in edges ensures c.h in AtNode(edges, a) <==> c.v.source == a || c.v.dest == a {
      var i :| 0 <= i < |edges| && edges[i] == c;
    }
  }

  /** The edge at that handle runs from the one node to the other. */
  ghost predicate Runs(g: Graph, e: Handle, src: Handle, dst: Handle) {
    exists i | 0 <= i < |g.edges| ::
      g.edges[i].h == e && Names(g.nodes, src, g.edges[i].v.source) && Names(g.nodes, dst, g.edges[i].v.dest)
  }

  lemma {:induction false} NewNodeData(g: Graph, mid: Graph, end: Graph, a: Address, h: Handle, d: Blob)
    requires !Live(g.nodes, h) && mid == g.(nodes := g.nodes + [Cell(h, Node(a, [], []))])
    requires DataAppended(mid, end, h, d)
    ensures end == g.(nodes := g.nodes + [Cell(h, Node(a, [d], []))])
  {
    var k := |g.nodes|;
    forall i | 0 <= i < k ensures end.nodes[i] == g.nodes[i] { assert mid.nodes[i] == g.nodes[i]; }
    assert mid.nodes[k].h == h && [] + [d] == [d];
    assert end.nodes[k] == Cell(h, Node(a, [d], []));
    assert end.nodes == g.nodes + [Cell(h, Node(a, [d], []))];
  }

  class EvidenceGraph {
    var g: Graph
    /** Every structure made, and every one released, in order. */
    ghost var made: seq<Handle>
    ghost var released: seq<Handle>

    /** Nothing is lost or released twice: what was made is what was released and what is live. */
    ghost predicate Balanced()
      reads this
    {
      multiset(made) == multiset(released) + multiset(Handles(g.nodes)) + multiset(Handles(g.edges))
    }

    constructor ()
      ensures Valid(g) && Balanced() && g == Graph([], [], []) && made == released == []
    {
      g, made, released := Graph([], [], []), [], [];
    }

    /** sg_add_node: an existing node is returned. */
    method AddNode(a: Option<Address>, h: Handle) returns (n: Handle)
      requires Valid(g) && Balanced() && Allowed(g, Op.AddNode(a, h))
      modifies this
      ensures Valid(g) && Balanced() && g == Step(old(g), Op.AddNode(a, h)) && released == old(released)
      ensures n == 0 <==> a.None?
      ensures a.Some? ==> Find(g.nodes, a.value) < |g.nodes| && n == g.nodes[Find(g.nodes, a.value)].h
      ensures NodePut(old(g), g, a, h)
    {
      hide DistinctAddresses, DistinctHandles, Anchored;
      StepValid(g, Op.AddNode(a, h));
      n := FindNode(g.nodes, a);
      if n != 0 || a.None? {
        return;
      }
      NodeAdded(g, a.value, h);
      HandlesSnoc(g.nodes, Cell(h, Node(a.value, [], [])));
      g, made := g.(nodes := g.nodes + [Cell(h, Node(a.value, [], []))]), made + [h];
      n := h;
    }

    /** sg_add_edge */
    method AddEdge(src: Handle, dst: Handle, tag: Option<string>, h: Handle)
      requires Valid(g) && Balanced() && Allowed(g, Op.AddEdge(src, dst, tag, h))
      modifies this
      ensures Valid(g) && Balanced() && g == Step(old(g), Op.AddEdge(src, dst, tag, h)) && released == old(released)
      ensures EdgeAppended(old(g), g, src, dst, tag, h)
    {
      hide EdgeAppended;
      StepValid(g, Op.AddEdge(src, dst, tag, h));
      var e := NewEdge(g, src, dst, tag);
      HandlesSnoc(g.edges, Cell(h, e));
      EdgeIsAppended(g, src, dst, tag, h);
      g, made := g.(edges := g.edges + [Cell(h, e)]), made + [h];
    }

    /** sg_add_data */
    method AddData(n: Handle, tag: Option<string>, bytes: seq<byte>) returns (ok: bool)
      requires Valid(g) && Balanced() && Allowed(g, Op.AddData(n, tag, bytes))
      modifies this
      ensures Valid(g) && Balanced() && g == Step(old(g), Op.AddData(n, tag, bytes)) && released == old(released)
      ensures ok <==> tag.Some? && bytes != []
      ensures ok ==> DataAppended(old(g), g, n, Blob(tag.value, bytes))
      ensures !ok ==> g == old(g)
    {
      StepValid(g, Op.AddData(n, tag, bytes));
      ok := tag.Some? && bytes != [];
      if ok {
        ghost var was := g.nodes;
        DataIsAppended(g, n, Blob(tag.value, bytes));
        g := WithData(g, n, Blob(tag.value, bytes));
        assert Handles(was) == Handles(g.nodes);
      }
    }

    /** sg_remove_edge */
    method RemoveEdge(e: Handle)
      requires Valid(g) && Balanced() && Allowed(g, Op.RemoveEdge(e))
      modifies this
      ensures Valid(g) && Balanced() && g == Step(old(g), Op.RemoveEdge(e))
      ensures released == old(released) + [e] && made == old(made)
      ensures EdgeGone(old(g), g, e)
    {
      hide EdgeGone;
      EdgeIsGone(g, e);
      StepValid(g, Op.RemoveEdge(e));
      RemoveIsKeep(g.edges, e);
      RemovedHandle(g.edges, e);
      g, released := g.(edges := RemoveFirst(g.edges, e)), released + [e];
    }

    /** The two loops of sg_remove_node: releases a list of live edges one by one. */
    method RemoveEdges(hs: seq<Handle>)
      requires Valid(g) && Balanced() && ListsOnce(hs, AsSet(hs)) && forall i | 0 <= i < |hs| :: Live(g.edges, hs[i])
      modifies this
      ensures Valid(g) && Balanced() && g == old(g).(edges := Keep(old(g).edges, AsSet(hs)))
      ensures released == old(released) + hs && made == old(made)
    {
      hide Valid, AsSet, Live, Keep;
      AsSetSnoc([], 0);
      KeepNone(g.edges);
      for i := 0 to |hs|
        invariant Valid(g) && Balanced() && made == old(made)
        invariant g == old(g).(edges := Keep(old(g).edges, AsSet(hs[..i]))) && released == old(released) + hs[..i]
      {
        ghost var gone := AsSet(hs[..i]);
        assert hs[..i + 1] == hs[..i] + [hs[i]];
        AsSetSnoc(hs[..i], hs[i]);
        StillLive(old(g).edges, gone, hs[i]);
        RemoveEdge(hs[i]);
        KeepTwice(old(g).edges, gone, {hs[i]});
      }
      assert hs[..|hs|] == hs;
    }

    /** The edge half of sg_remove_node: each edge at `a`, self-loops included, is released once. */
    method RemoveEdgesAt(a: Address) returns (ghost hs: seq<Handle>)
      requires Valid(g) && Balanced()
      modifies this
      ensures Valid(g) && Balanced() && g == old(g).(edges := Keep(old(g).edges, AtNode(old(g).edges, a)))
      ensures released == old(released) + hs && made == old(made) && ListsOnce(hs, AtNode(old(g).edges, a))
    {
      hide Valid, Keep, ListsOnce, Touching, AtNode, AsSet, Live, Balanced;
      ValidDistinct(g);
      var out := GetEdges(g.edges, a, false);
      TouchingHandles(g.edges, a, false);
      RemoveEdges(out);
      ghost var mid := g;
      ValidDistinct(g);
      var into := GetEdges(g.edges, a, true);
      TouchingHandles(g.edges, a, true);
      RemoveEdges(into);
      RemovedOnce(old(g).edges, mid.edges, a, out, into);
      hs := out + into;
    }

    /** sg_remove_node: the node and each edge at it are released once. */
    method RemoveNode(n: Handle)
      requires Valid(g) && Balanced() && Allowed(g, Op.RemoveNode(n))
      modifies this
      ensures Valid(g) && Balanced() && g == Step(old(g), Op.RemoveNode(n)) && made == old(made)
      ensures n == 0 ==> released == old(released) && g == old(g)
      ensures n != 0 ==> NodeGone(old(g), g, n)
      ensures n != 0 ==>
                exists hs ::
                  && released == old(released) + hs + [n]
                  && ListsOnce(hs, AtNode(old(g).edges, old(g).nodes[At(old(g).nodes, n)].v.a))
    {
      hide Valid, Keep, ListsOnce, AtNode, NodeGone;
      StepValid(g, Op.RemoveNode(n));
      if n < 255 {
        return;
      }
      NodeIsGone(g, n);
      ghost var hs := RemoveEdgesAt(g.nodes[At(g.nodes, n)].v.a);
      ValidDistinct(g);
      RemoveIsKeep(g.nodes, n);
      RemovedHandle(g.nodes, n);
      g, released := g.(nodes := RemoveFirst(g.nodes, n)), released + [n];
    }

    /** sg_add_node_with_data */
    method AddNodeWithData(a: Option<Address>, tag: Option<string>, bytes: seq<byte>, h: Handle) returns (n: Handle)
      requires Valid(g) && Balanced() && Allowed(g, Op.AddNodeWithData(a, tag, bytes, h))
      modifies this
      ensures Valid(g) && Balanced() && g == Step(old(g), Op.AddNodeWithData(a, tag, bytes, h))
      ensures n != 0 <==> a.Some? && tag.Some? && bytes != []
      ensures n != 0 ==> DataPut(old(g), g, a.value, Blob(tag.value, bytes), h, n)
    {
      hide Valid, WithoutNode, WithData, Balanced, ListsOnce, AtNode, At, DataAppended, NodePut, DataPut, HasNode;
      n := AddNode(a, h);
      if n == 0 {
        return;
      }
      NodeAdded(old(g), a.value, h);
      ghost var mid := g;
      var ok := AddData(n, tag, bytes);
      if !ok {
        RemoveNode(n);
        n := 0;
      } else {
        DataIsPut(old(g), mid, g, a.value, Blob(tag.value, bytes), h, n);
      }
    }

    /** sg_decode_edge: for a live edge both ends are always found. */
    method DecodeEdge(e: Handle) returns (src: Handle, dst: Handle, tag: Option<string>)
      requires Valid(g) && Live(g.edges, e)
      ensures Live(g.nodes, src) && Live(g.nodes, dst) && src != 0 && dst != 0
      ensures NewEdge(g, src, dst, tag).source == g.edges[At(g.edges, e)].v.source
      ensures NewEdge(g, src, dst, tag).dest == g.edges[At(g.edges, e)].v.dest
      ensures Runs(g, e, src, dst)
      ensures tag == var labels := g.edges[At(g.edges, e)].v.labels; if labels == [] then None else Some(labels[0])
    {
      hide Valid, HasNode, Live, NewEdge, Runs;
      EndsFound(g, e);
      var edge := g.edges[At(g.edges, e)].v;
      src := FindNode(g.nodes, Some(edge.source));
      dst := FindNode(g.nodes, Some(edge.dest));
      tag := if edge.labels == [] then None else Some(edge.labels[0]);
    }
  }

  /** Two calls make two edges with the same source and destination. */
  method RepeatedPair(a: Address, n: Handle, e1: Handle, e2: Handle) returns (graph: EvidenceGraph)
    requires n != 0 && e1 != 0 && e2 != 0 && e1 != e2
    ensures Valid(graph.g) && !UniquePairs(graph.g.edges)
  {
    hide Valid, Step, NodePut, EdgeAppended;
    graph := new EvidenceGraph();
    FirstNode(a, n);
    var node := graph.AddNode(Some(a), n);
    OneMoreEdge(graph.g, a, n, e1);
    graph.AddEdge(n, n, None, e1);
    OneMoreEdge(graph.g, a, n, e2);
    graph.AddEdge(n, n, None, e2);
    assert graph.g.edges[0].v == graph.g.edges[1].v;
  }

  lemma {:induction false} OneMoreEdge(g: Graph, a: Address, n: Handle, e: Handle)
    requires g.nodes == [Cell(n, Node(a, [], []))] && e != 0 && !Live(g.edges, e)
    ensures Allowed(g, AddEdge(n, n, None, e))
    ensures Step(g, AddEdge(n, n, None, e)) == g.(edges := g.edges + [Cell(e, Edge(a, a, []))])
  {
    assert g.nodes[0].h == n;
  }

  /** Adding empty data to an existing node removes it. */
  method EmptyDataRemoves(a: Address, tag: string, n: Handle, h: Handle) returns (graph: EvidenceGraph, r: Handle)
    requires n != 0 && h != 0 && h != n
    ensures r == 0 && !HasNode(graph.g.nodes, a)
  {
    hide Valid, Step, NodePut, DataPut;
    graph := new EvidenceGraph();
    FirstNode(a, n);
    var node := graph.AddNode(Some(a), n);
    OnlyNodeGone(graph.g, n, a, tag, h);
    r := graph.AddNodeWithData(Some(a), Some(tag), [], h);
  }

  lemma {:induction false} FirstNode(a: Address, n: Handle)
    requires n != 0
    ensures Step(Graph([], [], []), AddNode(Some(a), n)) == Graph([Cell(n, Node(a, [], []))], [], [])
  {
    assert !HasNode([], a);
  }

  lemma {:induction false} OnlyNodeGone(g: Graph, n: Handle, a: Address, tag: string, h: Handle)
    requires g == Graph([Cell(n, Node(a, [], []))], [], []) && h != 0 && h != n
    ensures Step(g, AddNodeWithData(Some(a), Some(tag), [], h)).nodes == []
  {
    NodeAdded(g, a, h);
    assert g.nodes[0].v.a == a && HasNode(g.nodes, a);
    assert g.nodes[1..] == [] && Keep(g.nodes[1..], {n}) == [] && Keep(g.nodes, {n}) == [] + Keep(g.nodes[1..], {n});
  }

  // ----- lemmas for the methods

  lemma {:induction false} SameHandle<T>(cells: seq<Cell<T>>, i: nat)
    requires DistinctHandles(cells) && i < |cells|
    ensures Live(cells, cells[i].h) && At(cells, cells[i].h) == i
  {}

  /** Both ends of a live edge are found. */
  lemma {:induction false} EndsFound(g: Graph, e: Handle)
    requires Valid(g) && Live(g.edges, e)
    ensures forall i | 0 <= i < |g.nodes| :: g.nodes[i].h != 0
    ensures var edge := g.edges[At(g.edges, e)].v;
            var (i, j) := (Find(g.nodes, edge.source), Find(g.nodes, edge.dest));
            && i < |g.nodes| && j < |g.nodes|
            && var (src, dst) := (g.nodes[i].h, g.nodes[j].h);
            && Live(g.nodes, src) && Live(g.nodes, dst) && Runs(g, e, src, dst)
            && forall tag ::
                 NewEdge(g, src, dst, tag).source == edge.source && NewEdge(g, src, dst, tag).dest == edge.dest
  {
    hide DistinctAddresses, Anchored;
    var edge := g.edges[At(g.edges, e)].v;
    BothAnchored(g, At(g.edges, e));
    var i, j := Find(g.nodes, edge.source), Find(g.nodes, edge.dest);
    assert i < |g.nodes| && j < |g.nodes|;
    SameHandle(g.nodes, i);
    SameHandle(g.nodes, j);
    assert Names(g.nodes, g.nodes[i].h, edge.source) && Names(g.nodes, g.nodes[j].h, edge.dest);
  }

  lemma {:induction false} BothAnchored(g: Graph, k: nat)
    requires Anchored(g.nodes, g.edges) && k < |g.edges|
    ensures HasNode(g.nodes, g.edges[k].v.source) && HasNode(g.nodes, g.edges[k].v.dest)
  {}

  lemma {:induction false} ValidDistinct(g: Graph)
    requires Valid(g)
    ensures DistinctHandles(g.nodes) && DistinctHandles(g.edges)
  {}

  lemma {:induction false} HandlesSnoc<T>(cells: seq<Cell<T>>, c: Cell<T>)
    ensures Handles(cells + [c]) == Handles(cells) + [c.h]
  {}

  lemma {:induction false} RemovedHandle<T>(cells: seq<Cell<T>>, h: Handle)
    requires Live(cells, h)
    ensures multiset(Handles(cells)) == multiset(Handles(RemoveFirst(cells, h))) + multiset{h}
  {
    hide RemoveFirst;
    RemovedAt(cells, h);
    var i, hs := At(cells, h), Handles(cells);
    assert Handles(RemoveFirst(cells, h)) == hs[..i] + hs[i + 1..];
    WithoutOne(hs, i);
  }

  lemma {:induction false} WithoutOne<T>(s: seq<T>, i: nat)
    requires i < |s|
    ensures multiset(s) == multiset(s[..i] + s[i + 1..]) + multiset{s[i]}
  {
    assert s == s[..i] + ([s[i]] + s[i + 1..]);
    assert multiset(s) == multiset(s[..i]) + (multiset([s[i]]) + multiset(s[i + 1..]));
  }

  lemma {:induction false} RemovedAt<T>(cells: seq<Cell<T>>, h: Handle)
    requires Live(cells, h)
    ensures RemoveFirst(cells, h) == cells[..At(cells, h)] + cells[At(cells, h) + 1..]
  {
    if cells[0].h != h {
      assert cells[1..][At(cells, h) - 1].h == h;
      RemovedAt(cells[1..], h);
    }
  }

  lemma {:induction false} AsSetSnoc(hs: seq<Handle>, h: Handle)
    ensures AsSet([]) == {} && AsSet(hs + [h]) == AsSet(hs) + {h}
    ensures (forall i | 0 <= i < |hs| :: hs[i] != h) ==> h !in AsSet(hs)
  {}

  lemma {:induction false} KeepNone<T>(cells: seq<Cell<T>>)
    ensures Keep(cells, {}) == cells
  {
    KeepAll(cells, {});
  }

  lemma {:induction false} StillLive(edges: seq<Cell<Edge>>, gone: set<Handle>, h: Handle)
    requires Live(edges, h) && h !in gone
    ensures Live(Keep(edges, gone), h)
  {
    KeepMembers(edges, gone);
    assert edges[At(edges, h)] in Keep(edges, gone);
  }

  lemma {:induction false} TouchingMembers(edges: seq<Cell<Edge>>, a: Address, incoming: bool)
    ensures forall c ::
              c in Touching(edges, a, incoming) <==> c in edges && (if incoming then Enters(c.v, a) else Leaves(c.v, a))
  {
    if edges != [] {
      var n := |edges| - 1;
      TouchingMembers(edges[..n], a, incoming);
      assert edges == edges[..n] + [edges[n]];
    }
  }

  lemma {:induction false} TouchingDistinct(edges: seq<Cell<Edge>>, a: Address, incoming: bool)
    requires DistinctHandles(edges)
    ensures DistinctHandles(Touching(edges, a, incoming))
  {
    if edges != [] {
      var n := |edges| - 1;
      var front := Touching(edges[..n], a, incoming);
      TouchingDistinct(edges[..n], a, incoming);
      TouchingMembers(edges[..n], a, incoming);
      forall j | 0 <= j < |front| ensures front[j].h != edges[n].h { assert front[j] in edges[..n]; }
    }
  }

  /** The edges at one end of a node are live, listed once, and all there. */
  lemma {:induction false} TouchingHandles(edges: seq<Cell<Edge>>, a: Address, incoming: bool)
    requires DistinctHandles(edges)
    ensures var hs := Handles(Touching(edges, a, incoming));
            && ListsOnce(hs, AsSet(hs))
            && (forall i | 0 <= i < |hs| :: Live(edges, hs[i]))
            && (forall i | 0 <= i < |edges| ::
                  edges[i].h in hs <==> if incoming then Enters(edges[i].v, a) else Leaves(edges[i].v, a))
  {
    var t := Touching(edges, a, incoming);
    var hs := Handles(t);
    TouchingMembers(edges, a, incoming);
    TouchingDistinct(edges, a, incoming);
    forall j | 0 <= j < |hs| ensures Live(edges, hs[j]) {
      assert t[j] in edges;
    }
    forall i | 0 <= i < |edges|
      ensures edges[i].h in hs <==> if incoming then Enters(edges[i].v, a) else Leaves(edges[i].v, a)
    {
      if edges[i] in t {
        var j :| 0 <= j < |t| && t[j] == edges[i];
        assert hs[j] == edges[i].h;
      }
      assert forall j | 0 <= j < |t| :: t[j].h == edges[i].h ==> t[j] == edges[i];
    }
  }

  lemma {:induction false} RemovedOnce(edges: seq<Cell<Edge>>, mid: seq<Cell<Edge>>, a: Address, out: seq<Handle>,
                                       into: seq<Handle>)
    requires DistinctHandles(edges) && DistinctHandles(mid)
    requires out == Handles(Touching(edges, a, false)) && mid == Keep(edges, AsSet(out))
    requires into == Handles(Touching(mid, a, true))
    ensures Keep(mid, AsSet(into)) == Keep(edges, AtNode(edges, a)) && ListsOnce(out + into, AtNode(edges, a))
  {
    hide Keep, Touching;
    TouchingHandles(edges, a, false);
    TouchingHandles(mid, a, true);
    BothEnds(edges, mid, a, out, into);
    assert AsSet(out + into) == AsSet(out) + AsSet(into);
    KeepTwice(edges, AsSet(out), AsSet(into));
  }

  lemma {:induction false} BothEnds(edges: seq<Cell<Edge>>, mid: seq<Cell<Edge>>, a: Address, out: seq<Handle>,
                                    into: seq<Handle>)
    requires mid == Keep(edges, AsSet(out))
    requires forall i | 0 <= i < |out| :: Live(edges, out[i])
    requires forall i | 0 <= i < |into| :: Live(mid, into[i])
    requires forall i | 0 <= i < |edges| :: edges[i].h in out <==> Leaves(edges[i].v, a)
    requires forall i | 0 <= i < |mid| :: mid[i].h in into <==> Enters(mid[i].v, a)
    ensures AsSet(out) + AsSet(into) == AtNode(edges, a)
    ensures forall h :: h in into ==> h !in out
  {
    KeepMembers(edges, AsSet(out));
    forall h | h in into ensures h !in out && h in AtNode(edges, a) {
      var j :| 0 <= j < |into| && into[j] == h;
      var c := mid[At(mid, h)];
      assert c in mid && c in edges && c.h !in AsSet(out);
    }
    forall h | h in out ensures h in AtNode(edges, a) {
      var j :| 0 <= j < |out| && out[j] == h;
      var c := edges[At(edges, h)];
    }
    forall i | 0 <= i < |edges| && (edges[i].v.source == a || edges[i].v.dest == a)
      ensures edges[i].h in AsSet(out) + AsSet(into)
    {
      if edges[i].h !in out {
        assert edges[i] in mid;
        var j :| 0 <= j < |mid| && mid[j] == edges[i];
      }
    }
  }
}
