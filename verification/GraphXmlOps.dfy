/** The serializing loops of lib/graph/graph-serialization.c, with their renumbering table. */
module GraphXmlOps {
  import opened Options
  import opened Ids
  import opened GraphStore
  import opened GraphOps
  import opened NodePath
  import opened GraphXml

  /** The registered types, in order. */
  function Registered(reg: Registry, types: seq<Magic>): (r: seq<Magic>)
    ensures forall t <- r :: t in types
  {
    if types == [] then []
    else
      var last := types[|types| - 1];
      Registered(reg, types[..|types| - 1]) + if last in reg.datas then [last] else []
  }

  lemma {:induction false} RegisteredMembers(reg: Registry, types: seq<Magic>)
    ensures forall t :: t in Registered(reg, types) <==> t in types && t in reg.datas
  {
    if types != [] {
      RegisteredMembers(reg, types[..|types| - 1]);
      assert types == types[..|types| - 1] + [types[|types| - 1]];
    }
  }

  lemma {:induction false} RegisteredAll(reg: Registry, types: seq<Magic>)
    requires forall t <- types :: t in reg.datas
    ensures Registered(reg, types) == types
  {
    if types != [] {
      RegisteredAll(reg, types[..|types| - 1]);
      assert types == types[..|types| - 1] + [types[|types| - 1]];
    }
  }

  /** The data loop of xml_add_node: exactly the data of registered types become elements. */
  method CollectMeas(reg: Registry, data: map<Magic, string>) returns (meas: seq<Meas>, ghost types: seq<Magic>)
    ensures Lists(types, data.Keys) && forall t <- types :: t in data
    ensures meas == MeasOf(Registered(reg, types), data)
    ensures forall t :: (exists m <- meas :: m.magic == t) <==> t in data && t in reg.datas
  {
    hide Names, MeasOf, Registered;
    meas := [];
    var it := ListDir(data.Keys);
    types := Pending(it);
    ListsMembers(types, data.Keys);
    ghost var done := 0;
    NoMeas(reg, types, data);
    while it.At?
      invariant 0 <= done <= |types| && Pending(it) == types[done..]
      invariant meas == MeasOf(Registered(reg, types[..done]), data)
      decreases if it.At? then |it.rest| + 1 else 0
    {
      var t := it.name;
      assert t == types[done] && Names(it.rest) == types[done + 1..];
      MeasNext(reg, types, data, done);
      if t in reg.datas {
        meas := meas + [Meas(|data[t]|, AsciiText(CText(data[t])), t)];
      }
      it := NextEntry(it.rest);
      done := done + 1;
    }
    assert Pending(it) == [];
    assert types[..done] == types;
    RegisteredMembers(reg, types);
    MeasMagics(Registered(reg, types), data);
  }

  lemma {:induction false} MeasMagics(types: seq<Magic>, data: map<Magic, string>)
    requires forall t <- types :: t in data
    ensures forall t :: (exists m <- MeasOf(types, data) :: m.magic == t) <==> t in types
  {
    var meas := MeasOf(types, data);
    forall t | t in types ensures exists m <- meas :: m.magic == t {
      var i :| 0 <= i < |types| && types[i] == t;
      assert meas[i] in meas && meas[i].magic == t;
    }
  }

  lemma {:induction false} NoMeas(reg: Registry, types: seq<Magic>, data: map<Magic, string>)
    ensures MeasOf(Registered(reg, types[..0]), data) == []
  {
  }

  lemma {:induction false} MeasNext(reg: Registry, types: seq<Magic>, data: map<Magic, string>, k: nat)
    requires k < |types| && forall t <- types :: t in data
    ensures var t := types[k];
            MeasOf(Registered(reg, types[..k + 1]), data)
            == MeasOf(Registered(reg, types[..k]), data)
               + if t in reg.datas then [Meas(|data[t]|, AsciiText(CText(data[t])), t)] else []
  {
    assert types[..k + 1][..k] == types[..k] && types[..k + 1][k] == types[k];
  }

  /** A node and an order of its data types. */
  predicate Visited(fs: Fs, n: Id, types: seq<Magic>) {
    && n in fs.byId && fs.byId[n] in fs.dirs
    && Lists(types, fs.dirs[fs.byId[n]].data.Keys) && forall t <- types :: t in fs.dirs[fs.byId[n]].data
  }

  /** The type and address of a node can be read and its address printed. */
  predicate Shown(reg: Registry, key: Key) {
    key.typ in reg.types && key.space in reg.spaces && reg.codec(key.space, Unpathify(key.addr)).Printed?
  }

  /** What becomes of the `i`-th node: its element; nothing when its type or address cannot be read;
      an element without an address when the address cannot be printed. */
  function ElemsOf(reg: Registry, fs: Fs, i: nat, n: Id, types: seq<Magic>): seq<Elem>
    requires Visited(fs, n, types)
  {
    var key := fs.byId[n];
    if key.typ !in reg.types || key.space !in reg.spaces then []
    else match reg.codec(key.space, Unpathify(key.addr))
         case BadAddress => []
         case Unprintable => [Malformed]
         case Printed(text) =>
           [Node(HexDigits(i, ID_LEN), key.typ, reg.types[key.typ], key.space, text,
                 MeasOf(Registered(reg, types), fs.dirs[key].data))]
  }

  /** xml_add_node */
  method AddNodeElem(reg: Registry, fs: Fs, i: nat, n: Id) returns (elems: seq<Elem>, ghost types: seq<Magic>)
    requires Consistent(fs) && n in fs.byId
    ensures Visited(fs, n, types) && elems == ElemsOf(reg, fs, i, n, types)
  {
    hide Readable, EdgesLinked, MeasOf, Lists, HexDigits, Names;
    elems := [];
    var key := fs.byId[n];
    assert LinkOk(fs, n);
    ghost var some := ListingExists(fs.dirs[key].data.Keys);
    types := Names(some);
    ListsMembers(types, fs.dirs[key].data.Keys);
    if key.typ !in reg.types || key.space !in reg.spaces {
      return;
    }
    var text := reg.codec(key.space, Unpathify(key.addr));
    if text.BadAddress? {
      return;
    }
    if text.Unprintable? {
      elems := [Malformed];
      return;
    }
    var meas, ts := CollectMeas(reg, fs.dirs[key].data);
    types := ts;
    elems := [Node(HexDigits(i, ID_LEN), key.typ, reg.types[key.typ], key.space, text.text, meas)];
  }

  predicate AllVisited(fs: Fs, nodes: seq<Id>, types: seq<seq<Magic>>) {
    |types| == |nodes| && forall i {:trigger Visited(fs, nodes[i], types[i])} | 0 <= i < |nodes| ::
          Visited(fs, nodes[i], types[i])
  }

  /** What becomes of the nodes, numbered in visiting order. */
  function NodesDoc(reg: Registry, fs: Fs, nodes: seq<Id>, types: seq<seq<Magic>>): seq<Elem>
    requires AllVisited(fs, nodes, types)
  {
    if nodes == [] then []
    else
      var n := |nodes| - 1;
      assert forall i | 0 <= i < n :: Visited(fs, nodes[i], types[i]);
      assert Visited(fs, nodes[n], types[n]);
      NodesDoc(reg, fs, nodes[..n], types[..n]) + ElemsOf(reg, fs, n, nodes[n], types[n])
  }

  lemma {:induction false} NodesDocNext(reg: Registry, fs: Fs, nodes: seq<Id>, types: seq<seq<Magic>>, n: Id,
                                        ts: seq<Magic>)
    requires AllVisited(fs, nodes, types) && Visited(fs, n, ts)
    ensures AllVisited(fs, nodes + [n], types + [ts])
    ensures NodesDoc(reg, fs, nodes + [n], types + [ts])
              == NodesDoc(reg, fs, nodes, types) + ElemsOf(reg, fs, |nodes|, n, ts)
  {
    hide Visited, ElemsOf;
    var ns, tss := nodes + [n], types + [ts];
    forall i | 0 <= i < |ns| ensures Visited(fs, ns[i], tss[i]) {
      if i < |nodes| { assert Visited(fs, nodes[i], types[i]); }
    }
    assert ns[..|nodes|] == nodes && tss[..|nodes|] == types;
  }

  /** In a serializable store every node has its element. */
  lemma {:induction false} NodesDocElems(reg: Registry, fs: Fs, nodes: seq<Id>, types: seq<seq<Magic>>)
    requires Serializable(reg, fs) && AllVisited(fs, nodes, types)
    ensures NodeElems(reg, fs, nodes, types, NodesDoc(reg, fs, nodes, types))
  {
    hide NodeVisited, NodeElems, Serializable, NodesDoc, ElemsOf, Visited;
    if nodes == [] {
      NoElems(reg, fs, nodes);
      NoNodes(reg, fs, nodes);
    } else {
      var n := |nodes| - 1;
      assert forall i | 0 <= i < n :: Visited(fs, nodes[i], types[i]);
      assert Visited(fs, nodes[n], types[n]);
      NodesDocElems(reg, fs, nodes[..n], types[..n]);
      NodesDocNext(reg, fs, nodes[..n], types[..n], nodes[n], types[n]);
      var elem := ElemVisited(reg, fs, n, nodes[n], types[n]);
      NodeElemsNext(reg, fs, nodes[..n], types[..n], NodesDoc(reg, fs, nodes[..n], types[..n]), nodes[n], types[n],
            elem);
      assert nodes[..n] + [nodes[n]] == nodes && types[..n] + [types[n]] == types;
    }
  }

  lemma {:induction false} ElemVisited(reg: Registry, fs: Fs, i: nat, n: Id, types: seq<Magic>) returns (elem: Elem)
    requires Serializable(reg, fs) && Visited(fs, n, types)
    ensures ElemsOf(reg, fs, i, n, types) == [elem] && NodeVisited(reg, fs, i, n, types, elem)
  {
    hide Storable, MeasOf, Lists, HexDigits;
    RegisteredAll(reg, types);
    elem := ElemsOf(reg, fs, i, n, types)[0];
  }

  /** Distinct ids below a bound are no more than the bound. */
  lemma {:induction false} Pigeonhole(names: seq<Id>, bound: nat)
    requires forall i, j | 0 <= i < j < |names| :: names[i] != names[j]
    requires forall i | 0 <= i < |names| :: names[i] < bound
    ensures |names| <= bound
    decreases bound
  {
    if i :| 0 <= i < |names| && names[i] == bound - 1 {
      Pigeonhole(names[..i] + names[i + 1..], bound - 1);
    } else if names != [] {
      assert names[0] < bound;
      Pigeonhole(names, bound - 1);
    }
  }

  lemma {:induction false} FewerThanBound(names: seq<Id>, s: set<Id>, bound: nat)
    requires Lists(names, s) && forall n | n in s :: n < bound
    ensures |names| <= bound
  {
    ListsMembers(names, s);
    forall j | 0 <= j < |names| ensures names[j] < bound { assert names[j] in names; }
    Pigeonhole(names, bound);
  }

  /** One element for each of the given nodes. */
  predicate NodeElems(reg: Registry, fs: Fs, nodes: seq<Id>, types: seq<seq<Magic>>, doc: seq<Elem>) {
    && |doc| == |types| == |nodes|
    && forall i {:trigger NodeVisited(reg, fs, i, nodes[i], types[i], doc[i])} | 0 <= i < |nodes| ::
         NodeVisited(reg, fs, i, nodes[i], types[i], doc[i])
  }

  predicate EdgeElems(fs: Fs, nodes: seq<Id>, edges: seq<Id>, doc: seq<Elem>) {
    && |doc| == |edges|
    && forall j {:trigger EdgeVisited(fs, nodes, edges[j], doc[j])} | 0 <= j < |edges| ::
         EdgeVisited(fs, nodes, edges[j], doc[j])
  }

  lemma {:induction false} NodeElemsNext(reg: Registry, fs: Fs, nodes: seq<Id>, types: seq<seq<Magic>>, doc: seq<Elem>,
                      n: Id, ts: seq<Magic>, elem: Elem)
    requires NodeElems(reg, fs, nodes, types, doc) && NodeVisited(reg, fs, |nodes|, n, ts, elem)
    ensures NodeElems(reg, fs, nodes + [n], types + [ts], doc + [elem])
  {
    hide NodeVisited;
    var ns, tss, d := nodes + [n], types + [ts], doc + [elem];
    forall i | 0 <= i < |ns| ensures NodeVisited(reg, fs, i, ns[i], tss[i], d[i]) {
      if i < |nodes| { assert NodeVisited(reg, fs, i, nodes[i], types[i], doc[i]); }
    }
  }

  lemma {:induction false} EdgeElemsNext(fs: Fs, nodes: seq<Id>, edges: seq<Id>, doc: seq<Elem>, e: Id, elem: Elem)
    requires EdgeElems(fs, nodes, edges, doc) && EdgeVisited(fs, nodes, e, elem)
    ensures EdgeElems(fs, nodes, edges + [e], doc + [elem])
  {
    hide EdgeVisited;
    var es, d := edges + [e], doc + [elem];
    forall j | 0 <= j < |es| ensures EdgeVisited(fs, nodes, es[j], d[j]) {
      if j < |edges| { assert EdgeVisited(fs, nodes, edges[j], doc[j]); }
    }
  }

  lemma {:induction false} ElemsSerialize(reg: Registry, fs: Fs, v: Visit, nodeDoc: seq<Elem>, edgeDoc: seq<Elem>)
    requires Lists(v.nodes, fs.byId.Keys) && Lists(v.edges, fs.edges.Keys)
    requires NodeElems(reg, fs, v.nodes, v.types, nodeDoc) && EdgeElems(fs, v.nodes, v.edges, edgeDoc)
    ensures Serializes(reg, fs, v, nodeDoc + edgeDoc)
  {
    hide NodeVisited, EdgeVisited, Lists;
    var doc := nodeDoc + edgeDoc;
    forall i | 0 <= i < |v.nodes| ensures NodeVisited(reg, fs, i, v.nodes[i], v.types[i], doc[i]) {
      assert NodeVisited(reg, fs, i, v.nodes[i], v.types[i], nodeDoc[i]);
    }
    forall j | 0 <= j < |v.edges| ensures EdgeVisited(fs, v.nodes, v.edges[j], doc[|v.nodes| + j]) {
      assert EdgeVisited(fs, v.nodes, v.edges[j], edgeDoc[j]);
    }
  }

  /** The first nodes visited have been numbered in order. */
  predicate Numbered(nodes: seq<Id>, next: nat, table: seq<Id>)
    requires next <= |nodes|
  {
    forall j | 0 <= j < next :: nodes[j] < |table| && table[nodes[j]] == j
  }

  lemma {:induction false} NumberedNext(nodes: seq<Id>, s: set<Id>, next: nat, table: seq<Id>)
    requires Lists(nodes, s) && next < |nodes| && nodes[next] < |table| && next < INVALID_ID
    requires Numbered(nodes, next, table)
    ensures Numbered(nodes, next + 1, table[nodes[next] := next])
  {
    assert forall j | 0 <= j < next :: nodes[j] != nodes[next];
  }

  lemma {:induction false} NumberOf(nodes: seq<Id>, s: set<Id>, table: seq<Id>, n: Id)
    requires Lists(nodes, s) && Numbered(nodes, |nodes|, table) && n in s
    ensures n < |table| && table[n] < |nodes| && nodes[table[n]] == n
  {
    ListsMembers(nodes, s);
    var j :| 0 <= j < |nodes| && nodes[j] == n;
  }

  /** The node loop: fills the renumbering table, indexed by node id without a bounds check. */
  method SerializeNodes(reg: Registry, fs: Fs, table: array<Id>)
    returns (doc: seq<Elem>, next: nat, ghost nodes: seq<Id>, ghost types: seq<seq<Magic>>)
    requires Consistent(fs) && (forall n | n in fs.byId :: n < table.Length) && table.Length < INVALID_ID
    modifies table
    ensures Lists(nodes, fs.byId.Keys) && next == |nodes| <= table.Length
    ensures Numbered(nodes, |nodes|, table[..])
    ensures AllVisited(fs, nodes, types) && doc == NodesDoc(reg, fs, nodes, types)
  {
    hide Consistent, Visited, ElemsOf, AllVisited, NodesDoc, LoadNode, Names, Lists, Numbered;
    doc, next, types := [], 0, [];
    var it := ListDir(fs.byId.Keys);
    nodes := Pending(it);
    ListsMembers(nodes, fs.byId.Keys);
    FewerThanBound(nodes, fs.byId.Keys, table.Length);
    NoNodes(reg, fs, nodes);
    assert Numbered(nodes, 0, table[..]) by { NoneNumbered(nodes, table[..]); }
    while it.At?
      invariant next <= |nodes| && Pending(it) == nodes[next..]
      invariant Numbered(nodes, next, table[..])
      invariant AllVisited(fs, nodes[..next], types) && doc == NodesDoc(reg, fs, nodes[..next], types)
      decreases if it.At? then |it.rest| + 1 else 0
    {
      assert it.name == nodes[next] && Names(it.rest) == nodes[next + 1..];
      NodeUnderLink(fs, it.name);
      var n := LoadNode(fs, Some(fs.byId[it.name]));
      if n != INVALID_ID {
        NumberedNext(nodes, fs.byId.Keys, next, table[..]);
        ghost var was: seq<Id> := table[..];
        table[n] := next;
        assert table[..] == was[n := next as Id];
        var elems, ts := AddNodeElem(reg, fs, next, n);
        NodesDocNext(reg, fs, nodes[..next], types, n, ts);
        doc, types := doc + elems, types + [ts];
        assert nodes[..next + 1] == nodes[..next] + [n];
        next := next + 1;
      }
      it := NextEntry(it.rest);
    }
    assert Pending(it) == [];
    assert nodes[..next] == nodes;
  }

  lemma {:induction false} NoneNumbered(nodes: seq<Id>, table: seq<Id>)
    ensures Numbered(nodes, 0, table)
  {
  }

  lemma {:induction false} NoNodes(reg: Registry, fs: Fs, nodes: seq<Id>)
    ensures AllVisited(fs, nodes[..0], []) && NodesDoc(reg, fs, nodes[..0], []) == []
  {
  }

  lemma {:induction false} NoElems(reg: Registry, fs: Fs, nodes: seq<Id>)
    ensures NodeElems(reg, fs, nodes[..0], [], []) && EdgeElems(fs, nodes, [], [])
  {
  }

  /** The edge loop: an edge with an endpoint that was not numbered is left out. */
  method SerializeEdges(fs: Fs, table: array<Id>, next: nat, ghost nodes: seq<Id>)
    returns (doc: seq<Elem>, ghost edges: seq<Id>)
    requires Consistent(fs) && Lists(nodes, fs.byId.Keys) && next == |nodes| < INVALID_ID
    requires Numbered(nodes, |nodes|, table[..])
    ensures Lists(edges, fs.edges.Keys) && EdgeElems(fs, nodes, edges, doc)
  {
    hide Consistent, EdgeVisited, EdgeElems, HexDigits, EdgeSource, EdgeDestination, EdgeLabel, Numbered, Lists,
         Names, LoadNode;
    doc := [];
    var it := ListDir(fs.edges.Keys);
    ghost var done := 0;
    edges := Pending(it);
    ListsMembers(edges, fs.edges.Keys);
    assert edges[..0] == [];
    NoElems(Registry(map[], {}, {}, (m, s) => BadAddress), fs, nodes);
    while it.At?
      invariant 0 <= done <= |edges| && Pending(it) == edges[done..]
      invariant EdgeElems(fs, nodes, edges[..done], doc)
      decreases if it.At? then |it.rest| + 1 else 0
    {
      var e := it.name;
      assert e == edges[done] && Names(it.rest) == edges[done + 1..];
      EndsOfEdge(fs, e);
      var s, t := EdgeSource(fs, e), EdgeDestination(fs, e);
      NodeUnderLink(fs, s);
      NodeUnderLink(fs, t);
      NumberOf(nodes, fs.byId.Keys, table[..], s);
      NumberOf(nodes, fs.byId.Keys, table[..], t);
      if s != INVALID_ID && s < table.Length && t != INVALID_ID && t < table.Length {
        var s', t' := table[s], table[t];
        if s' != INVALID_ID && s' < next && t' != INVALID_ID && t' < next {
          var elem := Edge(EdgeLabel(fs, e), HexDigits(s', ID_LEN), HexDigits(t', ID_LEN));
          EdgeElemVisited(fs, nodes, e, s', t');
          EdgeElemsNext(fs, nodes, edges[..done], doc, e, elem);
          doc := doc + [elem];
        }
      }
      assert edges[..done + 1] == edges[..done] + [e];
      it := NextEntry(it.rest);
      done := done + 1;
    }
    assert Pending(it) == [];
    assert edges[..done] == edges;
  }

  lemma {:induction false} EdgeElemVisited(fs: Fs, nodes: seq<Id>, e: Id, s: nat, t: nat)
    requires s < |nodes| && t < |nodes| && nodes[s] == EdgeSource(fs, e) && nodes[t] == EdgeDestination(fs, e)
    ensures EdgeVisited(fs, nodes, e, Edge(EdgeLabel(fs, e), HexDigits(s, ID_LEN), HexDigits(t, ID_LEN)))
  {
  }

  /** What the serializer writes for any store: what becomes of each node, numbered in visiting
      order, and one element for each edge between the numbers of its endpoints. */
  predicate DocumentOf(reg: Registry, fs: Fs, v: Visit, doc: seq<Elem>) {
    && Lists(v.nodes, fs.byId.Keys) && Lists(v.edges, fs.edges.Keys) && AllVisited(fs, v.nodes, v.types)
    && var nodeDoc := NodesDoc(reg, fs, v.nodes, v.types);
    && nodeDoc <= doc && EdgeElems(fs, v.nodes, v.edges, doc[|nodeDoc|..])
  }

  /** serialize_measurement_graph.  Every live id is below the counter that sizes the table, so
      every unchecked write to the table is in range. */
  method Serialize(reg: Registry, fs: Fs) returns (ok: bool, doc: seq<Elem>, ghost v: Visit)
    requires Consistent(fs) && NodesBelow(fs)
    ensures ok <==> IdOfStr(fs.nodeFile) != INVALID_ID
    ensures ok ==> DocumentOf(reg, fs, v, doc) && |v.nodes| <= IdOfStr(fs.nodeFile)
    ensures ok && Serializable(reg, fs) ==> Serializes(reg, fs, v, doc)
  {
    hide Consistent, IdOfStr, Serializes, Serializable, NodeElems, EdgeElems, AllVisited, NodesDoc;
    doc, v := [], Visit([], [], []);
    var max := IdOfStr(fs.nodeFile);
    if max == INVALID_ID {
      return false, doc, v;
    }
    ok := true;
    var table := new Id[max](_ => INVALID_ID);
    var nodeDoc, next, nodes, types := SerializeNodes(reg, fs, table);
    var edgeDoc, edges := SerializeEdges(fs, table, next, nodes);
    doc, v := nodeDoc + edgeDoc, Visit(nodes, types, edges);
    assert doc[|nodeDoc|..] == edgeDoc;
    if Serializable(reg, fs) {
      NodesDocElems(reg, fs, nodes, types);
      ElemsSerialize(reg, fs, v, nodeDoc, edgeDoc);
    }
  }

  lemma {:induction false} NodeUnderLink(fs: Fs, n: Id)
    requires Consistent(fs) && n in fs.byId
    ensures LoadNode(fs, Some(fs.byId[n])) == n && n != INVALID_ID
  {
    assert LinkOk(fs, n);
  }
}
