/** parse_measurement_graph (lib/graph/graph-serialization.c): rebuilding a graph from its
    elements through an id map that grows with the largest node id seen. */
module GraphXmlParse {
  import opened CStrings
  import opened Options
  import opened Ids
  import opened GraphStore
  import opened GraphOps
  import opened NodePath
  import opened GraphXml
  import opened GraphXmlOps

  /** The id map; None marks a slot of freshly allocated memory that was never written. */
  type Slots = array<Option<Id>>

  predicate Sized(capacity: nat) {
    64 <= capacity <= NODE_ID_MAX
  }

  /** Makes room for `id`.  The new capacity covers the id, its size in bytes is representable and
      no earlier entry is lost; only an id past the largest allowed one fails. */
  method Grow(slots: Slots, id: Id) returns (ok: bool, slots': Slots)
    requires Sized(slots.Length)
    ensures ok <==> id < NODE_ID_MAX
    ensures Sized(slots'.Length) && slots'.Length * 8 <= SIZE_MAX && slots.Length <= slots'.Length
    ensures ok ==> id < slots'.Length == Capacity(slots.Length, id)
    ensures slots'[..slots.Length] == slots[..]
    ensures forall j | slots.Length <= j < slots'.Length :: slots'[j] == None
    ensures slots' == slots || fresh(slots')
  {
    ok, slots' := true, slots;
    if id >= slots.Length {
      if id >= NODE_ID_MAX {
        return false, slots;
      }
      var capacity := if id >= NODE_ID_MAX / 2 then id + 1 else 2 * id;
      slots' := new Option<Id>[capacity](_ => None);
      forall j | 0 <= j < slots.Length {
        slots'[j] := slots[j];
      }
    }
  }

  /** The measurement loop: elements that do not parse are skipped and failures to store are
      ignored. */
  method StoreMeas(g: MeasurementGraph, n: Id, meas: seq<Meas>, faulty: bool)
    requires Consistent(g.fs)
    modifies g
    ensures Consistent(g.fs)
    ensures !faulty && PathForNode(old(g.fs), n).Some? ==>
              g.fs == WithData(old(g.fs), PathForNode(old(g.fs), n).value, meas)
  {
    hide Consistent, DataWritten;
    ghost var key := PathForNode(g.fs, n);
    if key.Some? { WithNoData(g.fs, key.value); }
    assert meas[..0] == [];
    for i := 0 to |meas|
      invariant Consistent(g.fs)
      invariant !faulty && key.Some? ==> g.fs == WithData(old(g.fs), key.value, meas[..i])
    {
      var m := meas[i];
      assert meas[..i + 1] == meas[..i] + [m];
      if !faulty && key.Some? { WithDataNext(old(g.fs), key.value, n, meas[..i], m); }
      if Accepted(m) {
        var bytes := Payload(m);
        var stored: nat := *;
        if !faulty || stored > |bytes| { stored := |bytes|; }
        DataWrittenConsistent(g.fs, n, m.magic, bytes, Some(stored));
        var _ := g.AddData(n, m.magic, bytes, Some(stored));
      }
    }
    assert meas[..|meas|] == meas;
  }

  /** The store after the measurement elements of one node were stored. */
  function WithData(fs: Fs, key: Key, meas: seq<Meas>): Fs
    requires key in fs.dirs
  {
    fs.(dirs := fs.dirs[key := fs.dirs[key].(data := FoldMeas(fs.dirs[key].data, meas))])
  }

  lemma {:induction false} WithNoData(fs: Fs, key: Key)
    requires key in fs.dirs
    ensures WithData(fs, key, []) == fs
  {
    assert fs.dirs[key := fs.dirs[key]] == fs.dirs;
  }

  lemma {:induction false} WithDataNext(fs: Fs, key: Key, n: Id, meas: seq<Meas>, m: Meas)
    requires PathForNode(fs, n) == Some(key)
    ensures var now := WithData(fs, key, meas);
            WithData(fs, key, meas + [m])
            == if Accepted(m) then DataWritten(now, n, m.magic, Payload(m), Some(|Payload(m)|)) else now
  {
    assert (meas + [m])[..|meas|] == meas;
  }

  // ----- one element at a time

  /** The store and the id map agree with what the elements so far mean, and neither counter has
      run past the number of elements. */
  ghost predicate Tracks(fs: Fs, slots: seq<Option<Id>>, p: Parsed, elems: nat) {
    && GraphOf(fs) == p.graph && |slots| == p.capacity
    && Below(fs) && IdOfStr(fs.nodeFile) <= elems && IdOfStr(fs.edgeFile) <= elems
    && forall id | id in p.ids :: SlotOk(fs, slots, p, id)
  }

  predicate SlotOk(fs: Fs, slots: seq<Option<Id>>, p: Parsed, id: Id)
    requires id in p.ids
  {
    && id < |slots| && slots[id].Some? && slots[id].value in fs.byId
    && fs.byId[slots[id].value] == p.ids[id]
  }

  const CLEAN_NODE: NodeFault := NodeFault(false, false, false, ID_LEN, false, false, None)
  const CLEAN_EDGE: EdgeFault := EdgeFault(false, ID_LEN, false, false, false, false, false, false)

  /** What an add-node call in the parser leaves: the node existed, or it was added under the
      counter's id. */
  predicate NodePresent(a: Fs, b: Fs, key: Key, n: Id) {
    || (b == a && key in a.dirs && n == LoadNode(a, Some(key)))
    || (&& key !in a.dirs && n !in a.byId && n == IdOfStr(a.nodeFile) && n != INVALID_ID
        && b == PutNode(a.(nodeFile := TakeId(a.nodeFile, ID_LEN).1), key, n))
  }

  lemma {:induction false} PresentPath(a: Fs, b: Fs, key: Key, n: Id)
    requires Consistent(a) && NodePresent(a, b, key, n)
    ensures PathForNode(b, n) == Some(key) && n in b.byId && b.byId[n] == key
    ensures forall m | m in a.byId :: m in b.byId && b.byId[m] == a.byId[m]
  {
    hide Readable, TakeId, IdOfStr;
    if b == a { NodeOfKey(a, key); }
  }

  lemma {:induction false} PresentCounters(a: Fs, b: Fs, key: Key, n: Id, elems: nat)
    requires Consistent(a) && NodePresent(a, b, key, n)
    requires Below(a) && IdOfStr(a.nodeFile) <= elems && IdOfStr(a.edgeFile) <= elems
    ensures Below(b) && IdOfStr(b.nodeFile) <= elems + 1 && IdOfStr(b.edgeFile) <= elems + 1
  {
    hide TakeId, IdOfStr, IsCounter, NodesLinked, EdgesLinked;
    TakeIdSpec(a.nodeFile, IdOfStr(a.nodeFile), ID_LEN);
  }

  lemma {:induction false} PresentGraph(a: Fs, b: Fs, key: Key, n: Id, meas: seq<Meas>)
    requires NodePresent(a, b, key, n)
    ensures var data := if key in a.dirs then a.dirs[key].data else map[];
            GraphOf(WithData(b, key, meas)) == GraphOf(a).(nodes := GraphOf(a).nodes[key := FoldMeas(data, meas)])
  {
    hide TakeId, IdOfStr, FoldMeas;
    var c := WithData(b, key, meas);
    var data := if key in a.dirs then a.dirs[key].data else map[];
    assert GraphOf(c).nodes == GraphOf(a).nodes[key := FoldMeas(data, meas)];
    assert GraphOf(c).edges == GraphOf(a).edges;
  }

  lemma {:induction false} NodeTracked(a: Fs, slots: seq<Option<Id>>, p: Parsed, elems: nat, b: Fs,
                                       slots': seq<Option<Id>>,
                    key: Key, id: Id, n: Id, meas: seq<Meas>)
    requires Consistent(a) && Tracks(a, slots, p, elems) && NodePresent(a, b, key, n)
    requires id < |slots'| && |slots| <= |slots'| && slots'[id] == Some(n)
    requires forall j | 0 <= j < |slots| && j != id :: slots'[j] == slots[j]
    ensures var data := if key in p.graph.nodes then p.graph.nodes[key] else map[];
            Tracks(WithData(b, key, meas), slots',
                   Parsed(p.ids[id := key], p.graph.(nodes := p.graph.nodes[key := FoldMeas(data, meas)]),
                         |slots'|), elems + 1)
  {
    hide Consistent, TakeId, IdOfStr, FoldMeas, NodePresent;
    PresentPath(a, b, key, n);
    PresentCounters(a, b, key, n, elems);
    PresentGraph(a, b, key, n, meas);
    var data := if key in p.graph.nodes then p.graph.nodes[key] else map[];
    var p' := Parsed(p.ids[id := key], p.graph.(nodes := p.graph.nodes[key := FoldMeas(data, meas)]), |slots'|);
    var c := WithData(b, key, meas);
    forall j | j in p'.ids ensures SlotOk(c, slots', p', j) {
      if j != id { assert SlotOk(a, slots, p, j); }
    }
  }

  /** There are ids left for another node and edge. */
  lemma {:induction false} RoomForIds(fs: Fs, elems: nat)
    requires Below(fs) && IdOfStr(fs.nodeFile) <= elems && IdOfStr(fs.edgeFile) <= elems && elems < INT_MAX
    ensures IdOfStr(fs.nodeFile) !in fs.byId && IdOfStr(fs.nodeFile) != INVALID_ID
    ensures IdOfStr(fs.edgeFile) !in fs.edges && IdOfStr(fs.edgeFile) != INVALID_ID
  {
    hide IdOfStr;
  }

  method ParseNode(reg: Registry, g: MeasurementGraph, slots: Slots, e: Elem, faulty: bool, ghost p: Parsed,
                   ghost elems: nat)
    returns (ok: bool, slots': Slots)
    requires e.Node? && Sized(slots.Length) && Consistent(g.fs)
    modifies g, slots
    ensures Consistent(g.fs) && Sized(slots'.Length) && (slots' == slots || fresh(slots'))
    ensures !faulty && elems < INT_MAX && old(Tracks(g.fs, slots[..], p, elems)) ==>
              match ElemMeaning(reg, p, e) {
                case Ok(p') => ok && Tracks(g.fs, slots'[..], p', elems + 1)
                case _ => !ok
              }
  {
    hide Consistent, IdOfStr, KeyOfElem, WithData, TakeId, HexDigits, GraphOf, FoldMeas, SlotOk, NodePresent, Below;
    slots' := slots;
    ghost var a := g.fs;
    ghost var was := slots[..];
    var id := IdOfStr(e.id);
    var key := KeyOfElem(reg, e);
    if id == INVALID_ID || key.None? {
      return false, slots;
    }
    ok, slots' := Grow(slots, id);
    if !ok {
      return;
    }
    var f: NodeFault := *;
    if !faulty { f := CLEAN_NODE; }
    if Tracks(a, was, p, elems) && elems < INT_MAX { RoomForIds(a, elems); }
    var rc, n := g.AddNode(key.value, None, f);
    if rc < 0 {
      return false, slots';
    }
    ghost var b := g.fs;
    assert !faulty ==> NodePresent(a, b, key.value, n) by {
      if !faulty { PresentAfter(a, b, key.value, n, rc); }
    }
    slots'[id] := Some(n);
    if !faulty { PresentPath(a, b, key.value, n); }
    StoreMeas(g, n, e.meas, faulty);
    if !faulty && elems < INT_MAX && Tracks(a, was, p, elems) {
      NodeTracked(a, was, p, elems, b, slots'[..], key.value, id, n, e.meas);
    }
  }

  lemma {:induction false} PresentAfter(a: Fs, b: Fs, key: Key, n: Id, rc: int)
    requires rc == 0 ==> key in a.dirs && n == LoadNode(a, Some(key)) && b == a
    requires rc == 1 ==> key !in a.dirs && n == IdOfStr(a.nodeFile) && n !in a.byId && n != INVALID_ID
                         && b == NodeAdded(a, key, n, None, CLEAN_NODE)
    requires rc == 0 || rc == 1
    ensures NodePresent(a, b, key, n)
  {
    hide TakeId, IdOfStr;
  }

  /** What a successful add-edge call in the parser leaves. */
  predicate EdgePresent(a: Fs, b: Fs, e: Id, src: Id, tag: Option<string>, dst: Id) {
    || (b == a && Matches(a, e, src, tag, dst))
    || (&& PathForNode(a, src).Some? && PathForNode(a, dst).Some? && e !in a.edges && e == IdOfStr(a.edgeFile)
        && b == EdgeAdded(a, e, src, tag, dst, ID_LEN))
  }

  lemma {:induction false} EdgePresentGraph(a: Fs, b: Fs, e: Id, src: Id, tag: Option<string>, dst: Id, from: Key,
                                            to: Key)
    requires Consistent(a) && EdgePresent(a, b, e, src, tag, dst)
    requires PathForNode(a, src) == Some(from) && PathForNode(a, dst) == Some(to)
    ensures GraphOf(b) == GraphOf(a).(edges := GraphOf(a).edges + {(from, ReadLabel(tag), to)})
    ensures b.byId == a.byId
  {
    hide Readable, TakeId, IdOfStr, IsAscii, NodesLinked, EdgesLinked;
    if Matches(a, e, src, tag, dst) && b == a {
      EndsOfEdge(a, e);
      assert TripleOf(a.edges[e]) == (from, ReadLabel(tag), to);
      assert (from, ReadLabel(tag), to) in GraphOf(a).edges;
      assert GraphOf(b).edges == GraphOf(a).edges + {(from, ReadLabel(tag), to)};
    } else {
      assert b.edges == a.edges[e := EdgeRec(Some(from), Some(to), tag)];
      assert GraphOf(b).nodes == GraphOf(a).nodes;
      TriplesNext(a.edges, e, EdgeRec(Some(from), Some(to), tag));
    }
  }

  lemma {:induction false} TriplesNext(edges: map<Id, EdgeRec>, e: Id, rec: EdgeRec)
    requires e !in edges && rec.src.Some? && rec.dest.Some?
    ensures Triples(edges[e := rec]) == Triples(edges) + {TripleOf(rec)}
  {
    hide ReadLabel;
    var edges' := edges[e := rec];
    forall t | t in Triples(edges) + {TripleOf(rec)} ensures t in Triples(edges') {
      if t in Triples(edges) {
        var d :| d in edges && edges[d].src.Some? && edges[d].dest.Some? && TripleOf(edges[d]) == t;
        assert d in edges' && TripleOf(edges'[d]) == t;
      } else {
        assert TripleOf(edges'[e]) == t;
      }
    }
  }

  lemma {:induction false} EdgePresentCounters(a: Fs, b: Fs, e: Id, src: Id, tag: Option<string>, dst: Id, elems: nat)
    requires Consistent(a) && EdgePresent(a, b, e, src, tag, dst)
    requires Below(a) && IdOfStr(a.nodeFile) <= elems && IdOfStr(a.edgeFile) <= elems && elems < INT_MAX
    ensures Below(b) && IdOfStr(b.nodeFile) <= elems + 1 && IdOfStr(b.edgeFile) <= elems + 1
  {
    hide TakeId, IdOfStr, IsCounter, NodesLinked, EdgesLinked, IsAscii;
    TakeIdSpec(a.edgeFile, IdOfStr(a.edgeFile), ID_LEN);
  }

  lemma {:induction false} EdgeTracked(a: Fs, slots: seq<Option<Id>>, p: Parsed, elems: nat, b: Fs, e: Id,
                    s: Id, tag: Option<string>, t: Id)
    requires Consistent(a) && Tracks(a, slots, p, elems) && elems < INT_MAX && s in p.ids && t in p.ids
    requires SlotOk(a, slots, p, s) && SlotOk(a, slots, p, t)
    requires EdgePresent(a, b, e, slots[s].value, tag, slots[t].value)
    ensures Tracks(b, slots, p.(graph := p.graph.(edges := p.graph.edges + {(p.ids[s], ReadLabel(tag), p.ids[t])})),
              elems + 1)
  {
    hide Readable, TakeId, IdOfStr, IsAscii, EdgesLinked, EdgePresent, GraphOf, Below;
    assert LinkOk(a, slots[s].value) && LinkOk(a, slots[t].value);
    EdgePresentGraph(a, b, e, slots[s].value, tag, slots[t].value, p.ids[s], p.ids[t]);
    EdgePresentCounters(a, b, e, slots[s].value, tag, slots[t].value, elems);
    var p' := p.(graph := p.graph.(edges := p.graph.edges + {(p.ids[s], ReadLabel(tag), p.ids[t])}));
    forall j | j in p'.ids ensures SlotOk(b, slots, p', j) { assert SlotOk(a, slots, p, j); }
  }

  /** One endpoint of an edge element: an unwritten slot holds whatever the memory held. */
  method ReadSlot(slots: Slots, id: Id) returns (n: Id)
    requires Sized(slots.Length)
    ensures id < slots.Length && slots[id].Some? ==> n == slots[id].value
    ensures id >= slots.Length ==> n == INVALID_ID
  {
    if id == INVALID_ID || id >= slots.Length {
      return INVALID_ID;
    }
    if slots[id].None? {
      n := *;
    } else {
      n := slots[id].value;
    }
  }

  method ParseEdge(reg: Registry, g: MeasurementGraph, slots: Slots, e: Elem, faulty: bool, ghost p: Parsed,
                   ghost elems: nat)
    returns (ok: bool)
    requires e.Edge? && Sized(slots.Length) && Consistent(g.fs)
    modifies g
    ensures Consistent(g.fs) && slots[..] == old(slots[..])
    ensures !faulty && elems < INT_MAX && old(Tracks(g.fs, slots[..], p, elems)) ==>
              match ElemMeaning(reg, p, e) {
                case Ok(p') => ok && Tracks(g.fs, slots[..], p', elems + 1)
                case Rejected => !ok
                case Unwritten => true
              }
  {
    hide Consistent, IdOfStr, HexDigits, GraphOf, EdgePresent, Below, IsAscii, TakeId, Matches, NoMatch, EdgeAdded;
    ghost var a := g.fs;
    ghost var tracked := !faulty && elems < INT_MAX && Tracks(a, slots[..], p, elems);
    var s, t := IdOfStr(e.source), IdOfStr(e.target);
    if s == INVALID_ID {
      return false;
    }
    var src := ReadSlot(slots, s);
    if src == INVALID_ID {
      if tracked && s in p.ids { SlotValid(a, slots[..], p, s); }
      return false;
    }
    if t == INVALID_ID {
      return false;
    }
    var dst := ReadSlot(slots, t);
    if dst == INVALID_ID {
      if tracked && t in p.ids { SlotValid(a, slots[..], p, t); }
      return false;
    }
    var f: EdgeFault := *;
    if !faulty { f := CLEAN_EDGE; }
    if tracked {
      RoomForIds(a, elems);
      if s in p.ids { SlotValid(a, slots[..], p, s); }
      if t in p.ids { SlotValid(a, slots[..], p, t); }
    }
    var rc, out := g.AddEdge(src, e.tag, dst, f);
    ok := rc == 0;
    if tracked && s in p.ids && t in p.ids {
      EdgePresentAfter(a, g.fs, out, src, e.tag, dst);
      EdgeTracked(a, slots[..], p, elems, g.fs, out, s, e.tag, t);
    }
  }

  lemma {:induction false} SlotValid(fs: Fs, slots: seq<Option<Id>>, p: Parsed, id: Id)
    requires Consistent(fs) && id in p.ids && SlotOk(fs, slots, p, id)
    ensures slots[id].value != INVALID_ID && PathForNode(fs, slots[id].value) == Some(p.ids[id])
  {
    assert LinkOk(fs, slots[id].value);
  }

  lemma {:induction false} EdgePresentAfter(a: Fs, b: Fs, e: Id, src: Id, tag: Option<string>, dst: Id)
    requires e in a.edges ==> b == a && Matches(a, e, src, tag, dst)
    requires e !in a.edges ==> e == IdOfStr(a.edgeFile) && PathForNode(a, src).Some? && PathForNode(a, dst).Some?
                               && b == EdgeAdded(a, e, src, tag, dst, ID_LEN)
    ensures EdgePresent(a, b, e, src, tag, dst)
  {
    hide TakeId, IdOfStr, EdgeAdded, Matches;
  }

  // ----- whole documents

  lemma {:induction false} NothingTracked(slots: seq<Option<Id>>)
    requires |slots| == 64
    ensures Consistent(EMPTY) && Tracks(EMPTY, slots, NOTHING, 0)
  {
    hide Consistent;
    EmptyConsistent();
    EmptyCounters();
    assert GraphOf(EMPTY) == NOTHING.graph;
  }

  lemma {:induction false} EmptyCounters()
    ensures IdOfStr(EMPTY.nodeFile) == 0 && IdOfStr(EMPTY.edgeFile) == 0
  {
    assert "0" == HexDigits(0, 1);
    ScanCounter("0", 0);
  }

  /** A document that fails at some element keeps that outcome. */
  lemma {:induction false} FailureStays(reg: Registry, doc: seq<Elem>, i: nat)
    requires i <= |doc| && !Meaning(reg, doc[..i]).Ok?
    ensures Meaning(reg, doc) == Meaning(reg, doc[..i])
    decreases |doc|
  {
    hide ElemMeaning;
    if i == |doc| {
      assert doc[..i] == doc;
    } else {
      var rest := doc[..|doc| - 1];
      assert rest[..i] == doc[..i];
      FailureStays(reg, rest, i);
    }
  }

  /** parse_measurement_graph.  `size` is the length of the document's text. */
  method Parse(reg: Registry, doc: seq<Elem>, size: nat, faulty: bool) returns (g: MeasurementGraph?)
    requires |doc| <= size
    ensures g != null ==> fresh(g) && Consistent(g.fs)
    ensures size > INT_MAX ==> g == null
    ensures !faulty && size <= INT_MAX ==>
              match Meaning(reg, doc) {
                case Ok(p) => g != null && GraphOf(g.fs) == p.graph
                case Rejected => g == null
                case Unwritten => true
              }
  {
    hide Consistent, IdOfStr, GraphOf, Below, SlotOk, FoldMeas, KeyOfElem, IsAscii, HexDigits;
    if size > INT_MAX {
      return null;
    }
    var h := new MeasurementGraph();
    var slots: Slots := new Option<Id>[64](_ => None);
    NothingTracked(slots[..]);
    assert doc[..0] == [];
    for i := 0 to |doc|
      invariant Consistent(h.fs) && fresh(h) && fresh(slots) && Sized(slots.Length)
      invariant !faulty ==>
                  match Meaning(reg, doc[..i]) {
                    case Ok(p) => Tracks(h.fs, slots[..], p, i)
                    case Rejected => false
                    case Unwritten => true
                  }
    {
      var e := doc[i];
      assert doc[..i + 1][..i] == doc[..i] && doc[..i + 1][i] == e;
      ghost var p := if Meaning(reg, doc[..i]).Ok? then Meaning(reg, doc[..i]).p else NOTHING;
      if !Meaning(reg, doc[..i + 1]).Ok? { FailureStays(reg, doc, i + 1); }
      match e {
        case Node(_, _, _, _, _, _) =>
          var ok;
          ok, slots := ParseNode(reg, h, slots, e, faulty, p, i);
          if !ok { return null; }
        case Edge(_, _, _) =>
          var ok := ParseEdge(reg, h, slots, e, faulty, p, i);
          if !ok { return null; }
        case Skipped =>
        case Malformed =>
          return null;
      }
    }
    assert doc[..|doc|] == doc;
    g := h;
  }

  // ----- which stores can be read back

  /** What becomes of a node can be read: nothing was written for it, or an element whose address text
      gives an address that can be printed again. */
  predicate NodeReads(reg: Registry, key: Key) {
    || key.typ !in reg.types || key.space !in reg.spaces
    || match reg.codec(key.space, Unpathify(key.addr))
       case BadAddress => true
       case Unprintable => false
       case Printed(text) => reg.codec(key.space, text).Printed?
  }

  /** All nodes can be read and both ends of every edge have an element. */
  ghost predicate Readback(reg: Registry, fs: Fs) {
    && (forall n | n in fs.byId :: NodeReads(reg, fs.byId[n]))
    && forall e | e in fs.edges :: EndsShown(reg, fs.edges[e])
  }

  predicate EndsShown(reg: Registry, rec: EdgeRec) {
    rec.src.Some? && Shown(reg, rec.src.value) && rec.dest.Some? && Shown(reg, rec.dest.value)
  }

  /** The parser after the nodes of a document: the slots of the nodes that are shown are written. */
  ghost predicate NodesDone(reg: Registry, fs: Fs, nodes: seq<Id>, p: Parsed) {
    && 64 <= p.capacity <= NODE_ID_MAX && (forall id | id in p.ids :: id < p.capacity && id < |nodes|)
    && forall i: Id | 0 <= i < |nodes| && nodes[i] in fs.byId :: i in p.ids <==> Shown(reg, fs.byId[nodes[i]])
  }

  lemma {:induction false} MeaningNext(reg: Registry, doc: seq<Elem>, e: Elem)
    ensures Meaning(reg, doc + [e])
              == match Meaning(reg, doc) { case Ok(p) => ElemMeaning(reg, p, e) case other => other }
  {
    assert (doc + [e])[..|doc|] == doc;
  }

  /** A document of one node: it is read exactly when its number is one below the largest, its type and
      address space are registered, its type has the name given and its address can be parsed and
      printed; and then the node has the measurements stored. */
  lemma {:induction false} OneNode(reg: Registry, e: Elem)
    requires e.Node?
    ensures var m, id := Meaning(reg, [e]), IdOfStr(e.id);
            if id < 0x1fff_ffff_ffff_ffff && e.space in reg.spaces && e.typ in reg.types
               && reg.types[e.typ] == e.typName && reg.codec(e.space, e.addr).Printed?
            then
              var key := KeyOf(e.typ, e.space, reg.codec(e.space, e.addr).text);
              && m.Ok? && m.p.ids == map[id := key]
              && m.p.graph == Graph(map[key := FoldMeas(map[], e.meas)], {})
            else m == Rejected
  {
    hide IdOfStr, FoldMeas, HexDigits, Capacity;
    assert [e][..0] == [];
  }

  /** What an edge from that node to another number means: the map holds 64 numbers, or twice the
      node's; one in it that no node has is read unwritten, and one past it is refused. */
  lemma {:induction false} EdgeAfterNode(reg: Registry, e: Elem, t: Id)
    requires e.Node? && Meaning(reg, [e]).Ok? && IdOfStr(e.id) < 0x0fff_ffff_ffff_ffff
    ensures var i := IdOfStr(e.id);
            var m := Meaning(reg, [e, Edge(None, HexDigits(i, 16), HexDigits(t, 16))]);
            if t == i then m.Ok?
            else if t < (if i < 64 then 64 else 2 * i) then m == Unwritten
            else m == Rejected
  {
    hide Meaning, IdOfStr, HexDigits, IsAscii;
    var i := IdOfStr(e.id);
    var edge := Edge(None, HexDigits(i, 16), HexDigits(t, 16));
    IdRoundTrip(i);
    IdRoundTrip(t);
    OneNodeMap(reg, e);
    assert [e] + [edge] == [e, edge];
    MeaningNext(reg, [e], edge);
  }

  /** An edge element between two numbers that nodes have adds the edge from the one to the other, without
      its label if that is not ASCII, and nothing else. */
  lemma {:induction false} EdgeRead(reg: Registry, doc: seq<Elem>, tag: Option<string>, s: Id, t: Id)
    requires Meaning(reg, doc).Ok? && s in Meaning(reg, doc).p.ids && t in Meaning(reg, doc).p.ids
    requires var p := Meaning(reg, doc).p; s < p.capacity && t < p.capacity && p.capacity <= NODE_ID_MAX
    ensures var p, m := Meaning(reg, doc).p, Meaning(reg, doc + [Edge(tag, HexDigits(s, 16), HexDigits(t, 16))]);
            && m.Ok? && m.p.ids == p.ids && m.p.graph.nodes == p.graph.nodes
            && var seen := if tag.Some? && IsAscii(tag.value) then tag else None;
               m.p.graph.edges == p.graph.edges + {(p.ids[s], seen, p.ids[t])}
  {
    hide Meaning, IdOfStr, HexDigits, IsAscii;
    IdRoundTrip(s);
    IdRoundTrip(t);
    MeaningNext(reg, doc, Edge(tag, HexDigits(s, 16), HexDigits(t, 16)));
  }

  lemma {:induction false} OneNodeMap(reg: Registry, e: Elem)
    requires e.Node? && Meaning(reg, [e]).Ok? && IdOfStr(e.id) < 0x0fff_ffff_ffff_ffff
    ensures var p, i := Meaning(reg, [e]).p, IdOfStr(e.id);
            p.ids.Keys == {i} && p.capacity == if i < 64 then 64 else 2 * i
  {
    hide IdOfStr, FoldMeas, HexDigits, KeyOfElem;
    assert [e][..0] == [];
  }

  /** One node: it is read exactly when `NodeReads`, and writes its slot exactly when it is shown. */
  lemma {:induction false} NodeMeaning(reg: Registry, fs: Fs, doc: seq<Elem>, i: nat, n: Id, types: seq<Magic>)
    requires Visited(fs, n, types) && i < NODE_ID_MAX && Meaning(reg, doc).Ok?
    ensures var m, key := Meaning(reg, doc + ElemsOf(reg, fs, i, n, types)), fs.byId[n];
            && (if NodeReads(reg, key) then m.Ok? else m == Rejected)
            && (m.Ok? ==> var p := Meaning(reg, doc).p;
                          && m.p.ids.Keys == (if Shown(reg, key) then p.ids.Keys + {i} else p.ids.Keys)
                          && m.p.capacity == if Shown(reg, key) then Capacity(p.capacity, i) else p.capacity)
  {
    hide Meaning, HexDigits, IdOfStr, MeasOf, FoldMeas, Lists, Capacity;
    ReadHex(i);
    var elems := ElemsOf(reg, fs, i, n, types);
    if elems == [] {
      assert doc + elems == doc;
    } else {
      assert elems == [elems[0]];
      MeaningNext(reg, doc, elems[0]);
    }
  }

  predicate AllRead(reg: Registry, fs: Fs, nodes: seq<Id>) {
    forall i | 0 <= i < |nodes| && nodes[i] in fs.byId :: NodeReads(reg, fs.byId[nodes[i]])
  }

  lemma {:induction false} AllReadNext(reg: Registry, fs: Fs, nodes: seq<Id>, n: Id)
    requires n in fs.byId
    ensures AllRead(reg, fs, nodes + [n]) <==> AllRead(reg, fs, nodes) && NodeReads(reg, fs.byId[n])
  {
    hide NodeReads;
    var all := nodes + [n];
    assert all[|nodes|] == n && forall i | 0 <= i < |nodes| :: all[i] == nodes[i];
  }

  lemma {:induction false} NodesDoneNext(reg: Registry, fs: Fs, nodes: seq<Id>, n: Id, p: Parsed, p': Parsed)
    requires NodesDone(reg, fs, nodes, p) && n in fs.byId && |nodes| < NODE_ID_MAX
    requires p'.ids.Keys == if Shown(reg, fs.byId[n]) then p.ids.Keys + {|nodes|} else p.ids.Keys
    requires p'.capacity == if Shown(reg, fs.byId[n]) then Capacity(p.capacity, |nodes|) else p.capacity
    ensures NodesDone(reg, fs, nodes + [n], p')
  {
    hide Shown, Capacity;
    CapacityNext(p.capacity, |nodes|);
    var all := nodes + [n];
    assert all[|nodes|] == n && forall i | 0 <= i < |nodes| :: all[i] == nodes[i];
    assert forall id :: id in p'.ids <==> id in p'.ids.Keys;
  }

  lemma {:induction false} NodesMeaning(reg: Registry, fs: Fs, nodes: seq<Id>, types: seq<seq<Magic>>)
    requires AllVisited(fs, nodes, types) && |nodes| <= NODE_ID_MAX
    ensures var m := Meaning(reg, NodesDoc(reg, fs, nodes, types));
            && (if AllRead(reg, fs, nodes) then m.Ok? else m == Rejected)
            && (m.Ok? ==> NodesDone(reg, fs, nodes, m.p))
  {
    hide Shown, NodeReads, ElemsOf, Visited, Capacity, ElemMeaning, NodesDone, AllRead;
    if nodes == [] {
      NothingDone(reg, fs);
    } else {
      var k := |nodes| - 1;
      var n, ts := nodes[k], types[k];
      assert forall i | 0 <= i < k :: Visited(fs, nodes[i], types[i]);
      assert Visited(fs, n, ts) && nodes == nodes[..k] + [n];
      VisitedNode(fs, n, ts);
      NodesMeaning(reg, fs, nodes[..k], types[..k]);
      AllReadNext(reg, fs, nodes[..k], n);
      var front := NodesDoc(reg, fs, nodes[..k], types[..k]);
      if Meaning(reg, front).Ok? {
        NodeMeaning(reg, fs, front, k, n, ts);
        var m := Meaning(reg, front + ElemsOf(reg, fs, k, n, ts));
        if m.Ok? { NodesDoneNext(reg, fs, nodes[..k], n, Meaning(reg, front).p, m.p); }
      } else {
        FailureKept(reg, front, ElemsOf(reg, fs, k, n, ts));
      }
    }
  }

  lemma {:induction false} NothingDone(reg: Registry, fs: Fs)
    ensures NodesDone(reg, fs, [], NOTHING) && AllRead(reg, fs, [])
  {}

  lemma {:induction false} VisitedNode(fs: Fs, n: Id, types: seq<Magic>)
    requires Visited(fs, n, types)
    ensures n in fs.byId
  {}

  lemma {:induction false} CapacityNext(capacity: nat, id: nat)
    requires 64 <= capacity <= NODE_ID_MAX && id < NODE_ID_MAX
    ensures capacity <= Capacity(capacity, id) && id < Capacity(capacity, id) <= NODE_ID_MAX
  {}

  lemma {:induction false} FailureKept(reg: Registry, doc: seq<Elem>, more: seq<Elem>)
    requires !Meaning(reg, doc).Ok?
    ensures Meaning(reg, doc + more) == Meaning(reg, doc)
  {
    hide Meaning;
    assert (doc + more)[..|doc|] == doc;
    FailureStays(reg, doc + more, |doc|);
  }

  /** One edge: it is read exactly when both its ends are shown. */
  lemma {:induction false} EdgeMeaning(reg: Registry, fs: Fs, nodes: seq<Id>, p: Parsed, e: Id, elem: Elem)
    requires Consistent(fs) && Lists(nodes, fs.byId.Keys) && |nodes| <= NODE_ID_MAX && e in fs.edges
    requires NodesDone(reg, fs, nodes, p) && EdgeVisited(fs, nodes, e, elem)
    ensures var m := ElemMeaning(reg, p, elem);
            (m.Ok? <==> EndsShown(reg, fs.edges[e])) && (m.Ok? ==> NodesDone(reg, fs, nodes, m.p))
  {
    hide Consistent, HexDigits, IdOfStr, Shown, Lists, EdgeSource, EdgeDestination, EdgeLabel, IsAscii;
    var s, t :| 0 <= s < |nodes| && 0 <= t < |nodes|
                && nodes[s] == EdgeSource(fs, e) && nodes[t] == EdgeDestination(fs, e)
                && elem == Edge(EdgeLabel(fs, e), HexDigits(s, ID_LEN), HexDigits(t, ID_LEN));
    ReadHex(s);
    ReadHex(t);
    EndsOfEdge(fs, e);
  }

  lemma {:induction false} EdgesMeaning(reg: Registry, fs: Fs, nodes: seq<Id>, edges: seq<Id>, nodeDoc: seq<Elem>,
                                        edgeDoc: seq<Elem>)
    requires Consistent(fs) && Lists(nodes, fs.byId.Keys) && |nodes| <= NODE_ID_MAX
    requires (forall j | 0 <= j < |edges| :: edges[j] in fs.edges) && EdgeElems(fs, nodes, edges, edgeDoc)
    requires Meaning(reg, nodeDoc).Ok? && NodesDone(reg, fs, nodes, Meaning(reg, nodeDoc).p)
    ensures var m := Meaning(reg, nodeDoc + edgeDoc);
            && (m.Ok? <==> forall j | 0 <= j < |edges| :: EndsShown(reg, fs.edges[edges[j]]))
            && (m.Ok? ==> NodesDone(reg, fs, nodes, m.p))
    decreases |edges|
  {
    hide Consistent, EdgeVisited, NodesDone, EndsShown, Lists, ElemMeaning, Meaning;
    if edges == [] {
      assert nodeDoc + edgeDoc == nodeDoc;
    } else {
      var k := |edges| - 1;
      var front := edgeDoc[..k];
      assert forall j | 0 <= j < k :: EdgeVisited(fs, nodes, edges[j], edgeDoc[j]);
      assert EdgeVisited(fs, nodes, edges[k], edgeDoc[k]);
      EdgesMeaning(reg, fs, nodes, edges[..k], nodeDoc, front);
      assert nodeDoc + edgeDoc == nodeDoc + front + [edgeDoc[k]];
      MeaningNext(reg, nodeDoc + front, edgeDoc[k]);
      if Meaning(reg, nodeDoc + front).Ok? {
        EdgeMeaning(reg, fs, nodes, Meaning(reg, nodeDoc + front).p, edges[k], edgeDoc[k]);
      }
      assert forall j | 0 <= j < k :: edges[..k][j] == edges[j];
    }
  }

  /** Exactly which stores give a document that parses, for every listing order: those in which every
      node can be read and both ends of every edge have an element.  A node that cannot be read makes
      the parser refuse the document, whether or not it has edges. */
  lemma {:induction false} ParsesWhen(reg: Registry, fs: Fs, v: Visit, doc: seq<Elem>)
    requires Consistent(fs) && DocumentOf(reg, fs, v, doc) && |v.nodes| <= NODE_ID_MAX
    ensures Meaning(reg, doc).Ok? <==> Readback(reg, fs)
    ensures (exists n | n in fs.byId :: !NodeReads(reg, fs.byId[n])) ==> Meaning(reg, doc) == Rejected
  {
    hide Consistent, Meaning, NodeReads, EndsShown, AllVisited, NodesDoc, Lists, EdgeElems, NodesDone;
    var nodeDoc := NodesDoc(reg, fs, v.nodes, v.types);
    var edgeDoc := doc[|nodeDoc|..];
    assert doc == nodeDoc + edgeDoc;
    ListsMembers(v.nodes, fs.byId.Keys);
    ListsMembers(v.edges, fs.edges.Keys);
    NodesMeaning(reg, fs, v.nodes, v.types);
    assert forall n | n in fs.byId :: n in v.nodes;
    if Meaning(reg, nodeDoc).Ok? {
      assert forall j | 0 <= j < |v.edges| :: v.edges[j] in v.edges && v.edges[j] in fs.edges;
      EdgesMeaning(reg, fs, v.nodes, v.edges, nodeDoc, edgeDoc);
      assert forall e | e in fs.edges :: e in v.edges;
    } else {
      FailureKept(reg, nodeDoc, edgeDoc);
      var i :| 0 <= i < |v.nodes| && v.nodes[i] in fs.byId && !NodeReads(reg, fs.byId[v.nodes[i]]);
    }
  }

  /** One node whose address cannot be printed, and no edge: the document is refused. */
  method UnprintableNodeLost(reg: Registry, key: Key) returns (ok: bool, doc: seq<Elem>, parsed: MeasurementGraph?)
    requires key.typ in reg.types && key.space in reg.spaces && reg.codec(key.space, Unpathify(key.addr)) == Unprintable
    ensures ok && Meaning(reg, doc) == Rejected && parsed == null
  {
    hide Consistent, IdOfStr, HexDigits, DocumentOf, Meaning;
    var g := new MeasurementGraph();
    EmptyConsistent();
    EmptyCounters();
    CounterStarts();
    var rc, n := g.AddNode(key, None, CLEAN_NODE);
    assert g.fs.byId == map[0 := key];
    ghost var v;
    ok, doc, v := Serialize(reg, g.fs);
    ParsesWhen(reg, g.fs, v, doc);
    assert 0 in g.fs.byId && !NodeReads(reg, g.fs.byId[0]);
    parsed := Parse(reg, doc, |doc|, false);
  }

  /** A graph of one node with an unregistered type and an edge to itself: its serialization refers
      to a slot that is never written. */
  method UnregisteredNodeLost(reg: Registry, key: Key) returns (ok: bool, doc: seq<Elem>)
    requires key.typ !in reg.types
    ensures ok && Meaning(reg, doc) == Unwritten
  {
    hide Consistent, IdOfStr, HexDigits, IsAscii, EdgeElems, EdgeVisited;
    var g := new MeasurementGraph();
    EmptyConsistent();
    EmptyCounters();
    CounterStarts();
    var rc, n := g.AddNode(key, None, CLEAN_NODE);
    assert g.fs.byId == map[0 := key];
    var e;
    rc, e := g.AddEdge(n, None, n, CLEAN_EDGE);
    assert g.fs.byId == map[0 := key] && g.fs.edges == map[0 := EdgeRec(Some(key), Some(key), None)];
    ghost var v;
    ok, doc, v := Serialize(reg, g.fs);
    LoneEdge(reg, g.fs, v, doc, key);
  }

  lemma {:induction false} CounterStarts()
    ensures IsCounter("0", 0) && IdOfStr("0") == 0 && TakeId("0", ID_LEN).0 == 0 && IdOfStr(TakeId("0", ID_LEN).1) == 1
  {
    hide IdOfStr, TakeId;
    assert "0" == HexDigits(0, 1);
    ScanCounter("0", 0);
    TakeIdSpec("0", 0, ID_LEN);
  }

  lemma {:induction false} LoneEdge(reg: Registry, fs: Fs, v: Visit, doc: seq<Elem>, key: Key)
    requires key.typ !in reg.types && fs.byId == map[0 := key] && fs.edges.Keys == {0} && DocumentOf(reg, fs, v, doc)
    ensures Meaning(reg, doc) == Unwritten
  {
    hide IdOfStr, HexDigits, IsAscii, EdgeSource, EdgeDestination, EdgeLabel;
    OnlyOne(v.nodes, fs.byId.Keys);
    OnlyOne(v.edges, fs.edges.Keys);
    assert Visited(fs, v.nodes[0], v.types[0]);
    assert v.nodes[..0] == [] && v.types[..0] == [];
    assert NodesDoc(reg, fs, v.nodes, v.types) == [];
    assert doc[0..] == doc && EdgeVisited(fs, v.nodes, v.edges[0], doc[0..][0]);
    ReadHex(0);
    assert doc[..0] == [];
  }

  lemma {:induction false} OnlyOne(names: seq<Id>, s: set<Id>)
    requires Lists(names, s) && s == {0}
    ensures names == [0]
  {
    ListsMembers(names, s);
    FewerThanBound(names, s, 1);
    assert 0 in names;
  }

  /** Serialize and parse back, for every listing order.  The parser makes a graph of the document of
      any store that can be read back, refuses it when some node cannot be read, and for a store with
      registered types and textual data the parsed graph has the same nodes, data and labelled edges.
      `textSize` is the length of a document's text. */
  method RoundTrip(reg: Registry, fs: Fs, textSize: seq<Elem> -> nat)
    returns (ok: bool, doc: seq<Elem>, g: MeasurementGraph?)
    requires Consistent(fs) && NodesBelow(fs) && forall d :: |d| <= textSize(d)
    ensures ok <==> IdOfStr(fs.nodeFile) != INVALID_ID
    ensures ok && Serializable(reg, fs) && textSize(doc) <= INT_MAX ==>
              g != null && Consistent(g.fs) && GraphOf(g.fs) == GraphOf(fs)
    ensures ok && textSize(doc) <= INT_MAX && IdOfStr(fs.nodeFile) <= NODE_ID_MAX ==>
              && (Meaning(reg, doc).Ok? <==> Readback(reg, fs))
              && (Readback(reg, fs) ==> g != null && Consistent(g.fs) && GraphOf(g.fs) == Meaning(reg, doc).p.graph)
              && ((exists n | n in fs.byId :: !NodeReads(reg, fs.byId[n])) ==> g == null)
  {
    hide Consistent, NodesBelow, Serializable, Serializes, Meaning, GraphOf, IdOfStr, Readback, NodeReads, DocumentOf;
    ghost var v;
    ok, doc, v := Serialize(reg, fs);
    g := null;
    if ok {
      if Serializable(reg, fs) && textSize(doc) <= INT_MAX { SerializedMeaning(reg, fs, v, doc); }
      if IdOfStr(fs.nodeFile) <= NODE_ID_MAX { ParsesWhen(reg, fs, v, doc); }
      g := Parse(reg, doc, textSize(doc), false);
    }
  }
}
