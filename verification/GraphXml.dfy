/** Serializing a stored graph and parsing it back (lib/graph/graph-serialization.c).  The XML
    document is the sequence of its "node" and "edge" elements. */
module GraphXml {
  import opened CStrings
  import opened Options
  import opened Ids
  import opened GraphStore
  import opened GraphOps
  import opened NodePath

  const SIZE_MAX: nat := 0xffff_ffff_ffff_ffff
  const NODE_ID_MAX: nat := SIZE_MAX / 8
  const MAGIC_MAX: nat := TWO32 - 2

  /** A "measurement" element: the advertised size, the text up to its terminator when it is
      ASCII, and the type. */
  datatype Meas = Meas(size: nat, text: Option<string>, magic: Magic)

  datatype Elem =
    | Node(id: string, typ: Magic, typName: string, space: Magic, addr: string, meas: seq<Meas>)
    | Edge(tag: Option<string>, source: string, target: string)
    | Skipped      // text between elements
    | Malformed    // unknown element, or one without a required attribute

  /** The registered target types, address spaces and measurement types, and what re-serializing
      a parsed address gives. */
  datatype Registry = Registry(types: map<Magic, string>, spaces: set<Magic>, datas: set<Magic>,
                               codec: (Magic, string) -> Addr)

  /** An address text that does not parse, one whose address cannot be printed, and one that can. */
  datatype Addr = BadAddress | Unprintable | Printed(text: string)

  // ----- what a graph is

  type Triple = (Key, Option<string>, Key)

  datatype Graph = Graph(nodes: map<Key, map<Magic, string>>, edges: set<Triple>)

  function TripleOf(rec: EdgeRec): Triple
    requires rec.src.Some? && rec.dest.Some?
  {
    (rec.src.value, ReadLabel(rec.tag), rec.dest.value)
  }

  function Triples(edges: map<Id, EdgeRec>): set<Triple> {
    set e | e in edges && edges[e].src.Some? && edges[e].dest.Some? :: TripleOf(edges[e])
  }

  /** The graph a store holds: each variable's data, and the edges between variables. */
  function GraphOf(fs: Fs): Graph {
    Graph(map k | k in fs.dirs :: fs.dirs[k].data, Triples(fs.edges))
  }

  /** The graph in terms of what can be asked of a store: its variables are those of the nodes, their
      data are what reading them gives, and its edges are those between the nodes found at their ends
      with their labels as read. */
  lemma {:induction false} GraphMeans(fs: Fs)
    requires Consistent(fs)
    ensures forall k :: k in GraphOf(fs).nodes <==> exists n :: PathForNode(fs, n) == Some(k)
    ensures forall n, k | PathForNode(fs, n) == Some(k) ::
              k in GraphOf(fs).nodes && forall t :: DatumOf(fs, n, t) == Lookup(GraphOf(fs).nodes[k], t)
    ensures forall from, tag, to :: (from, tag, to) in GraphOf(fs).edges <==> exists e :: IsEdge(fs, e, from, tag, to)
  {
    hide Readable;
    forall k | k in fs.dirs ensures exists n :: PathForNode(fs, n) == Some(k) { NodeOfKey(fs, k); }
    forall from, tag, to
      ensures (from, tag, to) in GraphOf(fs).edges <==> exists e :: IsEdge(fs, e, from, tag, to)
    {
      EdgesMean(fs, from, tag, to);
    }
  }

  function Lookup(data: map<Magic, string>, t: Magic): Option<string> {
    if t in data then Some(data[t]) else None
  }

  predicate IsEdge(fs: Fs, e: Id, from: Key, tag: Option<string>, to: Key) {
    && e in fs.edges && PathForNode(fs, EdgeSource(fs, e)) == Some(from)
    && PathForNode(fs, EdgeDestination(fs, e)) == Some(to) && EdgeLabel(fs, e) == tag
  }

  lemma {:induction false} EdgesMean(fs: Fs, from: Key, tag: Option<string>, to: Key)
    requires Consistent(fs)
    ensures (from, tag, to) in GraphOf(fs).edges <==> exists e :: IsEdge(fs, e, from, tag, to)
  {
    hide Readable, ReadLabel;
    forall e | e in fs.edges
      ensures fs.edges[e].src.Some? && fs.edges[e].dest.Some?
      ensures IsEdge(fs, e, from, tag, to) <==> TripleOf(fs.edges[e]) == (from, tag, to)
    {
      assert EdgeOk(fs, e);
      NodeOfKey(fs, fs.edges[e].src.value);
      NodeOfKey(fs, fs.edges[e].dest.value);
    }
  }

  // ----- what a document means

  /** The bytes a measurement element stores: its text and the terminator. */
  function Payload(m: Meas): string
    requires m.text.Some?
  {
    m.text.value + "\0"
  }

  /** A measurement element that parses; any other is dropped. */
  predicate Accepted(m: Meas) {
    m.text.Some? && m.size == |m.text.value| + 1 && m.size <= SSIZE_MAX && m.magic <= MAGIC_MAX
  }

  function WithMeas(data: map<Magic, string>, m: Meas): map<Magic, string> {
    if !Accepted(m) then data
    else
      var before := if m.magic in data then data[m.magic] else "";
      data[m.magic := Overwrite(before, Payload(m), |Payload(m)|)]
  }

  function FoldMeas(data: map<Magic, string>, meas: seq<Meas>): map<Magic, string> {
    if meas == [] then data else WithMeas(FoldMeas(data, meas[..|meas| - 1]), meas[|meas| - 1])
  }

  predicate Of(m: Meas, t: Magic) {
    Accepted(m) && m.magic == t
  }

  /** Writing over in place never makes a datum shorter, and it starts with the last element. */
  lemma {:induction false} FoldKeeps(data: map<Magic, string>, meas: seq<Meas>, t: Magic)
    ensures t in FoldMeas(data, meas) <==> t in data || exists j | 0 <= j < |meas| :: Of(meas[j], t)
    ensures t in data ==> |data[t]| <= |FoldMeas(data, meas)[t]|
    ensures forall j | 0 <= j < |meas| && Of(meas[j], t) :: |Payload(meas[j])| <= |FoldMeas(data, meas)[t]|
    ensures t in FoldMeas(data, meas) ==>
              || (t in data && |FoldMeas(data, meas)[t]| == |data[t]|)
              || exists j | 0 <= j < |meas| :: Of(meas[j], t) && |FoldMeas(data, meas)[t]| == |Payload(meas[j])|
  {
    if meas != [] {
      var n := |meas| - 1;
      FoldKeeps(data, meas[..n], t);
    }
  }

  /** The last element of a type is what is stored if and only if no datum of that type before it,
      in the node or in an earlier element, was longer. */
  lemma {:induction false} LastWins(data: map<Magic, string>, meas: seq<Meas>, i: nat)
    requires i < |meas| && Accepted(meas[i]) && forall j | i < j < |meas| :: !Of(meas[j], meas[i].magic)
    ensures var t, last := meas[i].magic, Payload(meas[i]);
            && t in FoldMeas(data, meas)
            && (FoldMeas(data, meas)[t] == last
                <==> && (t in data ==> |data[t]| <= |last|)
                     && forall j | 0 <= j < i && Of(meas[j], t) :: |Payload(meas[j])| <= |last|)
  {
    var n := |meas| - 1;
    if i < n {
      LastWins(data, meas[..n], i);
    } else {
      FoldKeeps(data, meas[..n], meas[i].magic);
    }
  }

  /** A shorter element after a longer one of its type leaves the tail of the longer one. */
  lemma {:induction false} TailSurvives()
    ensures FoldMeas(map[], [Meas(4, Some("abc"), 7), Meas(2, Some("z"), 7)]) == map[7 := "z\0c\0"]
  {
    var m1, m2 := Meas(4, Some("abc"), 7), Meas(2, Some("z"), 7);
    assert [m1, m2][..1] == [m1] && [m1][..0] == [];
    assert Payload(m1) == "abc\0" && Payload(m2) == "z\0";
    assert Overwrite("", "abc\0", 4) == "abc\0";
    assert WithMeas(map[], m1) == map[7 := "abc\0"];
    assert "z\0"[..2] + "abc\0"[2..] == "z\0c\0";
  }

  /** Which measurement elements are stored, and as what: those whose text is there and has as many
      characters as the advertised size leaves beside the terminator. */
  lemma {:induction false} MeasStored(size: nat, text: Option<string>, magic: Magic)
    ensures FoldMeas(map[], [Meas(size, text, magic)])
         == if && text.Some? && size == |text.value| + 1
               && size < 0x8000_0000_0000_0000 && magic < 0xffff_ffff
            then map[magic := text.value + "\0"] else map[]
  {
    var m := Meas(size, text, magic);
    assert [m][..0] == [];
    if Accepted(m) { assert Overwrite("", Payload(m), |Payload(m)|) == Payload(m); }
  }

  /** The slots of the parser's id map that were written, the graph so far, and the map's
      capacity. */
  datatype Parsed = Parsed(ids: map<Id, Key>, graph: Graph, capacity: nat)

  /** The capacity of the id map after room was made for `id`. */
  function Capacity(capacity: nat, id: nat): (c: nat)
    ensures capacity <= c
    ensures 64 <= capacity <= NODE_ID_MAX && id < NODE_ID_MAX ==> id < c <= NODE_ID_MAX
  {
    if id < capacity then capacity else if id >= NODE_ID_MAX / 2 then id + 1 else 2 * id
  }

  /** `Unwritten`: an edge refers to a slot inside the map that no node element wrote, so what the
      parser reads there is undetermined; one past the map is refused. */
  datatype Outcome = Ok(p: Parsed) | Rejected | Unwritten

  function KeyOfElem(reg: Registry, e: Elem): Option<Key>
    requires e.Node?
  {
    if e.space !in reg.spaces || e.typ !in reg.types || reg.types[e.typ] != e.typName then None
    else match reg.codec(e.space, e.addr)
         case Printed(text) => Some(KeyOf(e.typ, e.space, text))
         case _ => None
  }

  function ElemMeaning(reg: Registry, p: Parsed, e: Elem): Outcome {
    match e
    case Node(idText, _, _, _, _, meas) =>
      var id := IdOfStr(idText);
      var key := KeyOfElem(reg, e);
      if id == INVALID_ID || key.None? || id >= NODE_ID_MAX then Rejected
      else
        var data := if key.value in p.graph.nodes then p.graph.nodes[key.value] else map[];
        Ok(Parsed(p.ids[id := key.value], p.graph.(nodes := p.graph.nodes[key.value := FoldMeas(data, meas)]),
                  Capacity(p.capacity, id)))
    case Edge(tag, source, target) =>
      var s, t := IdOfStr(source), IdOfStr(target);
      if s == INVALID_ID || s >= p.capacity then Rejected
      else if s !in p.ids then Unwritten
      else if t == INVALID_ID || t >= p.capacity then Rejected
      else if t !in p.ids then Unwritten
      else Ok(p.(graph := p.graph.(edges := p.graph.edges + {(p.ids[s], ReadLabel(tag), p.ids[t])})))
    case Skipped => Ok(p)
    case Malformed => Rejected
  }

  const NOTHING: Parsed := Parsed(map[], Graph(map[], {}), 64)

  function Meaning(reg: Registry, doc: seq<Elem>): Outcome {
    if doc == [] then Ok(NOTHING)
    else match Meaning(reg, doc[..|doc| - 1])
         case Ok(p) => ElemMeaning(reg, p, doc[|doc| - 1])
         case other => other
  }

  // ----- what the serializer writes

  /** The text an XML attribute gets from stored bytes: up to the first terminator. */
  function CText(d: string): string {
    if d == "" || d[0] == '\0' then "" else [d[0]] + CText(d[1..])
  }

  function AsciiText(s: string): Option<string> {
    if IsAscii(s) then Some(s) else None
  }

  function MeasOf(types: seq<Magic>, data: map<Magic, string>): seq<Meas>
    requires forall t <- types :: t in data
  {
    seq(|types|, i requires 0 <= i < |types| => Meas(|data[types[i]]|, AsciiText(CText(data[types[i]])), types[i]))
  }

  function NodeElem(reg: Registry, i: nat, key: Key, types: seq<Magic>, data: map<Magic, string>): Elem
    requires key.typ in reg.types && forall t <- types :: t in data
  {
    Node(HexDigits(i, ID_LEN), key.typ, reg.types[key.typ], key.space, Unpathify(key.addr), MeasOf(types, data))
  }

  /** Stored bytes that survive as an attribute: ASCII text with its terminator and no other. */
  predicate Storable(d: string) {
    0 < |d| <= SSIZE_MAX && d[|d| - 1] == '\0' && '\0' !in d[..|d| - 1] && IsAscii(d)
  }

  /** All types are registered, address codecs are inverse on the stored addresses, and the data
      can be written as text. */
  ghost predicate Serializable(reg: Registry, fs: Fs) {
    forall k | k in fs.dirs ::
      && k.typ in reg.types && k.space in reg.spaces && SlashFree(k.addr)
      && reg.codec(k.space, Unpathify(k.addr)) == Printed(Unpathify(k.addr))
      && forall t | t in fs.dirs[k].data :: t in reg.datas && t <= MAGIC_MAX && Storable(fs.dirs[k].data[t])
  }

  /** How the serializer visited the store: nodes and edges in the order of their directories, and
      for each node its data types in theirs. */
  datatype Visit = Visit(nodes: seq<Id>, types: seq<seq<Magic>>, edges: seq<Id>)

  /** The element of the `i`-th visited node, `n`. */
  predicate NodeVisited(reg: Registry, fs: Fs, i: nat, n: Id, types: seq<Magic>, elem: Elem) {
    && n in fs.byId && fs.byId[n] in fs.dirs
    && var key := fs.byId[n]; var data := fs.dirs[key].data;
    && key.typ in reg.types && Lists(types, data.Keys) && (forall t <- types :: t in data)
    && elem == NodeElem(reg, i, key, types, data)
  }

  predicate EdgeVisited(fs: Fs, nodes: seq<Id>, e: Id, elem: Elem) {
    exists s, t | 0 <= s < |nodes| && 0 <= t < |nodes| ::
      && nodes[s] == EdgeSource(fs, e) && nodes[t] == EdgeDestination(fs, e)
      && elem == Edge(EdgeLabel(fs, e), HexDigits(s, ID_LEN), HexDigits(t, ID_LEN))
  }

  /** `doc` is the serialization of `fs` for the given directory orders: nodes are renumbered from
      zero in visiting order and edges refer to the new numbers. */
  predicate Serializes(reg: Registry, fs: Fs, v: Visit, doc: seq<Elem>) {
    && Lists(v.nodes, fs.byId.Keys) && Lists(v.edges, fs.edges.Keys)
    && |v.types| == |v.nodes| && |doc| == |v.nodes| + |v.edges|
    && (forall i {:trigger NodeVisited(reg, fs, i, v.nodes[i], v.types[i], doc[i])} | 0 <= i < |v.nodes| ::
          NodeVisited(reg, fs, i, v.nodes[i], v.types[i], doc[i]))
    && (forall j {:trigger EdgeVisited(fs, v.nodes, v.edges[j], doc[|v.nodes| + j])} | 0 <= j < |v.edges| ::
          EdgeVisited(fs, v.nodes, v.edges[j], doc[|v.nodes| + j]))
  }

  // ----- a serialization means the graph it was made from

  lemma {:induction false} CTextStorable(d: string)
    requires Storable(d)
    ensures CText(d) == d[..|d| - 1] && IsAscii(CText(d))
  {
    if |d| > 1 {
      var rest := d[1..];
      assert d[0] == d[..|d| - 1][0];
      assert rest[..|rest| - 1] == d[..|d| - 1][1..];
      CTextStorable(rest);
      assert d[..|d| - 1] == [d[0]] + rest[..|rest| - 1];
    }
  }

  lemma {:induction false} MeasSurvives(data: map<Magic, string>, d: string, t: Magic)
    requires Storable(d) && t <= MAGIC_MAX && t !in data
    ensures WithMeas(data, Meas(|d|, AsciiText(CText(d)), t)) == data[t := d]
  {
    CTextStorable(d);
    var m := Meas(|d|, AsciiText(CText(d)), t);
    assert Payload(m) == d;
    assert Overwrite("", d, |d|) == d;
  }

  lemma {:induction false} CTextIs(d: string)
    ensures CText(d) <= d && '\0' !in CText(d) && (|CText(d)| < |d| ==> d[|CText(d)|] == '\0')
  {
    if d != "" && d[0] != '\0' { CTextIs(d[1..]); }
  }

  /** A datum survives being written as text and read back exactly when it is storable: it is not empty,
      it ends with its only terminator, and it is ASCII. */
  lemma {:induction false} DatumSurvives(d: string, t: Magic)
    requires t <= MAGIC_MAX
    ensures WithMeas(map[], Meas(|d|, AsciiText(CText(d)), t)) == if Storable(d) then map[t := d] else map[]
  {
    StorableWhen(d);
    if Storable(d) { MeasSurvives(map[], d, t); }
  }

  lemma {:induction false} StorableWhen(d: string)
    ensures Storable(d) <==> |d| == |CText(d)| + 1 && IsAscii(CText(d)) && |d| <= SSIZE_MAX
  {
    CTextIs(d);
    if Storable(d) {
      CTextStorable(d);
    } else if |d| == |CText(d)| + 1 {
      assert d[..|d| - 1] == CText(d);
      assert forall i | 0 <= i < |d| - 1 :: d[i] == CText(d)[i];
    }
  }

  function Restrict(data: map<Magic, string>, types: seq<Magic>): map<Magic, string> {
    map t | t in types && t in data :: data[t]
  }

  lemma {:induction false} MeasPrefix(types: seq<Magic>, data: map<Magic, string>)
    requires forall t <- types :: t in data && t <= MAGIC_MAX && Storable(data[t])
    requires forall a, b | 0 <= a < b < |types| :: types[a] != types[b]
    ensures FoldMeas(map[], MeasOf(types, data)) == Restrict(data, types)
  {
    hide WithMeas, Storable, CText, AsciiText;
    if types != [] {
      var ms, rest, t := MeasOf(types, data), types[..|types| - 1], types[|types| - 1];
      assert t in types && t !in rest;
      MeasPrefix(rest, data);
      assert ms[..|ms| - 1] == MeasOf(rest, data);
      MeasSurvives(Restrict(data, rest), data[t], t);
      assert types == rest + [t];
      assert Restrict(data, types) == Restrict(data, rest)[t := data[t]];
    }
  }

  /** The measurement elements of a node rebuild its data, in whatever order they come. */
  lemma {:induction false} MeasRebuild(types: seq<Magic>, data: map<Magic, string>)
    requires Lists(types, data.Keys) && (forall t <- types :: t in data)
    requires forall t | t in data :: t <= MAGIC_MAX && Storable(data[t])
    ensures FoldMeas(map[], MeasOf(types, data)) == data
  {
    ListsMembers(types, data.Keys);
    MeasPrefix(types, data);
  }

  /** The written slots, nodes and edges after some elements of a serialization. */
  function SlotsRead(fs: Fs, v: Visit, i: nat): map<Id, Key> {
    map j: Id | 0 <= j < i && j < |v.nodes| && v.nodes[j] in fs.byId :: fs.byId[v.nodes[j]]
  }

  /** The capacity after `i` nodes numbered from zero. */
  function CapacityRead(i: nat): nat {
    if i == 0 then 64 else Capacity(CapacityRead(i - 1), i - 1)
  }

  lemma {:induction false} CapacityCovers(i: nat)
    requires i <= INT_MAX
    ensures 64 <= CapacityRead(i) <= NODE_ID_MAX && i <= CapacityRead(i)
  {
    if i > 0 { CapacityCovers(i - 1); }
  }

  function NodesRead(fs: Fs, names: seq<Id>): map<Key, map<Magic, string>> {
    map k | k in fs.dirs && fs.dirs[k].id.Some? && fs.dirs[k].id.value in names :: fs.dirs[k].data
  }

  function EdgesRead(fs: Fs, es: seq<Id>): set<Triple> {
    set e | e in es && e in fs.edges && fs.edges[e].src.Some? && fs.edges[e].dest.Some? :: TripleOf(fs.edges[e])
  }

  lemma {:induction false} ReadHex(i: nat)
    requires i < NODE_ID_MAX
    ensures var id := IdOfStr(HexDigits(i, ID_LEN)); id == i && id != INVALID_ID && id < NODE_ID_MAX
  {
    IdRoundTrip(i);
  }

  lemma {:induction false} NodesReadNext(fs: Fs, names: seq<Id>, n: Id)
    requires NodesLinked(fs) && n in fs.byId && n !in names && fs.byId[n] in fs.dirs
    ensures var key := fs.byId[n];
            key !in NodesRead(fs, names) && NodesRead(fs, names + [n]) == NodesRead(fs, names)[key := fs.dirs[key].data]
  {
    var key := fs.byId[n];
    assert LinkOk(fs, n);
    forall k | k in fs.dirs && fs.dirs[k].id == Some(n) ensures k == key { assert DirOk(fs, k); }
  }

  lemma {:induction false} KeySurvives(reg: Registry, fs: Fs, key: Key, i: nat, types: seq<Magic>)
    requires Serializable(reg, fs) && key in fs.dirs && i <= INT_MAX
    requires Lists(types, fs.dirs[key].data.Keys) && forall t <- types :: t in fs.dirs[key].data
    ensures var elem := NodeElem(reg, i, key, types, fs.dirs[key].data);
            && KeyOfElem(reg, elem) == Some(key) && IdOfStr(elem.id) == i && i < NODE_ID_MAX
            && FoldMeas(map[], elem.meas) == fs.dirs[key].data
  {
    hide IdOfStr, HexDigits, MeasOf, FoldMeas, Storable, IsAscii;
    ReadHex(i);
    UnpathifyInverse(key.addr);
    MeasRebuild(types, fs.dirs[key].data);
  }

  lemma {:induction false} NodeElemRead(reg: Registry, fs: Fs, v: Visit, doc: seq<Elem>, i: nat, edges: set<Triple>)
    requires Consistent(fs) && Serializable(reg, fs) && Serializes(reg, fs, v, doc)
    requires i < |v.nodes| && i <= INT_MAX
    ensures ElemMeaning(reg, Parsed(SlotsRead(fs, v, i), Graph(NodesRead(fs, v.nodes[..i]), edges),
              CapacityRead(i)), doc[i])
            == Ok(Parsed(SlotsRead(fs, v, i + 1), Graph(NodesRead(fs, v.nodes[..i + 1]), edges), CapacityRead(i + 1)))
  {
    hide Readable, IdOfStr, HexDigits, MeasOf, FoldMeas, EdgeVisited, EdgesLinked, NodesLinked, KeyOfElem, NodesRead,
         Serializable;
    assert NodeVisited(reg, fs, i, v.nodes[i], v.types[i], doc[i]);
    var n := v.nodes[i];
    var key := fs.byId[n];
    KeySurvives(reg, fs, key, i, v.types[i]);
    assert v.nodes[..i + 1] == v.nodes[..i] + [n] && n !in v.nodes[..i];
    NodesReadNext(fs, v.nodes[..i], n);
    assert SlotsRead(fs, v, i + 1) == SlotsRead(fs, v, i)[i := key];
  }

  lemma {:induction false} EdgeElemRead(reg: Registry, fs: Fs, v: Visit, doc: seq<Elem>, j: nat, nodes: map<Key,
                                        map<Magic, string>>)
    requires Consistent(fs) && Serializes(reg, fs, v, doc) && |doc| <= INT_MAX && j < |v.edges|
    ensures var n := |v.nodes|;
            ElemMeaning(reg, Parsed(SlotsRead(fs, v, n), Graph(nodes, EdgesRead(fs, v.edges[..j])),
                  CapacityRead(n)), doc[n + j])
            == Ok(Parsed(SlotsRead(fs, v, n), Graph(nodes, EdgesRead(fs, v.edges[..j + 1])), CapacityRead(n)))
  {
    hide CapacityRead, Capacity, Consistent, IdOfStr, HexDigits, NodeVisited, IsAscii, EdgeSource, EdgeDestination,
         EdgeLabel, EdgesRead;
    assert EdgeVisited(fs, v.nodes, v.edges[j], doc[|v.nodes| + j]);
    var e := v.edges[j];
    ListsMembers(v.edges, fs.edges.Keys);
    var s, t :| 0 <= s < |v.nodes| && 0 <= t < |v.nodes|
                && v.nodes[s] == EdgeSource(fs, e) && v.nodes[t] == EdgeDestination(fs, e)
                && doc[|v.nodes| + j] == Edge(EdgeLabel(fs, e), HexDigits(s, ID_LEN), HexDigits(t, ID_LEN));
    ReadHex(s);
    ReadHex(t);
    CapacityCovers(|v.nodes|);
    EndsOfEdge(fs, e);
    assert v.edges[..j + 1] == v.edges[..j] + [e];
    EdgesReadNext(fs, v.edges[..j], e);
  }

  lemma {:induction false} EdgesReadNext(fs: Fs, es: seq<Id>, e: Id)
    requires e in fs.edges && fs.edges[e].src.Some? && fs.edges[e].dest.Some?
    ensures EdgesRead(fs, es + [e]) == EdgesRead(fs, es) + {TripleOf(fs.edges[e])}
  {
  }

  lemma {:induction false} EndsOfEdge(fs: Fs, e: Id)
    requires Consistent(fs) && e in fs.edges
    ensures var s, t := EdgeSource(fs, e), EdgeDestination(fs, e);
            && s in fs.byId && Some(fs.byId[s]) == fs.edges[e].src
            && t in fs.byId && Some(fs.byId[t]) == fs.edges[e].dest
    ensures EdgeLabel(fs, e) == ReadLabel(fs.edges[e].tag)
  {
    hide Readable;
    assert EdgeOk(fs, e);
    NodeOfKey(fs, fs.edges[e].src.value);
    NodeOfKey(fs, fs.edges[e].dest.value);
  }

  lemma {:induction false} PrefixRead(reg: Registry, fs: Fs, v: Visit, doc: seq<Elem>, i: nat)
    requires Consistent(fs) && Serializable(reg, fs) && Serializes(reg, fs, v, doc)
    requires |doc| <= INT_MAX && i <= |doc|
    ensures var n := if i < |v.nodes| then i else |v.nodes|;
            Meaning(reg, doc[..i])
            == Ok(Parsed(SlotsRead(fs, v, n), Graph(NodesRead(fs, v.nodes[..n]), EdgesRead(fs, v.edges[..i - n])),
                  CapacityRead(n)))
    decreases i
  {
    hide Consistent, Serializable, ElemMeaning;
    if i == 0 {
      assert SlotsRead(fs, v, 0) == map[] && NodesRead(fs, v.nodes[..0]) == map[] && EdgesRead(fs, v.edges[..0]) == {};
    } else {
      PrefixRead(reg, fs, v, doc, i - 1);
      assert doc[..i][..i - 1] == doc[..i - 1] && doc[..i][i - 1] == doc[i - 1];
      if i <= |v.nodes| {
        NodeElemRead(reg, fs, v, doc, i - 1, EdgesRead(fs, v.edges[..0]));
      } else {
        EdgeElemRead(reg, fs, v, doc, i - 1 - |v.nodes|, NodesRead(fs, v.nodes[..|v.nodes|]));
      }
    }
  }

  /** For every order in which the directories are listed, a serialized document means the graph
      it was made from: the same nodes with the same data and the same labelled edges.  Every slot
      that an edge refers to was written by an earlier node element. */
  lemma {:induction false} SerializedMeaning(reg: Registry, fs: Fs, v: Visit, doc: seq<Elem>)
    requires Consistent(fs) && Serializable(reg, fs) && Serializes(reg, fs, v, doc) && |doc| <= INT_MAX
    ensures var m := Meaning(reg, doc); m.Ok? && m.p.graph == GraphOf(fs)
  {
    hide Consistent, ElemMeaning, Meaning, Serializable, NodeVisited, EdgeVisited, NodesRead, EdgesRead, GraphOf;
    PrefixRead(reg, fs, v, doc, |doc|);
    assert doc[..|doc|] == doc && v.nodes[..|v.nodes|] == v.nodes && v.edges[..|v.edges|] == v.edges;
    AllRead(fs, v.nodes, v.edges);
  }

  lemma {:induction false} AllRead(fs: Fs, nodes: seq<Id>, edges: seq<Id>)
    requires Consistent(fs) && Lists(nodes, fs.byId.Keys) && Lists(edges, fs.edges.Keys)
    ensures GraphOf(fs) == Graph(NodesRead(fs, nodes), EdgesRead(fs, edges))
  {
    hide Readable;
    ListsMembers(nodes, fs.byId.Keys);
    ListsMembers(edges, fs.edges.Keys);
    forall k | k in fs.dirs ensures fs.dirs[k].id.Some? && fs.dirs[k].id.value in nodes { assert DirOk(fs, k); }
    assert NodesRead(fs, nodes) == GraphOf(fs).nodes;
    assert EdgesRead(fs, edges) == GraphOf(fs).edges;
  }
}
