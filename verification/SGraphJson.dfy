/** The evidence graph as JSON (lib/sgraph/json.c), on JSON value trees.  Base64 and the text of a
    value that is not a string are parameters. */
module SGraphJson {
  import opened Bytes
  import opened Options
  import opened SGraph

  datatype Json =
    | Null
    | Scalar(text: string)
    | Str(s: string)
    | Arr(items: seq<Json>)
    | Obj(fields: seq<(string, Json)>)

  datatype Kind = AString | AnArray | AnObject

  datatype Codec = Codec(enc: seq<byte> -> string, dec: string -> seq<byte>, render: Json -> string)

  ghost predicate Inverse(c: Codec) {
    forall b :: c.dec(c.enc(b)) == b
  }

  /** What a graph holds, without the addresses of its structures. */
  datatype Content = Content(nodes: seq<Node>, edges: seq<Edge>, labels: seq<string>)

  function ContentOf(g: Graph): Content {
    Content(Values(g.nodes), Values(g.edges), g.labels)
  }

  // ----- lists

  function Map<S, T>(xs: seq<S>, e: S -> T): (r: seq<T>)
    ensures |r| == |xs| && forall i | 0 <= i < |xs| :: r[i] == e(xs[i])
  {
    seq(|xs|, i requires 0 <= i < |xs| => e(xs[i]))
  }

  /** Converts each element and drops those that do not convert. */
  function Collect<S, T>(xs: seq<S>, f: S -> Option<T>): seq<T> {
    if xs == [] then []
    else
      var last := f(xs[|xs| - 1]);
      Collect(xs[..|xs| - 1], f) + if last.Some? then [last.value] else []
  }

  /** The loops that fill a JSON array. */
  method AppendAll<S>(xs: seq<S>, e: S -> Json) returns (items: seq<Json>)
    ensures items == Map(xs, e)
  {
    items := [];
    for i := 0 to |xs|
      invariant items == Map(xs[..i], e)
    {
      items := items + [e(xs[i])];
    }
    assert xs[..|xs|] == xs;
  }

  /** The loops that read a JSON array. */
  method ArrayToList<T>(items: seq<Json>, f: Json -> Option<T>) returns (list: seq<T>)
    ensures list == Collect(items, f)
  {
    list := [];
    assert items[..0] == [];
    for i := 0 to |items|
      invariant list == Collect(items[..i], f)
    {
      assert items[..i + 1][..i] == items[..i];
      var x := f(items[i]);
      if x.Some? {
        list := list + [x.value];
      }
    }
    assert items[..|items|] == items;
  }

  lemma {:induction false} CollectNone<S, T>(f: S -> Option<T>)
    ensures Collect([], f) == []
  {}

  lemma {:induction false} CollectSnoc<S, T>(xs: seq<S>, x: S, f: S -> Option<T>)
    ensures Collect(xs + [x], f) == Collect(xs, f) + Collect([x], f)
    ensures Collect([x], f) == if f(x).Some? then [f(x).value] else []
  {
    assert (xs + [x])[..|xs|] == xs && [x][..0] == [];
  }

  /** Each element is converted by itself, in order, whatever became of the others. */
  lemma {:induction false} CollectConcat<S, T>(xs: seq<S>, ys: seq<S>, f: S -> Option<T>)
    ensures Collect(xs + ys, f) == Collect(xs, f) + Collect(ys, f)
    decreases |ys|
  {
    if ys == [] {
      assert xs + ys == xs;
    } else {
      hide Collect;
      var front, last := ys[..|ys| - 1], ys[|ys| - 1];
      assert xs + ys == (xs + front) + [last] && ys == front + [last];
      CollectSnoc(xs + front, last, f);
      CollectSnoc(front, last, f);
      CollectConcat(xs, front, f);
    }
  }

  lemma {:induction false} CollectMap<S, T>(xs: seq<S>, e: S -> Json, f: Json -> Option<T>, h: S -> Option<T>)
    requires forall i | 0 <= i < |xs| :: f(e(xs[i])) == h(xs[i])
    ensures Collect(Map(xs, e), f) == Collect(xs, h)
  {
    if xs != [] {
      var n := |xs| - 1;
      assert Map(xs, e)[..n] == Map(xs[..n], e);
      CollectMap(xs[..n], e, f, h);
    }
  }

  lemma {:induction false} CollectAll<S, T>(xs: seq<S>, h: S -> Option<T>, ys: seq<T>)
    requires |ys| == |xs| && forall i | 0 <= i < |xs| :: h(xs[i]) == Some(ys[i])
    ensures Collect(xs, h) == ys
  {
    if xs != [] {
      var n := |xs| - 1;
      CollectAll(xs[..n], h, ys[..n]);
      assert ys == ys[..n] + [ys[n]];
    }
  }

  lemma {:induction false} CollectLength<S, T>(xs: seq<S>, h: S -> Option<T>)
    ensures |Collect(xs, h)| <= |xs|
    ensures |Collect(xs, h)| == |xs| ==> forall i | 0 <= i < |xs| :: h(xs[i]).Some?
  {
    if xs != [] {
      CollectLength(xs[..|xs| - 1], h);
    }
  }

  /** Collecting keeps a list as it is exactly when nothing is dropped. */
  lemma {:induction false} CollectSame<T>(xs: seq<T>, h: T -> Option<T>)
    requires forall i | 0 <= i < |xs| :: h(xs[i]) == None || h(xs[i]) == Some(xs[i])
    ensures Collect(xs, h) == xs <==> forall i | 0 <= i < |xs| :: h(xs[i]).Some?
  {
    hide Collect;
    CollectLength(xs, h);
    if forall i | 0 <= i < |xs| :: h(xs[i]).Some? {
      CollectAll(xs, h, xs);
    }
  }

  // ----- writing

  function AddressToJson(a: Address): Json {
    Obj([("space", Str(a.space)), ("addr", Str(a.addr))])
  }

  function DataToJson(c: Codec): Blob -> Json {
    (d: Blob) => Obj([("tag", Str(d.tag)), ("blob", Str(c.enc(d.bytes)))])
  }

  function LabelToJson(): string -> Json {
    (l: string) => Str(l)
  }

  function NodeToJson(c: Codec): Node -> Json {
    (n: Node) => Obj([("address", AddressToJson(n.a)), ("data", Arr(Map(n.data, DataToJson(c)))),
                      ("labels", Arr(Map(n.labels, LabelToJson())))])
  }

  function EdgeToJson(): Edge -> Json {
    (e: Edge) => Obj([("source", AddressToJson(e.source)), ("dest", AddressToJson(e.dest)),
                      ("labels", Arr(Map(e.labels, LabelToJson())))])
  }

  function GraphToJson(g: Content, version: string, c: Codec): Json {
    Obj([("nodes", Arr(Map(g.nodes, NodeToJson(c)))), ("edges", Arr(Map(g.edges, EdgeToJson()))),
         ("labels", Arr(Map(g.labels, LabelToJson()))), ("version", Str(version))])
  }

  /** graph_to_json */
  method WriteGraph(g: Graph, version: string, c: Codec) returns (j: Json)
    ensures j == GraphToJson(ContentOf(g), version, c)
  {
    var nodes := AppendAll(Values(g.nodes), NodeToJson(c));
    var edges := AppendAll(Values(g.edges), EdgeToJson());
    var labels := AppendAll(g.labels, LabelToJson());
    j := Obj([("nodes", Arr(nodes)), ("edges", Arr(edges)), ("labels", Arr(labels)), ("version", Str(version))]);
  }

  // ----- reading

  predicate Is(j: Json, kind: Kind) {
    match kind
    case AString => j.Str?
    case AnArray => j.Arr?
    case AnObject => j.Obj?
  }

  /** The last field with that key and kind: what the loop over the fields is left with. */
  function LastOf(fields: seq<(string, Json)>, key: string, kind: Kind): (r: Option<Json>)
    ensures r.Some? ==> Is(r.value, kind)
  {
    if fields == [] then None
    else
      var (k, v) := fields[|fields| - 1];
      if k == key && Is(v, kind) then Some(v) else LastOf(fields[..|fields| - 1], key, kind)
  }

  lemma {:induction false} NoFields(fields: seq<(string, Json)>)
    requires fields == []
    ensures forall key, kind :: LastOf(fields, key, kind) == None
  {}

  lemma {:induction false} LastOfNext(fields: seq<(string, Json)>, i: nat, key: string, kind: Kind)
    requires i < |fields|
    ensures LastOf(fields[..i + 1], key, kind)
         == if fields[i].0 == key && Is(fields[i].1, kind) then Some(fields[i].1) else LastOf(fields[..i], key, kind)
  {
    assert fields[..i + 1][..i] == fields[..i];
  }

  function Fields(j: Json): seq<(string, Json)> {
    if j.Obj? then j.fields else []
  }

  function AddressOf(j: Json): Option<Address> {
    var space, addr := LastOf(Fields(j), "space", AString), LastOf(Fields(j), "addr", AString);
    if space.Some? && addr.Some? then Some(Address(space.value.s, addr.value.s)) else None
  }

  /** A blob that decodes to nothing is no datum. */
  function Datum(j: Json, c: Codec): Option<Blob> {
    var tag, blob := LastOf(Fields(j), "tag", AString), LastOf(Fields(j), "blob", AString);
    if tag.Some? && blob.Some? && c.dec(blob.value.s) != [] then Some(Blob(tag.value.s, c.dec(blob.value.s))) else None
  }

  function DataOf(c: Codec): Json -> Option<Blob> {
    (j: Json) => Datum(j, c)
  }

  /** json_object_get_string: other values give their text, null nothing. */
  function LabelOf(c: Codec): Json -> Option<string> {
    (j: Json) => match j
      case Null => None
      case Str(s) => Some(s)
      case _ => Some(c.render(j))
  }

  function ItemsOf(j: Option<Json>): seq<Json>
    requires j.Some? ==> j.value.Arr?
  {
    if j.Some? then j.value.items else []
  }

  function NodeOf(c: Codec): Json -> Option<Node> {
    (j: Json) =>
      var a := LastOf(Fields(j), "address", AnObject);
      if a.None? || AddressOf(a.value).None? then None
      else Some(Node(AddressOf(a.value).value, Collect(ItemsOf(LastOf(Fields(j), "data", AnArray)), DataOf(c)),
                     Collect(ItemsOf(LastOf(Fields(j), "labels", AnArray)), LabelOf(c))))
  }

  function EdgeOf(c: Codec): Json -> Option<Edge> {
    (j: Json) =>
      var src, dst := LastOf(Fields(j), "source", AnObject), LastOf(Fields(j), "dest", AnObject);
      if src.None? || dst.None? || AddressOf(src.value).None? || AddressOf(dst.value).None? then None
      else Some(Edge(AddressOf(src.value).value, AddressOf(dst.value).value,
                     Collect(ItemsOf(LastOf(Fields(j), "labels", AnArray)), LabelOf(c))))
  }

  function GraphOf(j: Json, c: Codec): Content {
    Content(Collect(ItemsOf(LastOf(Fields(j), "nodes", AnArray)), NodeOf(c)),
            Collect(ItemsOf(LastOf(Fields(j), "edges", AnArray)), EdgeOf(c)),
            Collect(ItemsOf(LastOf(Fields(j), "labels", AnArray)), LabelOf(c)))
  }

  /** Reading walks the fields of a value: a value that is neither null nor an object must not be
      where an object is read. */
  predicate Objects(items: seq<Json>) {
    forall i | 0 <= i < |items| :: items[i].Null? || items[i].Obj?
  }

  predicate NodeShaped(j: Json) {
    forall i | 0 <= i < |Fields(j)| && Fields(j)[i].0 == "data" && Fields(j)[i].1.Arr? :: Objects(Fields(j)[i].1.items)
  }

  predicate NodesShaped(items: seq<Json>) {
    Objects(items) && forall i | 0 <= i < |items| :: NodeShaped(items[i])
  }

  predicate FieldShaped(f: (string, Json)) {
    f.1.Arr? ==> (f.0 == "nodes" ==> NodesShaped(f.1.items)) && (f.0 == "edges" ==> Objects(f.1.items))
  }

  predicate Shaped(j: Json) {
    j.Obj? && forall i | 0 <= i < |j.fields| :: FieldShaped(j.fields[i])
  }

  /** json_to_address */
  method ReadAddress(j: Json) returns (r: Option<Address>)
    requires j.Obj?
    ensures r == AddressOf(j)
  {
    var space, addr: Option<string> := None, None;
    assert j.fields[..0] == [];
    for i := 0 to |j.fields|
      invariant space == TextOf(LastOf(j.fields[..i], "space", AString))
      invariant addr == TextOf(LastOf(j.fields[..i], "addr", AString))
    {
      assert j.fields[..i + 1][..i] == j.fields[..i];
      var (key, val) := j.fields[i];
      if val.Str? {
        if key == "space" {
          space := Some(val.s);
        }
        if key == "addr" {
          addr := Some(val.s);
        }
      }
    }
    assert j.fields[..|j.fields|] == j.fields;
    r := if space.None? || addr.None? then None else Some(Address(space.value, addr.value));
  }

  function TextOf(j: Option<Json>): Option<string>
    requires j.Some? ==> j.value.Str?
  {
    if j.Some? then Some(j.value.s) else None
  }

  /** json_to_data */
  method ReadData(j: Json, c: Codec) returns (r: Option<Blob>)
    requires j.Null? || j.Obj?
    ensures r == DataOf(c)(j)
  {
    if j.Null? {
      return None;
    }
    var tag, b64: Option<string> := None, None;
    assert j.fields[..0] == [];
    for i := 0 to |j.fields|
      invariant tag == TextOf(LastOf(j.fields[..i], "tag", AString))
      invariant b64 == TextOf(LastOf(j.fields[..i], "blob", AString))
    {
      assert j.fields[..i + 1][..i] == j.fields[..i];
      var (key, val) := j.fields[i];
      if val.Str? {
        if key == "tag" {
          tag := Some(val.s);
        }
        if key == "blob" {
          b64 := Some(val.s);
        }
      }
    }
    assert j.fields[..|j.fields|] == j.fields;
    if tag.None? || b64.None? {
      return None;
    }
    var blob := c.dec(b64.value);
    r := if blob == [] then None else Some(Blob(tag.value, blob));
  }

  function Then<T>(j: Option<Json>, f: Json -> Option<T>): Option<T> {
    if j.Some? then f(j.value) else None
  }

  /** json_to_node */
  method ReadNode(j: Json, c: Codec) returns (r: Option<Node>)
    requires (j.Null? || j.Obj?) && NodeShaped(j)
    ensures r == NodeOf(c)(j)
  {
    hide Collect, LabelOf, DataOf, AddressOf;
    if j.Null? {
      return None;
    }
    var a: Option<Address>, data: seq<Blob>, labels: seq<string> := None, [], [];
    assert j.fields[..0] == [];
    CollectNone(DataOf(c));
    CollectNone(LabelOf(c));
    for i := 0 to |j.fields|
      invariant a == Then(LastOf(j.fields[..i], "address", AnObject), AddressOf)
      invariant data == Collect(ItemsOf(LastOf(j.fields[..i], "data", AnArray)), DataOf(c))
      invariant labels == Collect(ItemsOf(LastOf(j.fields[..i], "labels", AnArray)), LabelOf(c))
    {
      assert j.fields[..i + 1][..i] == j.fields[..i];
      var (key, val) := j.fields[i];
      if val.Obj? && key == "address" {
        a := ReadAddress(val);
      }
      if val.Arr? {
        if key == "data" {
          data := ArrayToList(val.items, DataOf(c));
        }
        if key == "labels" {
          labels := ArrayToList(val.items, LabelOf(c));
        }
      }
    }
    assert j.fields[..|j.fields|] == j.fields;
    r := if a.None? then None else Some(Node(a.value, data, labels));
  }

  /** json_to_edge */
  method ReadEdge(j: Json, c: Codec) returns (r: Option<Edge>)
    requires j.Null? || j.Obj?
    ensures r == EdgeOf(c)(j)
  {
    hide Collect, LabelOf, DataOf, AddressOf;
    if j.Null? {
      return None;
    }
    var src, dst: Option<Address>, labels: seq<string> := None, None, [];
    assert j.fields[..0] == [];
    CollectNone(LabelOf(c));
    for i := 0 to |j.fields|
      invariant src == Then(LastOf(j.fields[..i], "source", AnObject), AddressOf)
      invariant dst == Then(LastOf(j.fields[..i], "dest", AnObject), AddressOf)
      invariant labels == Collect(ItemsOf(LastOf(j.fields[..i], "labels", AnArray)), LabelOf(c))
    {
      assert j.fields[..i + 1][..i] == j.fields[..i];
      var (key, val) := j.fields[i];
      if val.Obj? && key == "source" {
        src := ReadAddress(val);
      }
      if val.Obj? && key == "dest" {
        dst := ReadAddress(val);
      }
      if val.Arr? && key == "labels" {
        labels := ArrayToList(val.items, LabelOf(c));
      }
    }
    assert j.fields[..|j.fields|] == j.fields;
    r := if src.None? || dst.None? then None else Some(Edge(src.value, dst.value, labels));
  }

  /** Reading a document: no graph, one, or the fields of a value that has none. */
  datatype Reading = NoGraph | Undefined | Read(content: Content)

  /** json_to_graph: a null document gives no graph, and fields are looked for in whatever stands where
      an object should be. */
  method ReadGraph(j: Json, c: Codec) returns (r: Reading)
    ensures r == if j.Null? then NoGraph else if Shaped(j) then Read(GraphOf(j, c)) else Undefined
  {
    hide Collect, LabelOf, DataOf, AddressOf, NodeOf, EdgeOf, FieldShaped, LastOf;
    if j.Null? {
      return NoGraph;
    }
    if !j.Obj? {
      return Undefined;
    }
    var nodes: seq<Node>, edges: seq<Edge>, labels: seq<string> := [], [], [];
    assert forall key :: LastOf(j.fields[..0], key, AnArray) == None by {
      NoFields(j.fields[..0]);
    }
    CollectNone(NodeOf(c));
    CollectNone(EdgeOf(c));
    CollectNone(LabelOf(c));
    for i := 0 to |j.fields|
      invariant forall k | 0 <= k < i :: FieldShaped(j.fields[k])
      invariant nodes == Collect(ItemsOf(LastOf(j.fields[..i], "nodes", AnArray)), NodeOf(c))
      invariant edges == Collect(ItemsOf(LastOf(j.fields[..i], "edges", AnArray)), EdgeOf(c))
      invariant labels == Collect(ItemsOf(LastOf(j.fields[..i], "labels", AnArray)), LabelOf(c))
    {
      LastOfNext(j.fields, i, "nodes", AnArray);
      LastOfNext(j.fields, i, "edges", AnArray);
      LastOfNext(j.fields, i, "labels", AnArray);
      var (key, val) := j.fields[i];
      if !FieldShaped(j.fields[i]) {
        return Undefined;
      }
      if val.Arr? {
        if key == "nodes" {
          nodes := ArrayToList(val.items, NodeOf(c));
        }
        if key == "edges" {
          edges := ArrayToList(val.items, EdgeOf(c));
        }
        if key == "labels" {
          labels := ArrayToList(val.items, LabelOf(c));
        }
      }
    }
    assert j.fields[..|j.fields|] == j.fields;
    r := Read(Content(nodes, edges, labels));
  }

  // ----- what is read

  predicate Carries(field: (string, Json), key: string, kind: Kind) {
    field.0 == key && Is(field.1, kind)
  }

  /** The value is that of the last field with the key and of the kind. */
  ghost predicate IsLast(fields: seq<(string, Json)>, key: string, kind: Kind, v: Json) {
    exists i | 0 <= i < |fields| ::
      && Carries(fields[i], key, kind) && fields[i].1 == v
      && forall k | i < k < |fields| :: !Carries(fields[k], key, kind)
  }

  lemma {:induction false} LastOfMeans(fields: seq<(string, Json)>, key: string, kind: Kind, v: Json)
    ensures LastOf(fields, key, kind) == Some(v) <==> IsLast(fields, key, kind, v)
  {
    hide Is;
    if fields != [] {
      var n := |fields| - 1;
      if !Carries(fields[n], key, kind) {
        LastOfMeans(fields[..n], key, kind, v);
        assert forall k | 0 <= k < n :: fields[..n][k] == fields[k];
      }
    }
  }

  /** The items of the last array with the key, none when there is no such array. */
  ghost predicate IsList(fields: seq<(string, Json)>, key: string, items: seq<Json>) {
    || IsLast(fields, key, AnArray, Arr(items))
    || (items == [] && forall i | 0 <= i < |fields| :: !Carries(fields[i], key, AnArray))
  }

  lemma {:induction false} ItemsAreList(fields: seq<(string, Json)>, key: string)
    ensures IsList(fields, key, ItemsOf(LastOf(fields, key, AnArray)))
  {
    var last := LastOf(fields, key, AnArray);
    if last.Some? {
      LastOfMeans(fields, key, AnArray, last.value);
    } else {
      NoneLast(fields, key, AnArray);
    }
  }

  lemma {:induction false} NoneLast(fields: seq<(string, Json)>, key: string, kind: Kind)
    requires LastOf(fields, key, kind) == None
    ensures forall i | 0 <= i < |fields| :: !Carries(fields[i], key, kind)
  {
    if fields != [] { NoneLast(fields[..|fields| - 1], key, kind); }
  }

  /** An address is read from the last strings under "space" and "addr". */
  lemma {:induction false} AddressMeans(j: Json, a: Address)
    ensures AddressOf(j) == Some(a) <==>
            IsLast(Fields(j), "space", AString, Str(a.space)) && IsLast(Fields(j), "addr", AString, Str(a.addr))
  {
    hide LastOf, IsLast;
    LastOfMeans(Fields(j), "space", AString, Str(a.space));
    LastOfMeans(Fields(j), "addr", AString, Str(a.addr));
  }

  /** A datum from the last strings under "tag" and "blob", unless the blob decodes to nothing. */
  lemma {:induction false} DatumMeans(j: Json, c: Codec, d: Blob)
    ensures Datum(j, c) == Some(d) <==>
            && IsLast(Fields(j), "tag", AString, Str(d.tag)) && d.bytes != []
            && exists b :: c.dec(b) == d.bytes && IsLast(Fields(j), "blob", AString, Str(b))
  {
    hide LastOf, IsLast;
    LastOfMeans(Fields(j), "tag", AString, Str(d.tag));
    forall b: string ensures LastOf(Fields(j), "blob", AString) == Some(Str(b))
                        <==> IsLast(Fields(j), "blob", AString, Str(b))
    {
      LastOfMeans(Fields(j), "blob", AString, Str(b));
    }
    var blob := LastOf(Fields(j), "blob", AString);
    if Datum(j, c) == Some(d) { assert blob == Some(Str(blob.value.s)); }
  }

  /** A node from the last object under "address", which must be an address, and the last arrays under
      "data" and "labels". */
  lemma {:induction false} NodeMeans(j: Json, c: Codec, n: Node)
    requires NodeOf(c)(j) == Some(n)
    ensures exists a :: IsLast(Fields(j), "address", AnObject, a) && AddressOf(a) == Some(n.a)
    ensures exists data :: IsList(Fields(j), "data", data) && n.data == Collect(data, DataOf(c))
    ensures exists labels :: IsList(Fields(j), "labels", labels) && n.labels == Collect(labels, LabelOf(c))
  {
    hide LastOf, IsLast, IsList, Collect, AddressOf, DataOf, LabelOf;
    LastOfMeans(Fields(j), "address", AnObject, LastOf(Fields(j), "address", AnObject).value);
    ItemsAreList(Fields(j), "data");
    ItemsAreList(Fields(j), "labels");
  }

  lemma {:induction false} NoNodeMeans(j: Json, c: Codec)
    ensures NodeOf(c)(j) == None <==> forall a | IsLast(Fields(j), "address", AnObject, a) :: AddressOf(a) == None
  {
    hide LastOf, IsLast, Collect, AddressOf, DataOf, LabelOf;
    forall a ensures LastOf(Fields(j), "address", AnObject) == Some(a) <==> IsLast(Fields(j), "address", AnObject, a) {
      LastOfMeans(Fields(j), "address", AnObject, a);
    }
  }

  /** An edge from the last objects under "source" and "dest" and the last array under "labels". */
  lemma {:induction false} EdgeMeans(j: Json, c: Codec, e: Edge)
    requires EdgeOf(c)(j) == Some(e)
    ensures exists a :: IsLast(Fields(j), "source", AnObject, a) && AddressOf(a) == Some(e.source)
    ensures exists a :: IsLast(Fields(j), "dest", AnObject, a) && AddressOf(a) == Some(e.dest)
    ensures exists labels :: IsList(Fields(j), "labels", labels) && e.labels == Collect(labels, LabelOf(c))
  {
    hide LastOf, IsLast, IsList, Collect, AddressOf, LabelOf;
    LastOfMeans(Fields(j), "source", AnObject, LastOf(Fields(j), "source", AnObject).value);
    LastOfMeans(Fields(j), "dest", AnObject, LastOf(Fields(j), "dest", AnObject).value);
    ItemsAreList(Fields(j), "labels");
  }

  lemma {:induction false} NoEdgeMeans(j: Json, c: Codec)
    ensures EdgeOf(c)(j) == None <==>
            || (forall a | IsLast(Fields(j), "source", AnObject, a) :: AddressOf(a) == None)
            || (forall a | IsLast(Fields(j), "dest", AnObject, a) :: AddressOf(a) == None)
  {
    hide LastOf, IsLast, Collect, AddressOf, LabelOf;
    forall a ensures LastOf(Fields(j), "source", AnObject) == Some(a) <==> IsLast(Fields(j), "source", AnObject, a) {
      LastOfMeans(Fields(j), "source", AnObject, a);
    }
    forall a ensures LastOf(Fields(j), "dest", AnObject) == Some(a) <==> IsLast(Fields(j), "dest", AnObject, a) {
      LastOfMeans(Fields(j), "dest", AnObject, a);
    }
  }

  /** A label from any item but null. */
  lemma {:induction false} LabelMeans(j: Json, c: Codec, l: string)
    ensures LabelOf(c)(j) == Some(l) <==> j == Str(l) || (!j.Null? && !j.Str? && l == c.render(j))
    ensures LabelOf(c)(j) == None <==> j == Null
  {}

  /** And a graph from the last arrays under "nodes", "edges" and "labels". */
  lemma {:induction false} GraphMeans(j: Json, c: Codec)
    ensures exists nodes :: IsList(Fields(j), "nodes", nodes) && GraphOf(j, c).nodes == Collect(nodes, NodeOf(c))
    ensures exists edges :: IsList(Fields(j), "edges", edges) && GraphOf(j, c).edges == Collect(edges, EdgeOf(c))
    ensures exists labels :: IsList(Fields(j), "labels", labels) && GraphOf(j, c).labels == Collect(labels, LabelOf(c))
  {
    hide LastOf, IsLast, IsList, Collect, NodeOf, EdgeOf, LabelOf;
    ItemsAreList(Fields(j), "nodes");
    ItemsAreList(Fields(j), "edges");
    ItemsAreList(Fields(j), "labels");
  }

  // ----- round trip

  lemma {:induction false} LastAt(fields: seq<(string, Json)>, k: nat, key: string, kind: Kind)
    requires k < |fields| && fields[k].0 == key && Is(fields[k].1, kind)
    requires forall i | k < i < |fields| :: fields[i].0 != key
    ensures LastOf(fields, key, kind) == Some(fields[k].1)
  {
    var n := |fields| - 1;
    if k < n {
      LastAt(fields[..n], k, key, kind);
    }
  }

  lemma {:induction false} AddressTrip(a: Address)
    ensures AddressOf(AddressToJson(a)) == Some(a)
  {
    var fields := AddressToJson(a).fields;
    LastAt(fields, 0, "space", AString);
    LastAt(fields, 1, "addr", AString);
  }

  /** Empty data do not survive. */
  function Kept(): Blob -> Option<Blob> {
    (d: Blob) => if d.bytes == [] then None else Some(d)
  }

  function Stripped(n: Node): Node {
    n.(data := Collect(n.data, Kept()))
  }

  lemma {:induction false} DatumTrip(d: Blob, c: Codec)
    requires Inverse(c)
    ensures Datum(DataToJson(c)(d), c) == Kept()(d)
  {
    var fields := DataToJson(c)(d).fields;
    LastAt(fields, 0, "tag", AString);
    LastAt(fields, 1, "blob", AString);
  }

  lemma {:induction false} DataTrip(data: seq<Blob>, c: Codec)
    requires Inverse(c)
    ensures Collect(Map(data, DataToJson(c)), DataOf(c)) == Collect(data, Kept())
  {
    forall i | 0 <= i < |data| ensures DataOf(c)(DataToJson(c)(data[i])) == Kept()(data[i]) {
      DatumTrip(data[i], c);
    }
    CollectMap(data, DataToJson(c), DataOf(c), Kept());
  }

  lemma {:induction false} LabelsTrip(labels: seq<string>, c: Codec)
    ensures Collect(Map(labels, LabelToJson()), LabelOf(c)) == labels
  {
    CollectAll(Map(labels, LabelToJson()), LabelOf(c), labels);
  }

  lemma {:induction false} NodeTrip(n: Node, c: Codec)
    requires Inverse(c)
    ensures NodeOf(c)(NodeToJson(c)(n)) == Some(Stripped(n)) && NodeShaped(NodeToJson(c)(n))
  {
    hide Collect, DataOf, LabelOf, AddressOf, LabelToJson, Inverse, Map;
    var fields := NodeToJson(c)(n).fields;
    LastAt(fields, 0, "address", AnObject);
    LastAt(fields, 1, "data", AnArray);
    LastAt(fields, 2, "labels", AnArray);
    AddressTrip(n.a);
    DataTrip(n.data, c);
    LabelsTrip(n.labels, c);
  }

  lemma {:induction false} EdgeTrip(e: Edge, c: Codec)
    ensures EdgeOf(c)(EdgeToJson()(e)) == Some(e)
  {
    var fields := EdgeToJson()(e).fields;
    LastAt(fields, 0, "source", AnObject);
    LastAt(fields, 1, "dest", AnObject);
    LastAt(fields, 2, "labels", AnArray);
    AddressTrip(e.source);
    AddressTrip(e.dest);
    LabelsTrip(e.labels, c);
  }

  /** What is read back from any written graph: everything but its empty data. */
  lemma {:induction false} Trip(g: Content, version: string, c: Codec)
    requires Inverse(c)
    ensures var j := GraphToJson(g, version, c);
            Shaped(j) && GraphOf(j, c) == g.(nodes := Map(g.nodes, Stripped))
  {
    hide NodeOf, NodeToJson, EdgeOf, EdgeToJson, Collect, LabelOf, LabelToJson;
    var j := GraphToJson(g, version, c);
    LastAt(j.fields, 0, "nodes", AnArray);
    LastAt(j.fields, 1, "edges", AnArray);
    LastAt(j.fields, 2, "labels", AnArray);
    var nodes, edges := Map(g.nodes, NodeToJson(c)), Map(g.edges, EdgeToJson());
    NodesTrip(g.nodes, c);
    EdgesTrip(g.edges, c);
    LabelsTrip(g.labels, c);
    assert NodesShaped(nodes) && Objects(edges);
  }

  lemma {:induction false} NodesTrip(nodes: seq<Node>, c: Codec)
    requires Inverse(c)
    ensures var items := Map(nodes, NodeToJson(c));
            NodesShaped(items) && Collect(items, NodeOf(c)) == Map(nodes, Stripped)
  {
    forall i | 0 <= i < |nodes| ensures NodeOf(c)(NodeToJson(c)(nodes[i])) == Some(Stripped(nodes[i]))
      ensures NodeShaped(NodeToJson(c)(nodes[i]))
    {
      NodeTrip(nodes[i], c);
    }
    CollectAll(Map(nodes, NodeToJson(c)), NodeOf(c), Map(nodes, Stripped));
  }

  lemma {:induction false} EdgesTrip(edges: seq<Edge>, c: Codec)
    ensures var items := Map(edges, EdgeToJson());
            Objects(items) && Collect(items, EdgeOf(c)) == edges
  {
    forall i | 0 <= i < |edges| ensures EdgeOf(c)(EdgeToJson()(edges[i])) == Some(edges[i]) {
      EdgeTrip(edges[i], c);
    }
    CollectAll(Map(edges, EdgeToJson()), EdgeOf(c), edges);
  }

  predicate NoEmptyData(nodes: seq<Node>) {
    forall i | 0 <= i < |nodes| :: forall k | 0 <= k < |nodes[i].data| :: nodes[i].data[k].bytes != []
  }

  /** Encoding and decoding gives the same nodes, data, edges and labels in the same order exactly
      when no datum is empty, which the library's own operations never let happen. */
  lemma {:induction false} RoundTrip(g: Content, version: string, c: Codec)
    requires Inverse(c)
    ensures GraphOf(GraphToJson(g, version, c), c) == g <==> NoEmptyData(g.nodes)
  {
    hide GraphOf, GraphToJson;
    Trip(g, version, c);
    forall i | 0 <= i < |g.nodes|
      ensures Stripped(g.nodes[i]) == g.nodes[i]
              <==> forall k | 0 <= k < |g.nodes[i].data| :: g.nodes[i].data[k].bytes != []
    {
      CollectSame(g.nodes[i].data, Kept());
    }
    var back := Map(g.nodes, Stripped);
    assert back == g.nodes <==> forall i | 0 <= i < |g.nodes| :: back[i] == g.nodes[i];
  }

  lemma {:induction false} ValidRoundTrip(g: Graph, version: string, c: Codec)
    requires Valid(g) && Inverse(c)
    ensures GraphOf(GraphToJson(ContentOf(g), version, c), c) == ContentOf(g)
  {
    RoundTrip(ContentOf(g), version, c);
  }

  // ----- queries before and after

  /** Live structures are at different addresses. */
  predicate Placed(g: Graph) {
    && DistinctHandles(g.nodes) && DistinctHandles(g.edges)
    && (forall i | 0 <= i < |g.nodes| :: g.nodes[i].h != 0) && (forall i | 0 <= i < |g.edges| :: g.edges[i].h != 0)
  }

  lemma {:induction false} ValuesAt<T>(a: seq<Cell<T>>, b: seq<Cell<T>>)
    requires Values(a) == Values(b)
    ensures |a| == |b| && forall i | 0 <= i < |a| :: a[i].v == b[i].v
  {
    assert |a| == |Values(a)| && |b| == |Values(b)|;
    forall i | 0 <= i < |a| ensures a[i].v == b[i].v {
      assert Values(a)[i] == a[i].v && Values(b)[i] == b[i].v;
    }
  }

  /** The decoded graph keeps the invariant wherever its structures are put. */
  lemma {:induction false} DecodedValid(g: Graph, g': Graph)
    requires Valid(g) && ContentOf(g') == ContentOf(g) && Placed(g')
    ensures Valid(g')
  {
    ValuesAt(g.nodes, g'.nodes);
    ValuesAt(g.edges, g'.edges);
    AnchoredMore(g.nodes, g'.nodes, g.edges);
  }

  /** sg_get_node finds the node at the same place. */
  lemma {:induction false} SameFind(nodes: seq<Cell<Node>>, nodes': seq<Cell<Node>>, a: Address)
    requires |nodes| == |nodes'| && forall i | 0 <= i < |nodes| :: nodes[i].v == nodes'[i].v
    ensures Find(nodes', a) == Find(nodes, a)
  {
    var i, k := Find(nodes, a), Find(nodes', a);
    assert i < |nodes| ==> nodes'[i].v.a == a;
    assert k < |nodes| ==> nodes[k].v.a == a;
  }

  /** The edge lists at an address hold the same edges. */
  lemma {:induction false} SameTouching(edges: seq<Cell<Edge>>, edges': seq<Cell<Edge>>, a: Address, incoming: bool)
    requires |edges| == |edges'| && forall i | 0 <= i < |edges| :: edges[i].v == edges'[i].v
    ensures Values(Touching(edges', a, incoming)) == Values(Touching(edges, a, incoming))
  {
    if edges != [] {
      var n := |edges| - 1;
      SameTouching(edges[..n], edges'[..n], a, incoming);
      ValuesAt(Touching(edges'[..n], a, incoming), Touching(edges[..n], a, incoming));
    }
  }

  /** Two handles of nodes at the same place. */
  predicate SamePlace(nodes: seq<Cell<Node>>, h: Handle, nodes': seq<Cell<Node>>, h': Handle) {
    exists i | 0 <= i < |nodes| && i < |nodes'| :: nodes[i].h == h && nodes'[i].h == h'
  }

  /** The neighbours of an address are the same nodes in the same order. */
  lemma {:induction false} SameNeighbours(g: Graph, g': Graph, a: Address, way: Way)
    requires |g.nodes| == |g'.nodes| && forall i | 0 <= i < |g.nodes| :: g.nodes[i].v == g'.nodes[i].v
    requires |g.edges| == |g'.edges| && forall i | 0 <= i < |g.edges| :: g.edges[i].v == g'.edges[i].v
    ensures var r, r' := Neighbours(g.nodes, g.edges, a, way), Neighbours(g'.nodes, g'.edges, a, way);
            |r| == |r'| && forall k | 0 <= k < |r| :: SamePlace(g.nodes, r[k], g'.nodes, r'[k])
    decreases |g.edges|
  {
    if g.edges != [] {
      var n := |g.edges| - 1;
      var e := g.edges[n].v;
      SameNeighbours(g.(edges := g.edges[..n]), g'.(edges := g'.edges[..n]), a, way);
      SameFind(g.nodes, g'.nodes, e.source);
      SameFind(g.nodes, g'.nodes, e.dest);
      SameFar(g.nodes, g'.nodes, e, a, way);
    }
  }

  lemma {:induction false} SameFar(nodes: seq<Cell<Node>>, nodes': seq<Cell<Node>>, e: Edge, a: Address, way: Way)
    requires |nodes| == |nodes'|
    requires Find(nodes, e.source) == Find(nodes', e.source) && Find(nodes, e.dest) == Find(nodes', e.dest)
    ensures var f, f' := Far(nodes, e, a, way), Far(nodes', e, a, way);
            |f| == |f'| <= 1 && (|f| == 1 ==> SamePlace(nodes, f[0], nodes', f'[0]))
  {
    var i, k := Find(nodes, e.source), Find(nodes, e.dest);
    assert i < |nodes| ==> SamePlace(nodes, nodes[i].h, nodes', nodes'[i].h);
    assert k < |nodes| ==> SamePlace(nodes, nodes[k].h, nodes', nodes'[k].h);
  }

  // ----- documents from outside

  /** Addresses are different and every edge names nodes that are there. */
  predicate Sound(g: Content) {
    && (forall i, k | 0 <= i < k < |g.nodes| :: g.nodes[i].a != g.nodes[k].a)
    && forall i | 0 <= i < |g.edges| :: Names(g.nodes, g.edges[i].source) && Names(g.nodes, g.edges[i].dest)
  }

  predicate Names(nodes: seq<Node>, a: Address) {
    exists i | 0 <= i < |nodes| :: nodes[i].a == a
  }

  lemma {:induction false} CollectedData(items: seq<Json>, c: Codec)
    ensures forall d <- Collect(items, DataOf(c)) :: d.bytes != []
  {
    if items != [] {
      CollectedData(items[..|items| - 1], c);
    }
  }

  lemma {:induction false} CollectedNodes(items: seq<Json>, c: Codec)
    ensures forall n <- Collect(items, NodeOf(c)) :: forall d <- n.data :: d.bytes != []
  {
    hide DataOf, LabelOf, AddressOf;
    if items != [] {
      var last := items[|items| - 1];
      CollectedNodes(items[..|items| - 1], c);
      CollectedData(ItemsOf(LastOf(Fields(last), "data", AnArray)), c);
    }
  }

  /** The lists of a document are stored without the checks of the operations: the graph read keeps the
      invariant, wherever its structures are put, if and only if the document is sound. */
  lemma {:induction false} ReadValidWhen(g: Graph, j: Json, c: Codec)
    requires Placed(g) && ContentOf(g) == GraphOf(j, c)
    ensures Valid(g) <==> Sound(GraphOf(j, c))
  {
    hide Collect, NodeOf, EdgeOf, LabelOf;
    var content := GraphOf(j, c);
    CollectedNodes(ItemsOf(LastOf(Fields(j), "nodes", AnArray)), c);
    assert forall i | 0 <= i < |g.nodes| :: g.nodes[i].v == content.nodes[i];
    assert forall i | 0 <= i < |g.edges| :: g.edges[i].v == content.edges[i];
    forall a ensures HasNode(g.nodes, a) <==> Names(content.nodes, a) { SameNames(g.nodes, content.nodes, a); }
    forall i, k | 0 <= i < |g.nodes| && 0 <= k < |g.nodes[i].v.data| ensures g.nodes[i].v.data[k].bytes != [] {
      assert content.nodes[i] in content.nodes && content.nodes[i].data[k] in content.nodes[i].data;
    }
  }

  lemma {:induction false} SameNames(cells: seq<Cell<Node>>, nodes: seq<Node>, a: Address)
    requires |cells| == |nodes| && forall i | 0 <= i < |cells| :: cells[i].v == nodes[i]
    ensures HasNode(cells, a) <==> Names(nodes, a)
  {
    if HasNode(cells, a) {
      var i :| 0 <= i < |cells| && cells[i].v.a == a;
      assert nodes[i].a == a;
    }
    if Names(nodes, a) {
      var i :| 0 <= i < |nodes| && nodes[i].a == a;
      assert cells[i].v.a == a;
    }
  }

  /** A document with two nodes of one address is read, and breaks the invariant. */
  method TwoNodesOneAddress(a: Address, version: string, c: Codec) returns (j: Json, r: Reading)
    requires Inverse(c)
    ensures r.Read? && |r.content.nodes| == 2 && !Sound(r.content)
    ensures forall g: Graph :: Placed(g) && ContentOf(g) == r.content ==> !Valid(g)
  {
    hide GraphToJson, GraphOf, Valid, Placed, Sound, Inverse;
    ghost var content := Content([Node(a, [], []), Node(a, [], [])], [], []);
    j := GraphToJson(Content([Node(a, [], []), Node(a, [], [])], [], []), version, c);
    Trip(content, version, c);
    RoundTrip(content, version, c);
    r := ReadGraph(j, c);
    assert r.Read? && r.content == content;
    assert !Sound(content) by { SameAddress(content); }
    forall g: Graph | Placed(g) && ContentOf(g) == r.content ensures !Valid(g) { ReadValidWhen(g, j, c); }
  }

  lemma {:induction false} SameAddress(g: Content)
    requires |g.nodes| == 2 && g.nodes[0].a == g.nodes[1].a
    ensures !Sound(g)
  {}

  /** sg_serialize then sg_deserialize: the graph read back has the same content, keeps the
      invariant, and answers every question asked by address as before. */
  lemma {:induction false} Deserialized(g: Graph, g': Graph, version: string, c: Codec)
    requires Valid(g) && Inverse(c)
    requires Placed(g') && ContentOf(g') == GraphOf(GraphToJson(ContentOf(g), version, c), c)
    ensures Valid(g') && ContentOf(g') == ContentOf(g)
    ensures forall a :: Find(g'.nodes, a) == Find(g.nodes, a)
    ensures forall a, incoming :: Values(Touching(g'.edges, a, incoming)) == Values(Touching(g.edges, a, incoming))
    ensures forall a, way ::
              var r, r' := Neighbours(g.nodes, g.edges, a, way), Neighbours(g'.nodes, g'.edges, a, way);
              |r| == |r'| && forall k | 0 <= k < |r| :: SamePlace(g.nodes, r[k], g'.nodes, r'[k])
  {
    hide Valid, Placed, GraphOf, GraphToJson, Find, Touching, Neighbours, SamePlace, Values, Inverse;
    ValidRoundTrip(g, version, c);
    DecodedValid(g, g');
    ValuesAt(g.nodes, g'.nodes);
    ValuesAt(g.edges, g'.edges);
    forall a ensures Find(g'.nodes, a) == Find(g.nodes, a) { SameFind(g.nodes, g'.nodes, a); }
    forall a, incoming ensures Values(Touching(g'.edges, a, incoming)) == Values(Touching(g.edges, a, incoming)) {
      SameTouching(g.edges, g'.edges, a, incoming);
    }
    forall a, way
      ensures var r, r' := Neighbours(g.nodes, g.edges, a, way), Neighbours(g'.nodes, g'.edges, a, way);
              |r| == |r'| && forall k | 0 <= k < |r| :: SamePlace(g.nodes, r[k], g'.nodes, r'[k])
    {
      SameNeighbours(g, g', a, way);
    }
  }
}
