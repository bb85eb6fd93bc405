/** Whole runs of graph operations: what every reachable store satisfies, whatever creation steps
    fail and however the counter updates are torn, as long as removals succeed. */
module GraphRuns {
  import opened Options
  import opened Ids
  import opened GraphStore
  import opened GraphOps

  datatype Op =
    | AddNode(key: Key, data: Option<(Magic, string)>, nf: NodeFault)
    | AddData(n: Id, typ: Magic, bytes: string, stored: Option<nat>)
    | AddEdge(src: Id, tag: Option<string>, dst: Id, ef: EdgeFault)
    | DeleteEdge(e: Id)
    | DeleteNode(n: Id)
  {
    /** No more bytes are reported written than were given. */
    predicate Possible() {
      match this
      case AddNode(_, data, nf) => data.Some? && nf.stored.Some? ==> nf.stored.value <= |data.value.1|
      case AddData(_, _, bytes, stored) => stored.Some? ==> stored.value <= |bytes|
      case _ => true
    }
  }

  /** The store `b` that an operation may leave when it starts from `a`. */
  predicate Stepped(a: Fs, op: Op, b: Fs) {
    op.Possible() &&
    match op
    case AddNode(key, data, nf) =>
      || (b == a.(nodeFile := b.nodeFile) && Counted(a.nodeFile, nf.written, b.nodeFile))
      || NodeBorn(a, op, b)
    case AddData(n, typ, bytes, stored) => b == DataWritten(a, n, typ, bytes, stored)
    case AddEdge(src, tag, dst, ef) =>
      || (b == a.(edgeFile := b.edgeFile) && Counted(a.edgeFile, ef.written, b.edgeFile))
      || EdgeBorn(a, op, b)
      || (&& IdOfStr(a.edgeFile) in a.edges && Counted(a.edgeFile, ef.written, b.edgeFile)
          && b == DropEdges(a, {IdOfStr(a.edgeFile)}).(edgeFile := b.edgeFile))
    case DeleteEdge(e) => b == EraseEdge(a, e)
    case DeleteNode(n) => b == if n in a.byId then DropNode(a, n) else a
  }

  /** A counter file after at most one request. */
  predicate Counted(before: string, k: Written, after: string) {
    after == before || after == TakeId(before, k).1
  }

  predicate NodeBorn(a: Fs, op: Op, b: Fs) {
    && op.AddNode? && op.Possible()
    && var n := IdOfStr(a.nodeFile);
    && op.key !in a.dirs && n !in a.byId && n != INVALID_ID
    && b == NodeAdded(a, op.key, n, op.data, op.nf)
  }

  predicate EdgeBorn(a: Fs, op: Op, b: Fs) {
    && op.AddEdge?
    && var e := IdOfStr(a.edgeFile);
    && e !in a.edges && e != INVALID_ID && NoMatch(a, op.src, op.tag, op.dst)
    && PathForNode(a, op.src).Some? && PathForNode(a, op.dst).Some?
    && b == EdgeAdded(a, e, op.src, op.tag, op.dst, op.ef.written)
  }

  /** Runs one operation. */
  method Perform(g: MeasurementGraph, op: Op)
    requires op.Possible() && Consistent(g.fs)
    modifies g
    ensures Stepped(old(g.fs), op, g.fs) && Consistent(g.fs)
  {
    hide Consistent, TakeId, IdOfStr, NoMatch, NodeAdded, EdgeAdded, DataWritten;
    ghost var a := g.fs;
    match op
    case AddNode(key, data, nf) =>
      var rc, out := g.AddNode(key, data, nf);
    case AddData(n, typ, bytes, stored) =>
      var rc := g.AddData(n, typ, bytes, stored);
      DataWrittenConsistent(a, n, typ, bytes, stored);
    case AddEdge(src, tag, dst, ef) =>
      var rc, out := g.AddEdge(src, tag, dst, ef);
    case DeleteEdge(e) =>
      var rc := g.DeleteEdge(e, NO_FAULT);
      EraseIsDrop(a, e);
      DropEdgesConsistent(a, {e});
    case DeleteNode(n) =>
      var rc := g.DeleteNode(n, false);
      if n in a.byId { DropNodeConsistent(a, n); }
  }

  /** A lost counter update and a later failed add-edge delete an edge that was never asked to go:
      the second request gets the id of the live edge, cannot create its links, and rolls back. */
  method StuckCounterLosesEdge(key: Key, tag: Option<string>)
    returns (added: int, failed: int, g: MeasurementGraph, ghost before: Fs)
    requires tag.Some? && IsAscii(tag.value)
    ensures added == 0 && Consistent(before) && before.edges.Keys == {0}
    ensures failed == -1 && g.fs.edges == map[]
  {
    hide Consistent, IdOfStr, HexDigits, IsAscii;
    g := new MeasurementGraph();
    EmptyConsistent();
    ZeroCounter();
    TakeIdSpec("0", 0, ID_LEN);
    var rc, n := g.AddNode(key, None, NodeFault(false, false, false, ID_LEN, false, false, None));
    assert PathForNode(g.fs, n) == Some(key);
    var clean := EdgeFault(false, 0, false, false, false, false, false, false);
    assert TakeId("0", 0).1 == "0";
    var e;
    added, e := g.AddEdge(n, None, n, clean);
    before := g.fs;
    assert g.fs.edges == map[0 := EdgeRec(Some(key), Some(key), None)];
    failed, e := g.AddEdge(n, tag, n, clean);
  }

  /** A shorter datum written over a longer one is read back with the tail of the longer one. */
  method RewriteKeepsTail(key: Key, typ: Magic) returns (first: int, second: int, g: MeasurementGraph, n: Id)
    ensures first == 0 && second == 0 && DatumOf(g.fs, n, typ) == Some("zbc")
  {
    hide Consistent, IdOfStr, HexDigits;
    g := new MeasurementGraph();
    EmptyConsistent();
    ZeroCounter();
    TakeIdSpec("0", 0, ID_LEN);
    var rc;
    rc, n := g.AddNode(key, None, NodeFault(false, false, false, ID_LEN, false, false, None));
    assert PathForNode(g.fs, n) == Some(key) && g.fs.dirs[key].data == map[];
    first := g.AddData(n, typ, "abc", Some(3));
    assert g.fs.dirs[key].data[typ] == "abc";
    second := g.AddData(n, typ, "z", Some(1));
    assert "z"[..1] + "abc"[1..] == "zbc";
  }

  lemma {:induction false} ZeroCounter()
    ensures IdOfStr("0") == 0 && IsCounter("0", 0)
  {
    assert "0" == HexDigits(0, 1);
    ScanCounter("0", 0);
  }

  // ----- one step

  lemma {:induction false} CountedSpec(a: string, k: Written, b: string)
    requires Readable(a) && Counted(a, k, b)
    ensures Readable(b) && IdOfStr(b) >= IdOfStr(a)
  {
    hide TakeId, IdOfStr, IsCounter, Advances;
    TakeIdSpec(a, IdOfStr(a), k);
  }

  lemma {:induction false} StepConsistent(a: Fs, op: Op, b: Fs)
    requires Consistent(a) && Stepped(a, op, b)
    ensures Consistent(b)
    ensures IdOfStr(b.nodeFile) >= IdOfStr(a.nodeFile) && IdOfStr(b.edgeFile) >= IdOfStr(a.edgeFile)
  {
    hide Readable, TakeId, IdOfStr, NodesLinked, EdgesLinked;
    match op
    case AddNode(key, data, nf) =>
      CountedSpec(a.nodeFile, nf.written, TakeId(a.nodeFile, nf.written).1);
      CounterTaken(a, nf.written);
      if NodeBorn(a, op, b) {
        var counted := a.(nodeFile := TakeId(a.nodeFile, nf.written).1);
        AddNodeDone(a, PutNode(counted, key, IdOfStr(a.nodeFile)), key, IdOfStr(a.nodeFile), data, nf);
      }
    case AddData(n, typ, bytes, stored) => DataWrittenConsistent(a, n, typ, bytes, stored);
    case AddEdge(src, tag, dst, ef) =>
      CountedSpec(a.edgeFile, ef.written, TakeId(a.edgeFile, ef.written).1);
      CounterTaken(a, ef.written);
      if EdgeBorn(a, op, b) {
        var counted := a.(edgeFile := TakeId(a.edgeFile, ef.written).1);
        PutEdgeConsistent(counted, IdOfStr(a.edgeFile), PathForNode(a, src).value, tag, PathForNode(a, dst).value);
      } else {
        var counted := a.(edgeFile := b.edgeFile);
        assert Consistent(counted);
        DropEdgesConsistent(counted, {IdOfStr(a.edgeFile)});
      }
    case DeleteEdge(e) =>
      EraseIsDrop(a, e);
      DropEdgesConsistent(a, {e});
    case DeleteNode(n) =>
      if n in a.byId { DropNodeConsistent(a, n); }
  }

  /** A node or edge was created and the counter update did not reach the digit that changes, so
      the counter still shows the id just given out. */
  predicate Stuck(a: Fs, op: Op, b: Fs) {
    || (NodeBorn(a, op, b) && !Advances(IdOfStr(a.nodeFile), op.nf.written))
    || (EdgeBorn(a, op, b) && !Advances(IdOfStr(a.edgeFile), op.ef.written))
  }

  /** Live ids stay below their counters exactly as long as no counter gets stuck. */
  lemma {:induction false} StepBelow(a: Fs, op: Op, b: Fs)
    requires Consistent(a) && Below(a) && Stepped(a, op, b)
    ensures Below(b) <==> !Stuck(a, op, b)
  {
    hide Readable, TakeId, IdOfStr, NodesLinked, EdgesLinked, Advances, IsCounter;
    StepConsistent(a, op, b);
    if NodeBorn(a, op, b) {
      TakenSpec(a.nodeFile, op.nf.written);
      assert IdOfStr(a.nodeFile) in b.byId;
    } else if EdgeBorn(a, op, b) {
      TakenSpec(a.edgeFile, op.ef.written);
      assert IdOfStr(a.edgeFile) in b.edges;
    }
  }

  lemma {:induction false} TakenSpec(a: string, k: Written)
    requires Readable(a)
    ensures Advances(IdOfStr(a), k) <==> IdOfStr(TakeId(a, k).1) > IdOfStr(a)
    ensures IdOfStr(TakeId(a, k).1) >= IdOfStr(a)
  {
    hide TakeId, IdOfStr, IsCounter, Advances;
    TakeIdSpec(a, IdOfStr(a), k);
  }

  /** Some edge already has the source, destination and stored label asked for. */
  predicate HasTwin(a: Fs, op: Op) {
    op.AddEdge? && exists d ::
      d in a.edges && a.edges[d] == EdgeRec(PathForNode(a, op.src), PathForNode(a, op.dst), op.tag)
  }

  /** Edges stay pairwise different unless an edge is created next to its twin ... */
  lemma {:induction false} StepUnique(a: Fs, op: Op, b: Fs)
    requires Consistent(a) && Unique(a) && Stepped(a, op, b)
    ensures Unique(b) <==> !(EdgeBorn(a, op, b) && HasTwin(a, op))
  {
    hide Readable, TakeId, IdOfStr, NodesLinked, EdgesLinked, NoMatch;
    if EdgeBorn(a, op, b) {
      var e := IdOfStr(a.edgeFile);
      if HasTwin(a, op) {
        var d :| d in a.edges && a.edges[d] == EdgeRec(PathForNode(a, op.src), PathForNode(a, op.dst), op.tag);
        assert b.edges[d] == b.edges[e];
      }
    }
  }

  /** ... which happens only for a label that is present and not ASCII. */
  lemma {:induction false} TwinIsNotAscii(a: Fs, op: Op, b: Fs)
    requires Consistent(a) && EdgeBorn(a, op, b) && HasTwin(a, op)
    ensures op.AddEdge? && op.tag.Some? && !IsAscii(op.tag.value)
  {
    hide Readable, TakeId, IdOfStr;
    var d :| d in a.edges && a.edges[d] == EdgeRec(PathForNode(a, op.src), PathForNode(a, op.dst), op.tag);
    assert EdgeOk(a, d);
    assert LinkOk(a, op.src) && LinkOk(a, op.dst);
    assert !Matches(a, d, op.src, op.tag, op.dst);
  }

  /** The same from the graph before the call: adding an edge between existing nodes without a fault
      keeps edges pairwise different if and only if its label is absent or ASCII, or no edge has the
      source, destination and label already. */
  method AddCleanEdge(g: MeasurementGraph, src: Id, tag: Option<string>, dst: Id, f: EdgeFault) returns (rc: int, e: Id)
    requires Consistent(g.fs) && Unique(g.fs) && f.Clean()
    requires PathForNode(g.fs, src).Some? && PathForNode(g.fs, dst).Some?
    requires IdOfStr(g.fs.edgeFile) != INVALID_ID && IdOfStr(g.fs.edgeFile) !in g.fs.edges
    modifies g
    ensures rc == 0 && Consistent(g.fs)
    ensures Unique(g.fs) <==>
            || tag.None? || (forall c <- tag.value :: c < '\U{80}')
            || !HasTwin(old(g.fs), AddEdge(src, tag, dst, f))
  {
    AsciiLabel(tag);
    hide Consistent, TakeId, IdOfStr, NoMatch, Unique, HasTwin, EdgeAdded;
    ghost var a, op := g.fs, AddEdge(src, tag, dst, f);
    rc, e := g.AddEdge(src, tag, dst, f);
    StepUnique(a, op, g.fs);
    if EdgeBorn(a, op, g.fs) {
      if HasTwin(a, op) { TwinIsNotAscii(a, op, g.fs); }
    } else {
      MatchRead(a, e, src, tag, dst);
    }
  }

  lemma {:induction false} AsciiLabel(tag: Option<string>)
    ensures ReadLabel(tag) == tag <==> tag.None? || forall c <- tag.value :: c < '\U{80}'
  {
    if tag.Some? && !IsAscii(tag.value) {
      var i :| 0 <= i < |tag.value| && tag.value[i] as int >= 128;
      assert tag.value[i] in tag.value;
    }
  }

  lemma {:induction false} MatchRead(fs: Fs, e: Id, src: Id, tag: Option<string>, dst: Id)
    requires Matches(fs, e, src, tag, dst)
    ensures ReadLabel(tag) == tag
  {}

  /** Two calls that ask for the same edge, with a label that is not ASCII, make two. */
  method TwinEdges(key: Key, tag: string) returns (g: MeasurementGraph)
    requires !IsAscii(tag)
    ensures Consistent(g.fs) && !Unique(g.fs)
    ensures var rec := EdgeRec(Some(key), Some(key), Some(tag)); g.fs.edges == map[0 := rec, 1 := rec]
  {
    hide Consistent, IdOfStr, HexDigits, IsAscii, Unique;
    g := new MeasurementGraph();
    EmptyConsistent();
    ZeroCounter();
    TakeIdSpec("0", 0, ID_LEN);
    var rc, n := g.AddNode(key, None, NodeFault(false, false, false, ID_LEN, false, false, None));
    assert PathForNode(g.fs, n) == Some(key);
    assert g.fs.edges == map[];
    var clean := EdgeFault(false, ID_LEN, false, false, false, false, false, false);
    var e, d;
    rc, e := g.AddEdge(n, Some(tag), n, clean);
    ghost var one := g.fs;
    assert one.edges == map[0 := EdgeRec(Some(key), Some(key), Some(tag))] && IdOfStr(one.edgeFile) == 1;
    UnreadNoMatch(one, n, tag);
    rc, d := g.AddEdge(n, Some(tag), n, clean);
    assert g.fs.edges == one.edges[1 := EdgeRec(Some(key), Some(key), Some(tag))];
    assert g.fs.edges[0] == g.fs.edges[1];
    assert !Unique(g.fs) by { EqualEdges(g.fs, 0, 1); }
  }

  lemma {:induction false} EqualEdges(fs: Fs, d: Id, e: Id)
    requires d in fs.edges && e in fs.edges && d != e && fs.edges[d] == fs.edges[e]
    ensures !Unique(fs)
  {}

  lemma {:induction false} UnreadNoMatch(fs: Fs, n: Id, tag: string)
    requires !IsAscii(tag)
    ensures forall e :: !Matches(fs, e, n, Some(tag), n)
  {}

  /** Below the old counters nothing new appears and nothing is renamed. */
  lemma {:induction false} StepStable(a: Fs, op: Op, b: Fs)
    requires Consistent(a) && Stepped(a, op, b)
    ensures Inherited(a, b)
  {
    hide Readable, TakeId, IdOfStr, NodesLinked, EdgesLinked, NoMatch;
  }

  ghost predicate Inherited(a: Fs, b: Fs) {
    && (forall n | n in b.byId && n < IdOfStr(a.nodeFile) :: n in a.byId && b.byId[n] == a.byId[n])
    && (forall e | e in b.edges && e < IdOfStr(a.edgeFile) :: e in a.edges && b.edges[e] == a.edges[e])
  }

  // ----- whole runs

  ghost predicate Run(states: seq<Fs>, ops: seq<Op>) {
    && |states| == |ops| + 1 && Consistent(states[0])
    && forall i | 0 <= i < |ops| :: Stepped(states[i], ops[i], states[i + 1])
  }

  /** Every reachable store is consistent; live ids are below their counters while no counter got
      stuck; and edges are pairwise different while every label given was absent or ASCII. */
  lemma {:induction false} RunInvariant(states: seq<Fs>, ops: seq<Op>, i: nat)
    requires Run(states, ops) && i <= |ops|
    ensures Consistent(states[i])
    ensures Below(states[0]) && (forall m | 0 <= m < i :: !Stuck(states[m], ops[m], states[m + 1])) ==> Below(states[i])
    ensures Unique(states[0]) && (forall m | 0 <= m < i && ops[m].AddEdge? :: ReadLabel(ops[m].tag) == ops[m].tag)
            ==> Unique(states[i])
    decreases i
  {
    hide Consistent, Stepped, Below, Unique, Stuck, EdgeBorn, HasTwin;
    if i > 0 {
      var a, op, b := states[i - 1], ops[i - 1], states[i];
      RunInvariant(states, ops, i - 1);
      assert Stepped(states[i - 1], ops[i - 1], states[i - 1 + 1]);
      StepConsistent(a, op, b);
      if Below(a) { StepBelow(a, op, b); }
      if Unique(a) {
        StepUnique(a, op, b);
        if EdgeBorn(a, op, b) && HasTwin(a, op) { TwinIsNotAscii(a, op, b); }
      }
    }
  }

  /** Ids are permanent names: what a later store has under an id that was already below the
      counter, the earlier store had under the same id.  In particular a node or edge deleted in
      between never comes back under its old id. */
  lemma {:induction false} RunStable(states: seq<Fs>, ops: seq<Op>, i: nat, j: nat)
    requires Run(states, ops) && i <= j <= |ops|
    ensures Inherited(states[i], states[j])
    ensures IdOfStr(states[i].nodeFile) <= IdOfStr(states[j].nodeFile)
    ensures IdOfStr(states[i].edgeFile) <= IdOfStr(states[j].edgeFile)
    decreases j
  {
    hide Consistent, Stepped, IdOfStr;
    if i < j {
      RunStable(states, ops, i, j - 1);
      RunInvariant(states, ops, j - 1);
      assert Stepped(states[j - 1], ops[j - 1], states[j - 1 + 1]);
      StepStable(states[j - 1], ops[j - 1], states[j]);
      StepConsistent(states[j - 1], ops[j - 1], states[j]);
    }
  }
}
