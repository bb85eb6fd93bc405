/** The on-disk measurement graph (lib/graph/graph-fs*.c) as a value: the directories, links and
    files below one graph's path, what it means for them to agree with each other, and the effect
    of every completed operation.

    A node directory is named by target type, address space and serialized address; `byId` holds
    the symbolic links from ids to node directories.  A missing "inbound" or "outbound" directory
    and an empty one behave alike and are both the empty set. */
module GraphStore {
  import opened Options
  import opened Ids

  const TWO32: nat := 0x1_0000_0000
  type Magic = n: nat | n < TWO32

  /** The path of a node directory below "nodes/"; `addr` is already free of '/'. */
  datatype Key = Key(typ: Magic, space: Magic, addr: string)

  datatype NodeDir = NodeDir(id: Option<Id>, inbound: set<Id>, outbound: set<Id>, data: map<Magic, string>)

  /** An edge directory: its "src" and "dest" links and its "label" file. */
  datatype EdgeRec = EdgeRec(src: Option<Key>, dest: Option<Key>, tag: Option<string>)

  datatype Fs = Fs(dirs: map<Key, NodeDir>, byId: map<Id, Key>, edges: map<Id, EdgeRec>,
                   nodeFile: string, edgeFile: string)

  const EMPTY: Fs := Fs(map[], map[], map[], "0", "0")
  const NEW_EDGE: EdgeRec := EdgeRec(None, None, None)

  // ----- lookups through links

  /** Follows the by-id link; a dangling link is no path. */
  function PathForNode(fs: Fs, n: Id): Option<Key> {
    if n != INVALID_ID && n in fs.byId && fs.byId[n] in fs.dirs then Some(fs.byId[n]) else None
  }

  /** Reads the id file of the directory a link points to. */
  function LoadNode(fs: Fs, link: Option<Key>): Id {
    if link.Some? && link.value in fs.dirs && fs.dirs[link.value].id.Some?
    then fs.dirs[link.value].id.value else INVALID_ID
  }

  function EdgeSource(fs: Fs, e: Id): Id {
    if e != INVALID_ID && e in fs.edges then LoadNode(fs, fs.edges[e].src) else INVALID_ID
  }

  function EdgeDestination(fs: Fs, e: Id): Id {
    if e != INVALID_ID && e in fs.edges then LoadNode(fs, fs.edges[e].dest) else INVALID_ID
  }

  predicate IsAscii(s: string) {
    forall i | 0 <= i < |s| :: s[i] as int < 128
  }

  /** A label file that is not ASCII reads back as no label. */
  function ReadLabel(tag: Option<string>): Option<string> {
    if tag.Some? && IsAscii(tag.value) then tag else None
  }

  function EdgeLabel(fs: Fs, e: Id): Option<string> {
    if e != INVALID_ID && e in fs.edges then ReadLabel(fs.edges[e].tag) else None
  }

  // ----- the store invariant

  predicate LinkOk(fs: Fs, n: Id)
    requires n in fs.byId
  {
    n != INVALID_ID && fs.byId[n] in fs.dirs && fs.dirs[fs.byId[n]].id == Some(n)
  }

  predicate DirOk(fs: Fs, k: Key)
    requires k in fs.dirs
  {
    var id := fs.dirs[k].id;
    id.Some? && id.value in fs.byId && fs.byId[id.value] == k
  }

  predicate EdgeOk(fs: Fs, e: Id)
    requires e in fs.edges
  {
    var rec := fs.edges[e];
    && e != INVALID_ID
    && rec.src.Some? && rec.src.value in fs.dirs && e in fs.dirs[rec.src.value].outbound
    && rec.dest.Some? && rec.dest.value in fs.dirs && e in fs.dirs[rec.dest.value].inbound
  }

  predicate OutOk(fs: Fs, k: Key, e: Id) {
    e in fs.edges && fs.edges[e].src == Some(k)
  }

  predicate InOk(fs: Fs, k: Key, e: Id) {
    e in fs.edges && fs.edges[e].dest == Some(k)
  }

  ghost predicate NodesLinked(fs: Fs) {
    && (forall n {:trigger LinkOk(fs, n)} | n in fs.byId :: LinkOk(fs, n))
    && (forall k {:trigger DirOk(fs, k)} | k in fs.dirs :: DirOk(fs, k))
  }

  ghost predicate EdgesLinked(fs: Fs) {
    && (forall e {:trigger EdgeOk(fs, e)} | e in fs.edges :: EdgeOk(fs, e))
    && (forall k, e {:trigger OutOk(fs, k, e)} | k in fs.dirs && e in fs.dirs[k].outbound :: OutOk(fs, k, e))
    && (forall k, e {:trigger InOk(fs, k, e)} | k in fs.dirs && e in fs.dirs[k].inbound :: InOk(fs, k, e))
  }

  predicate Readable(counter: string) {
    IsCounter(counter, IdOfStr(counter))
  }

  /** By-id links and node directories are in bijection; every edge's endpoints exist; an edge is
      listed in the outbound directory of its source, the inbound directory of its destination
      and nowhere else; both counters are readable. */
  ghost predicate Consistent(fs: Fs) {
    NodesLinked(fs) && EdgesLinked(fs) && Readable(fs.nodeFile) && Readable(fs.edgeFile)
  }

  /** Every live id is below its counter. */
  ghost predicate Below(fs: Fs) {
    NodesBelow(fs) && forall e <- fs.edges :: e < IdOfStr(fs.edgeFile)
  }

  ghost predicate NodesBelow(fs: Fs) {
    forall n <- fs.byId :: n < IdOfStr(fs.nodeFile)
  }

  /** No two edges share source, label and destination. */
  ghost predicate Unique(fs: Fs) {
    forall d, e | d in fs.edges && e in fs.edges && fs.edges[d] == fs.edges[e] :: d == e
  }

  // ----- the effect of completed operations

  function PutNode(fs: Fs, k: Key, n: Id): Fs {
    fs.(dirs := fs.dirs[k := NodeDir(Some(n), {}, {}, map[])], byId := fs.byId[n := k])
  }

  function PutData(fs: Fs, k: Key, typ: Magic, content: string): Fs
    requires k in fs.dirs
  {
    fs.(dirs := fs.dirs[k := fs.dirs[k].(data := fs.dirs[k].data[typ := content])])
  }

  function LinkOut(fs: Fs, k: Key, e: Id): Fs
    requires k in fs.dirs
  {
    fs.(dirs := fs.dirs[k := fs.dirs[k].(outbound := fs.dirs[k].outbound + {e})])
  }

  function LinkIn(fs: Fs, k: Key, e: Id): Fs
    requires k in fs.dirs
  {
    fs.(dirs := fs.dirs[k := fs.dirs[k].(inbound := fs.dirs[k].inbound + {e})])
  }

  function PutRec(fs: Fs, e: Id, rec: EdgeRec): Fs {
    fs.(edges := fs.edges[e := rec])
  }

  function PutEdge(fs: Fs, e: Id, src: Key, tag: Option<string>, dst: Key): Fs
    requires src in fs.dirs && dst in fs.dirs
  {
    LinkIn(LinkOut(PutRec(fs, e, EdgeRec(Some(src), Some(dst), tag)), src, e), dst, e)
  }

  /** The store without the given edges and without any index entry for them. */
  function DropEdges(fs: Fs, gone: set<Id>): Fs {
    fs.(edges := fs.edges - gone,
        dirs := map k | k in fs.dirs ::
                  fs.dirs[k].(inbound := fs.dirs[k].inbound - gone, outbound := fs.dirs[k].outbound - gone))
  }

  /** The edges that start or end at node directory `k`. */
  function Incident(fs: Fs, k: Key): set<Id> {
    set e | e in fs.edges && (fs.edges[e].src == Some(k) || fs.edges[e].dest == Some(k))
  }

  /** The store without a node and its incident edges. */
  function DropNode(fs: Fs, n: Id): Fs
    requires n in fs.byId
  {
    var k := fs.byId[n];
    var bare := DropEdges(fs, Incident(fs, k));
    bare.(dirs := bare.dirs - {k}, byId := bare.byId - {n})
  }

  // ----- each effect keeps the invariant

  lemma {:induction false} EmptyConsistent()
    ensures Consistent(EMPTY) && Below(EMPTY) && Unique(EMPTY)
  {
    ValueOfDigits(0, 1);
    assert "0" == HexDigits(0, 1);
    ScanCounter("0", 0);
  }

  /** A change that keeps ids, directories and links keeps the node part of the invariant. */
  lemma {:induction false} SameNodes(fs: Fs, fs': Fs)
    requires NodesLinked(fs) && fs'.byId == fs.byId && fs'.dirs.Keys == fs.dirs.Keys
    requires forall k | k in fs.dirs :: fs'.dirs[k].id == fs.dirs[k].id
    ensures NodesLinked(fs')
  {
    forall n | n in fs'.byId ensures LinkOk(fs', n) { assert LinkOk(fs, n); }
    forall k | k in fs'.dirs ensures DirOk(fs', k) { assert DirOk(fs, k); }
  }

  lemma {:induction false} PutNodeConsistent(fs: Fs, k: Key, n: Id)
    requires Consistent(fs) && k !in fs.dirs && n !in fs.byId && n != INVALID_ID
    ensures Consistent(PutNode(fs, k, n))
  {
    hide Readable;
    var fs' := PutNode(fs, k, n);
    forall m | m in fs'.byId ensures LinkOk(fs', m) { if m != n { assert LinkOk(fs, m); } }
    forall j | j in fs'.dirs ensures DirOk(fs', j) { if j != k { assert DirOk(fs, j); } }
    forall e | e in fs'.edges ensures EdgeOk(fs', e) { assert EdgeOk(fs, e); }
    forall j, e | j in fs'.dirs && e in fs'.dirs[j].outbound ensures OutOk(fs', j, e) { assert OutOk(fs, j, e); }
    forall j, e | j in fs'.dirs && e in fs'.dirs[j].inbound ensures InOk(fs', j, e) { assert InOk(fs, j, e); }
  }

  lemma {:induction false} PutDataConsistent(fs: Fs, k: Key, typ: Magic, content: string)
    requires Consistent(fs) && k in fs.dirs
    ensures Consistent(PutData(fs, k, typ, content))
  {
    hide Readable;
    var fs' := PutData(fs, k, typ, content);
    SameNodes(fs, fs');
    forall e | e in fs'.edges ensures EdgeOk(fs', e) { assert EdgeOk(fs, e); }
    forall j, e | j in fs'.dirs && e in fs'.dirs[j].outbound ensures OutOk(fs', j, e) { assert OutOk(fs, j, e); }
    forall j, e | j in fs'.dirs && e in fs'.dirs[j].inbound ensures InOk(fs', j, e) { assert InOk(fs, j, e); }
  }

  lemma {:induction false} PutEdgeConsistent(fs: Fs, e: Id, src: Key, tag: Option<string>, dst: Key)
    requires Consistent(fs) && src in fs.dirs && dst in fs.dirs && e !in fs.edges && e != INVALID_ID
    ensures Consistent(PutEdge(fs, e, src, tag, dst))
  {
    hide Readable;
    var fs' := PutEdge(fs, e, src, tag, dst);
    SameNodes(fs, fs');
    forall d | d in fs'.edges ensures EdgeOk(fs', d) { if d != e { assert EdgeOk(fs, d); } }
    forall j, d | j in fs'.dirs && d in fs'.dirs[j].outbound ensures OutOk(fs', j, d) {
      if d in fs.dirs[j].outbound { assert OutOk(fs, j, d); }
    }
    forall j, d | j in fs'.dirs && d in fs'.dirs[j].inbound ensures InOk(fs', j, d) {
      if d in fs.dirs[j].inbound { assert InOk(fs, j, d); }
    }
  }

  lemma {:induction false} DropEdgesConsistent(fs: Fs, gone: set<Id>)
    requires Consistent(fs)
    ensures Consistent(DropEdges(fs, gone))
  {
    hide Readable;
    var fs' := DropEdges(fs, gone);
    SameNodes(fs, fs');
    forall e | e in fs'.edges ensures EdgeOk(fs', e) { assert EdgeOk(fs, e); }
    forall j, e | j in fs'.dirs && e in fs'.dirs[j].outbound ensures OutOk(fs', j, e) { assert OutOk(fs, j, e); }
    forall j, e | j in fs'.dirs && e in fs'.dirs[j].inbound ensures InOk(fs', j, e) { assert InOk(fs, j, e); }
  }

  lemma {:induction false} DropNodeConsistent(fs: Fs, n: Id)
    requires Consistent(fs) && n in fs.byId
    ensures Consistent(DropNode(fs, n))
  {
    hide Readable;
    var k := fs.byId[n];
    var bare, fs' := DropEdges(fs, Incident(fs, k)), DropNode(fs, n);
    DropEdgesConsistent(fs, Incident(fs, k));
    assert LinkOk(fs, n) && DirOk(fs, k);
    forall m | m in fs'.byId ensures LinkOk(fs', m) { assert LinkOk(bare, m); }
    forall j | j in fs'.dirs ensures DirOk(fs', j) { assert DirOk(bare, j); }
    forall e | e in fs'.edges ensures EdgeOk(fs', e) { assert EdgeOk(bare, e); }
    forall j, e | j in fs'.dirs && e in fs'.dirs[j].outbound ensures OutOk(fs', j, e) { assert OutOk(bare, j, e); }
    forall j, e | j in fs'.dirs && e in fs'.dirs[j].inbound ensures InOk(fs', j, e) { assert InOk(bare, j, e); }
  }

  // ----- deleting an edge, step by step

  /** The node directory whose outbound entry for `e` is unlinked, found through the "src" link. */
  function OutEntry(fs: Fs, e: Id): Option<Key> {
    PathForNode(fs, EdgeSource(fs, e))
  }

  function InEntry(fs: Fs, e: Id): Option<Key> {
    PathForNode(fs, EdgeDestination(fs, e))
  }

  function UnlinkOut(fs: Fs, e: Id): Fs {
    match OutEntry(fs, e)
    case None => fs
    case Some(k) => fs.(dirs := fs.dirs[k := fs.dirs[k].(outbound := fs.dirs[k].outbound - {e})])
  }

  function UnlinkIn(fs: Fs, e: Id): Fs {
    match InEntry(fs, e)
    case None => fs
    case Some(k) => fs.(dirs := fs.dirs[k := fs.dirs[k].(inbound := fs.dirs[k].inbound - {e})])
  }

  function RemoveRec(fs: Fs, e: Id): Fs {
    fs.(edges := fs.edges - {e})
  }

  /** The outcome of deleting `e` in whatever state the store is in, when no removal fails. */
  function EraseEdge(fs: Fs, e: Id): Fs {
    if e == INVALID_ID then fs else RemoveRec(UnlinkIn(UnlinkOut(fs, e), e), e)
  }

  predicate HasOutEntry(fs: Fs, e: Id) {
    OutEntry(fs, e).Some? && e in fs.dirs[OutEntry(fs, e).value].outbound
  }

  predicate HasInEntry(fs: Fs, e: Id) {
    InEntry(fs, e).Some? && e in fs.dirs[InEntry(fs, e).value].inbound
  }

  lemma {:induction false} NodeOfKey(fs: Fs, k: Key)
    requires NodesLinked(fs) && k in fs.dirs
    ensures var n := LoadNode(fs, Some(k)); n in fs.byId && n != INVALID_ID && PathForNode(fs, n) == Some(k)
  {
    assert DirOk(fs, k);
    assert LinkOk(fs, fs.dirs[k].id.value);
  }

  /** In a consistent store, deleting a live edge removes exactly that edge and its two entries;
      deleting anything else changes nothing. */
  lemma {:induction false} EraseIsDrop(fs: Fs, e: Id)
    requires Consistent(fs)
    ensures EraseEdge(fs, e) == if e in fs.edges then DropEdges(fs, {e}) else fs
    ensures e in fs.edges <==> HasOutEntry(fs, e)
    ensures e in fs.edges <==> HasInEntry(UnlinkOut(fs, e), e)
  {
    hide Readable;
    if e in fs.edges {
      assert EdgeOk(fs, e);
      var src, dst := fs.edges[e].src.value, fs.edges[e].dest.value;
      NodeOfKey(fs, src);
      var a := UnlinkOut(fs, e);
      SameNodes(fs, a);
      NodeOfKey(a, dst);
      var b, c := EraseEdge(fs, e), DropEdges(fs, {e});
      forall k | k in fs.dirs ensures b.dirs[k] == c.dirs[k] {
        assert e in fs.dirs[k].outbound ==> OutOk(fs, k, e);
        assert e in fs.dirs[k].inbound ==> InOk(fs, k, e);
      }
      assert b.dirs == c.dirs;
    } else {
      assert fs.edges - {e} == fs.edges;
    }
  }

  /** A half-made edge: its directory with some of its links, and possibly the outbound entry. */
  function PartialEdge(fs: Fs, e: Id, rec: EdgeRec, linked: bool): Fs
    requires linked ==> rec.src.Some? && rec.src.value in fs.dirs
  {
    if linked then LinkOut(PutRec(fs, e, rec), rec.src.value, e) else PutRec(fs, e, rec)
  }

  /** Deleting a half-made edge restores the store, however far its creation had come. */
  lemma {:induction false} EraseRollsBack(fs: Fs, e: Id, rec: EdgeRec, linked: bool)
    requires Consistent(fs) && e !in fs.edges
    requires rec.src.Some? ==> rec.src.value in fs.dirs
    requires rec.dest.Some? ==> rec.dest.value in fs.dirs
    requires linked ==> rec.src.Some?
    requires e != INVALID_ID
    ensures EraseEdge(PartialEdge(fs, e, rec, linked), e) == fs
  {
    hide Readable;
    var p := PartialEdge(fs, e, rec, linked);
    forall k | k in fs.dirs ensures e !in fs.dirs[k].outbound && e !in fs.dirs[k].inbound {
      assert e in fs.dirs[k].outbound ==> OutOk(fs, k, e);
      assert e in fs.dirs[k].inbound ==> InOk(fs, k, e);
    }
    SameNodes(fs, p);
    if rec.src.Some? { NodeOfKey(p, rec.src.value); }
    var a := UnlinkOut(p, e);
    forall k | k in fs.dirs ensures a.dirs[k] == fs.dirs[k] {
      assert fs.dirs[k].outbound + {e} - {e} == fs.dirs[k].outbound == fs.dirs[k].outbound - {e};
    }
    assert a.dirs == fs.dirs;
    SameNodes(fs, a);
    if rec.dest.Some? { NodeOfKey(a, rec.dest.value); }
    var b := UnlinkIn(a, e);
    assert forall k | k in fs.dirs :: fs.dirs[k].inbound - {e} == fs.dirs[k].inbound;
    assert b.dirs == fs.dirs;
    assert b.edges - {e} == fs.edges;
  }

  lemma {:induction false} DropTwice(fs: Fs, a: set<Id>, b: set<Id>)
    ensures DropEdges(DropEdges(fs, a), b) == DropEdges(fs, a + b)
  {
    var left, right := DropEdges(DropEdges(fs, a), b), DropEdges(fs, a + b);
    forall k | k in fs.dirs ensures left.dirs[k] == right.dirs[k] {
      assert fs.dirs[k].inbound - a - b == fs.dirs[k].inbound - (a + b);
      assert fs.dirs[k].outbound - a - b == fs.dirs[k].outbound - (a + b);
    }
    assert left.dirs == right.dirs;
    assert left.edges == right.edges;
  }

  /** The incident edges of a node are exactly the entries of its two edge directories. */
  lemma {:induction false} IncidentIsListed(fs: Fs, k: Key)
    requires Consistent(fs) && k in fs.dirs
    ensures Incident(fs, k) == fs.dirs[k].inbound + fs.dirs[k].outbound
  {
    hide Readable;
    forall e ensures e in Incident(fs, k) <==> e in fs.dirs[k].inbound + fs.dirs[k].outbound {
      if e in fs.edges { assert EdgeOk(fs, e); }
      assert e in fs.dirs[k].outbound ==> OutOk(fs, k, e);
      assert e in fs.dirs[k].inbound ==> InOk(fs, k, e);
    }
  }
}
