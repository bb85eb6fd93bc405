/** The operations of lib/graph/graph-fs-nodes.c, graph-fs-edges.c, graph-fs-data.c and
    graph-iteration.c, as updates of the stored graph.  Every system call that creates something
    may fail; a directory is listed in an arbitrary order. */
module GraphOps {
  import opened Options
  import opened Ids
  import opened GraphStore

  // ----- directory streams (graph-iteration.c)

  datatype Entry<T> = Dot | DotDot | Named(name: T)

  /** An iterator: the current entry and what the stream has not delivered yet. */
  datatype Cursor<T> = End | At(name: T, rest: seq<Entry<T>>)

  function Names<T>(stream: seq<Entry<T>>): seq<T> {
    if stream == [] then []
    else (if stream[0].Named? then [stream[0].name] else []) + Names(stream[1..])
  }

  /** Every entry but "." and ".." is delivered, in order. */
  lemma {:induction false} NamesConcat<T>(a: seq<Entry<T>>, b: seq<Entry<T>>)
    ensures Names(a + b) == Names(a) + Names(b)
  {
    if a == [] {
      assert a + b == b;
    } else {
      var head := if a[0].Named? then [a[0].name] else [];
      assert (a + b)[0] == a[0] && (a + b)[1..] == a[1..] + b;
      NamesConcat(a[1..], b);
      assert Names(a) == head + Names(a[1..]) && Names(a + b) == head + Names(a[1..] + b);
      assert head + (Names(a[1..]) + Names(b)) == (head + Names(a[1..])) + Names(b);
    }
  }

  lemma {:induction false} NamesOne<T>(name: T)
    ensures Names([Named(name)]) == [name] && Names([Entry<T>.Dot]) == [] && Names([Entry<T>.DotDot]) == []
  {
    assert [Named(name)][1..] == [] && [Entry<T>.Dot][1..] == [] && [Entry<T>.DotDot][1..] == [];
  }

  function Pending<T>(c: Cursor<T>): seq<T> {
    if c.End? then [] else [c.name] + Names(c.rest)
  }

  /** `names` is the set `s` in some order. */
  predicate Lists<T(==)>(names: seq<T>, s: set<T>) {
    (set n | n in names) == s && forall i, j | 0 <= i < j < |names| :: names[i] != names[j]
  }

  lemma {:induction false} ListsMembers<T>(names: seq<T>, s: set<T>)
    requires Lists(names, s)
    ensures forall n :: n in names <==> n in s
    ensures names == [] ==> s == {}
    ensures names != [] ==> names[0] in s
  {
    assert forall n :: n in names <==> n in (set m | m in names);
  }

  /** Reads on to the next entry that is not "." or "..". */
  method NextEntry<T>(stream: seq<Entry<T>>) returns (c: Cursor<T>)
    ensures Pending(c) == Names(stream)
    ensures c.At? ==> |c.rest| < |stream|
  {
    var i := 0;
    while i < |stream|
      invariant 0 <= i <= |stream|
      invariant Names(stream[i..]) == Names(stream)
    {
      if stream[i].Named? {
        return At(stream[i].name, stream[i + 1..]);
      }
      assert stream[i..][1..] == stream[i + 1..];
      i := i + 1;
    }
    c := End;
  }

  lemma {:induction false} ListingExists<T>(s: set<T>) returns (stream: seq<Entry<T>>)
    ensures Lists(Names(stream), s)
  {
    if s == {} {
      stream := [];
    } else {
      var e :| e in s;
      var rest := ListingExists(s - {e});
      stream := [Named(e)] + rest;
      assert stream[1..] == rest && Names(stream) == [e] + Names(rest);
      assert forall n :: n in Names(stream) <==> n == e || n in Names(rest);
      assert forall n :: n in s - {e} <==> n in Names(rest);
    }
  }

  /** Opens or rewinds a directory: its current entries, in some order. */
  method ListDir<T(==)>(s: set<T>) returns (c: Cursor<T>)
    ensures Lists(Pending(c), s)
  {
    ghost var some := ListingExists(s);
    var stream: seq<Entry<T>> :| Lists(Names(stream), s);
    c := NextEntry(stream);
  }

  /** Which removals of a delete-edge call fail.  A failed recursive removal leaves some record. */
  datatype DelFault = DelFault(unlinkOut: bool, unlinkIn: bool, leftover: Option<EdgeRec>)

  const NO_FAULT: DelFault := DelFault(false, false, None)

  const EIO: int := 5
  const ENAMETOOLONG: int := 36
  const SSIZE_MAX: nat := 0x7fff_ffff_ffff_ffff

  /** Which steps of an add-node call fail, how much of the counter update was written, and what
      storing the data did. */
  datatype NodeFault = NodeFault(pathTooLong: bool, mkdir: bool, counterUnreadable: bool, written: Written,
                                 symlink: bool, idFile: bool, stored: Option<nat>)
  {
    predicate Clean() {
      !pathTooLong && !mkdir && !counterUnreadable && !symlink && !idFile
    }
  }

  /** The store after a write of `bytes` over the node's data of that type. */
  function DataWritten(fs: Fs, n: Id, typ: Magic, bytes: string, stored: Option<nat>): Fs
    requires stored.Some? ==> stored.value <= |bytes|
  {
    var k := PathForNode(fs, n);
    if |bytes| > SSIZE_MAX || k.None? || stored.None? then fs
    else
      var before := if typ in fs.dirs[k.value].data then fs.dirs[k.value].data[typ] else "";
      PutData(fs, k.value, typ, Overwrite(before, bytes, stored.value))
  }

  /** What reading the node's data of that type gives. */
  function DatumOf(fs: Fs, n: Id, typ: Magic): Option<string> {
    var k := PathForNode(fs, n);
    if k.Some? && typ in fs.dirs[k.value].data then Some(fs.dirs[k.value].data[typ]) else None
  }

  /** What a complete write leaves to be read: the bytes written, then what the old datum had beyond
      them.  So the datum is the bytes if and only if the old one was no longer. */
  lemma {:induction false} DataReadBack(fs: Fs, n: Id, typ: Magic, bytes: string)
    requires |bytes| <= SSIZE_MAX && PathForNode(fs, n).Some?
    ensures var before, after := DatumOf(fs, n, typ), DatumOf(DataWritten(fs, n, typ, bytes, Some(|bytes|)), n, typ);
            && after.Some? && bytes <= after.value
            && (after == Some(bytes) <==> (before.Some? ==> |before.value| <= |bytes|))
            && (before.Some? && |bytes| < |before.value| ==> after.value[|bytes|..] == before.value[|bytes|..])
  {
    var after := DatumOf(DataWritten(fs, n, typ, bytes, Some(|bytes|)), n, typ);
    assert bytes[..|bytes|] == bytes && bytes + "" == bytes;
    assert after.Some? && after.value[..|bytes|] == bytes;
  }

  /** What a write that stopped after `stored` bytes leaves to be read: those bytes, and after them
      what the old datum had there. */
  lemma {:induction false} PartReadBack(fs: Fs, n: Id, typ: Magic, bytes: string, stored: nat)
    requires stored <= |bytes| <= SSIZE_MAX && PathForNode(fs, n).Some?
    ensures var before, after := DatumOf(fs, n, typ), DatumOf(DataWritten(fs, n, typ, bytes, Some(stored)), n, typ);
            var len := if before.Some? then |before.value| else 0;
            && after.Some? && |after.value| == (if stored < len then len else stored)
            && (forall i | 0 <= i < stored :: after.value[i] == bytes[i])
            && (forall i | stored <= i < len :: after.value[i] == before.value[i])
  {}

  /** No other datum changes, however much was written. */
  lemma {:induction false} OtherDataKept(fs: Fs, n: Id, typ: Magic, bytes: string, stored: Option<nat>, m: Id,
                                         other: Magic)
    requires stored.Some? ==> stored.value <= |bytes|
    requires PathForNode(fs, m) != PathForNode(fs, n) || other != typ
    ensures DatumOf(DataWritten(fs, n, typ, bytes, stored), m, other) == DatumOf(fs, m, other)
  {}

  function NodeAdded(fs: Fs, key: Key, n: Id, data: Option<(Magic, string)>, f: NodeFault): Fs
    requires data.Some? && f.stored.Some? ==> f.stored.value <= |data.value.1|
  {
    var counted := fs.(nodeFile := TakeId(fs.nodeFile, f.written).1);
    var added := PutNode(counted, key, n);
    if data.None? then added else DataWritten(added, n, data.value.0, data.value.1, f.stored)
  }

  /** What a new node is: it is found under its id and its key, no edge is listed at it, it has the
      part of the datum handed in that was stored and no other, and nothing else has changed but the
      counter: dropping it gives the old store back. */
  ghost predicate NodeIsNew(a: Fs, b: Fs, key: Key, n: Id, data: Option<(Magic, string)>, stored: Option<nat>)
    requires data.Some? && stored.Some? ==> stored.value <= |data.value.1|
  {
    && PathForNode(b, n) == Some(key) && LoadNode(b, Some(key)) == n
    && b.dirs[key].inbound == {} && b.dirs[key].outbound == {}
    && (forall typ :: DatumOf(b, n, typ) ==
                      if data.Some? && typ == data.value.0 && |data.value.1| <= SSIZE_MAX && stored.Some?
                      then Some(data.value.1[..stored.value]) else None)
    && n in b.byId && DropNode(b, n) == a.(nodeFile := b.nodeFile)
  }

  lemma {:induction false} NodeAddedIsNew(fs: Fs, key: Key, n: Id, data: Option<(Magic, string)>, f: NodeFault)
    requires data.Some? && f.stored.Some? ==> f.stored.value <= |data.value.1|
    requires Consistent(fs) && key !in fs.dirs && n !in fs.byId && n != INVALID_ID
    ensures NodeIsNew(fs, NodeAdded(fs, key, n, data, f), key, n, data, f.stored)
  {
    hide Readable, TakeId, Consistent;
    var b := NodeAdded(fs, key, n, data, f);
    assert Incident(b, key) == {} by { NothingIncident(fs, key); }
    DropNothing(b);
    assert b.dirs - {key} == fs.dirs && b.byId - {n} == fs.byId;
    if data.Some? && f.stored.Some? {
      var written := data.value.1[..f.stored.value];
      assert written + "" == written;
    }
  }

  lemma {:induction false} NothingIncident(fs: Fs, key: Key)
    requires Consistent(fs) && key !in fs.dirs
    ensures Incident(fs, key) == {}
  {
    hide Readable;
    forall e | e in fs.edges ensures e !in Incident(fs, key) { assert EdgeOk(fs, e); }
  }

  /** What a new edge is: it runs between the two nodes with its label as it can be read, and deleting
      it gives the old store back but for the counter. */
  ghost predicate EdgeIsNew(a: Fs, b: Fs, e: Id, src: Id, tag: Option<string>, dst: Id) {
    && e in b.edges && EdgeSource(b, e) == src && EdgeDestination(b, e) == dst && EdgeLabel(b, e) == ReadLabel(tag)
    && EraseEdge(b, e) == a.(edgeFile := b.edgeFile)
  }

  lemma {:induction false} EdgeAddedIsNew(fs: Fs, e: Id, src: Id, tag: Option<string>, dst: Id, k: Written)
    requires Consistent(fs) && e !in fs.edges && e != INVALID_ID
    requires PathForNode(fs, src).Some? && PathForNode(fs, dst).Some?
    ensures EdgeIsNew(fs, EdgeAdded(fs, e, src, tag, dst, k), e, src, tag, dst)
  {
    hide Readable, TakeId, EraseEdge, ReadLabel;
    var b, base := EdgeAdded(fs, e, src, tag, dst, k), fs.(edgeFile := TakeId(fs.edgeFile, k).1);
    assert LinkOk(fs, src) && LinkOk(fs, dst);
    CounterTaken(fs, k);
    PutEdgeConsistent(base, e, PathForNode(fs, src).value, tag, PathForNode(fs, dst).value);
    EraseIsDrop(b, e);
    var c := DropEdges(b, {e});
    forall j | j in fs.dirs ensures c.dirs[j] == fs.dirs[j] {
      FreshEdgeUnlisted(fs, j, e);
      assert fs.dirs[j].inbound + {e} - {e} == fs.dirs[j].inbound == fs.dirs[j].inbound - {e};
      assert fs.dirs[j].outbound + {e} - {e} == fs.dirs[j].outbound == fs.dirs[j].outbound - {e};
    }
    assert c.dirs == fs.dirs && c.edges == fs.edges;
  }

  /** Which steps of an add-edge call fail, and how much of the counter update was written. */
  datatype EdgeFault = EdgeFault(counterUnreadable: bool, written: Written, mkdir: bool, srcLink: bool,
                                 destLink: bool, labelFile: bool, outLink: bool, inLink: bool)
  {
    predicate Clean() {
      !counterUnreadable && !mkdir && !srcLink && !destLink && !labelFile && !outLink && !inLink
    }
  }

  /** The failure leaves the graph alone: nothing was created yet, or what was created is new. */
  predicate EarlyFailure(fs: Fs, f: EdgeFault) {
    f.counterUnreadable || f.mkdir || IdOfStr(fs.edgeFile) !in fs.edges
  }

  /** An edge that an add-edge call takes to be the one it was asked for. */
  predicate Matches(fs: Fs, e: Id, src: Id, tag: Option<string>, dst: Id) {
    e in fs.edges && EdgeSource(fs, e) == src && EdgeDestination(fs, e) == dst && EdgeLabel(fs, e) == tag
  }

  predicate NoMatch(fs: Fs, src: Id, tag: Option<string>, dst: Id) {
    forall e | e in fs.edges :: !Matches(fs, e, src, tag, dst)
  }

  function EdgeAdded(fs: Fs, e: Id, src: Id, tag: Option<string>, dst: Id, k: Written): Fs
    requires PathForNode(fs, src).Some? && PathForNode(fs, dst).Some?
  {
    var counted := fs.(edgeFile := TakeId(fs.edgeFile, k).1);
    PutEdge(counted, e, PathForNode(fs, src).value, tag, PathForNode(fs, dst).value)
  }

  /** Only the given edges were touched: their records may have changed or gone and entries for them may
      have gone from edge directories; everything else is as it was. */
  ghost predicate OnlyTouched(a: Fs, b: Fs, es: set<Id>) {
    && b.byId == a.byId && b.nodeFile == a.nodeFile && b.edgeFile == a.edgeFile
    && b.dirs.Keys == a.dirs.Keys && (forall k | k in a.dirs :: DirTouched(a.dirs[k], b.dirs[k], es))
    && b.edges.Keys <= a.edges.Keys && a.edges - es == b.edges - es
  }

  predicate DirTouched(a: NodeDir, b: NodeDir, es: set<Id>) {
    && b.id == a.id && b.data == a.data
    && a.inbound - es <= b.inbound <= a.inbound && a.outbound - es <= b.outbound <= a.outbound
  }

  lemma {:induction false} OnlyTouchedNext(a: Fs, b: Fs, c: Fs, es: set<Id>, e: Id)
    requires OnlyTouched(a, b, es) && OnlyTouched(b, c, {e}) && e in es
    ensures OnlyTouched(a, c, es)
  {
    forall k | k in a.dirs ensures DirTouched(a.dirs[k], c.dirs[k], es) {
      assert DirTouched(a.dirs[k], b.dirs[k], es) && DirTouched(b.dirs[k], c.dirs[k], {e});
    }
    assert b.edges - {e} == c.edges - {e};
    forall d | d in a.edges && d !in es ensures d in c.edges && c.edges[d] == a.edges[d] {
      assert d in a.edges - es && d in b.edges - es && (b.edges - es)[d] == a.edges[d];
      assert d in b.edges - {e} && d in c.edges - {e} && (c.edges - {e})[d] == b.edges[d];
    }
    assert a.edges - es == c.edges - es;
  }

  lemma {:induction false} OnlyTouchedMore(a: Fs, b: Fs, c: Fs, es: set<Id>, more: set<Id>)
    requires OnlyTouched(a, b, es) && OnlyTouched(b, c, more)
    ensures OnlyTouched(a, c, es + more)
  {
    forall k | k in a.dirs ensures DirTouched(a.dirs[k], c.dirs[k], es + more) {
      assert DirTouched(a.dirs[k], b.dirs[k], es) && DirTouched(b.dirs[k], c.dirs[k], more);
    }
    forall d | d in a.edges && d !in es + more ensures d in c.edges && c.edges[d] == a.edges[d] {
      assert d in a.edges - es && d in b.edges - es && (b.edges - es)[d] == a.edges[d];
      assert d in b.edges - more && d in c.edges - more && (c.edges - more)[d] == b.edges[d];
    }
    assert a.edges - (es + more) == c.edges - (es + more);
  }

  lemma {:induction false} NothingTouched(fs: Fs, es: set<Id>)
    ensures OnlyTouched(fs, fs, es)
  {}

  lemma {:induction false} NodeOnlyTouched(a: Fs, b: Fs, c: Fs, n: Id)
    requires OnlyTouched(a, b, Listed(a, PathForNode(a, n), true))
    requires OnlyTouched(b, c, Listed(b, PathForNode(b, n), false))
    ensures OnlyTouched(a, c, Listed(a, PathForNode(a, n), true) + Listed(a, PathForNode(a, n), false))
  {
    var k := PathForNode(a, n);
    assert PathForNode(b, n) == k;
    OnlyTouchedMore(a, b, c, Listed(a, k, true), Listed(b, k, false));
    ListedShrinks(a, b, Listed(a, k, true), k, false);
    TouchedWider(a, c, Listed(a, k, true) + Listed(b, k, false), Listed(a, k, true) + Listed(a, k, false));
  }

  lemma {:induction false} TouchedWider(a: Fs, b: Fs, es: set<Id>, wider: set<Id>)
    requires OnlyTouched(a, b, es) && es <= wider
    ensures OnlyTouched(a, b, wider)
  {
    forall k | k in a.dirs ensures DirTouched(a.dirs[k], b.dirs[k], wider) {
      assert DirTouched(a.dirs[k], b.dirs[k], es);
    }
    forall d | d in a.edges && d !in wider ensures d in b.edges && b.edges[d] == a.edges[d] {
      assert d in a.edges - es && d in b.edges - es && (b.edges - es)[d] == a.edges[d];
    }
    assert a.edges - wider == b.edges - wider;
  }

  lemma {:induction false} ListedShrinks(a: Fs, b: Fs, es: set<Id>, dir: Option<Key>, incoming: bool)
    requires OnlyTouched(a, b, es)
    ensures Listed(b, dir, incoming) <= Listed(a, dir, incoming)
  {
    assert dir.Some? && dir.value in a.dirs ==> DirTouched(a.dirs[dir.value], b.dirs[dir.value], es);
  }

  /** A graph's backing store, named by its path. */
  class MeasurementGraph {
    var fs: Fs

    constructor ()
      ensures fs == EMPTY
    {
      fs := EMPTY;
    }

    /** measurement_graph_delete_edge */
    method DeleteEdge(e: Id, f: DelFault) returns (rc: int)
      modifies this
      ensures f == NO_FAULT ==> fs == EraseEdge(old(fs), e)
      ensures f == NO_FAULT ==>
                (rc == 0 <==> e != INVALID_ID && HasOutEntry(old(fs), e) && HasInEntry(UnlinkOut(old(fs), e), e))
      ensures rc == 0 || rc == -1
      ensures rc == 0 ==> e in old(fs).edges && fs.edges == old(fs).edges - {e}
      ensures f != NO_FAULT ==> rc == -1
      ensures e != INVALID_ID && f.leftover.None? ==> e !in fs.edges
      ensures var k := OutEntry(old(fs), e);
              e != INVALID_ID && k.Some? && !f.unlinkOut ==> k.value in fs.dirs && e !in fs.dirs[k.value].outbound
      ensures fs.edges.Keys <= old(fs).edges.Keys
      ensures fs.byId == old(fs).byId && fs.dirs.Keys == old(fs).dirs.Keys
      ensures OnlyTouched(old(fs), fs, {e})
    {
      NothingTouched(fs, {e});
      if e == INVALID_ID {
        return -1;
      }
      rc := 0;
      var k := OutEntry(fs, e);
      if k.None? || f.unlinkOut || e !in fs.dirs[k.value].outbound {
        rc := -1;
      }
      if k.Some? && !f.unlinkOut {
        fs := UnlinkOut(fs, e);
      }
      k := InEntry(fs, e);
      if k.None? || f.unlinkIn || e !in fs.dirs[k.value].inbound {
        rc := -1;
      }
      if k.Some? && !f.unlinkIn {
        fs := UnlinkIn(fs, e);
      }
      if e !in fs.edges || f.leftover.Some? {
        rc := -1;
      }
      if e in fs.edges && f.leftover.Some? {
        fs := PutRec(fs, e, f.leftover.value);
      } else {
        fs := RemoveRec(fs, e);
      }
      assert old(fs).edges - {e} == fs.edges - {e};
    }

    /** One of the two loops of delete-node: a successful deletion rewinds the directory, a failed
        one moves on.  It ends in every store and under every failure of the removals. */
    method DeleteListed(n: Id, incoming: bool, faulty: bool) returns (rc: int)
      modifies this
      ensures fs.byId == old(fs).byId && fs.dirs.Keys == old(fs).dirs.Keys && fs.edges.Keys <= old(fs).edges.Keys
      ensures rc == 0 || rc == -1
      ensures OnlyTouched(old(fs), fs, Listed(old(fs), PathForNode(old(fs), n), incoming))
      ensures !faulty && old(Consistent(fs)) ==>
                && rc == 0
                && fs == DropEdges(old(fs), Listed(old(fs), PathForNode(old(fs), n), incoming))
    {
      hide Readable, LinkOk, DirOk, EdgeOk, EraseEdge, HasOutEntry, HasInEntry, DropEdges, UnlinkOut;
      hide Consistent, OnlyTouched, OutEntry, DirTouched;
      rc := 0;
      var dir := PathForNode(fs, n);
      ghost var all, gone := Listed(fs, dir, incoming), {};
      assert DropEdges(fs, {}) == fs by { DropNothing(fs); }
      NothingTouched(fs, all);
      if dir.None? {
        return;
      }
      var it := ListDir(Listed(fs, dir, incoming));
      ListsMembers(Pending(it), all);
      while it.At?
        invariant OnlyTouched(old(fs), fs, all) && forall d <- Pending(it) :: d in all
        invariant rc == 0 || rc == -1
        invariant fs.byId == old(fs).byId && fs.dirs.Keys == old(fs).dirs.Keys && fs.edges.Keys <= old(fs).edges.Keys
        invariant !faulty && old(Consistent(fs)) ==>
                    && rc == 0 && gone <= all
                    && fs == DropEdges(old(fs), gone) && Lists(Pending(it), all - gone)
        decreases |fs.edges|, if it.At? then |it.rest| + 1 else 0
      {
        var e := it.name;
        var f: DelFault := *;
        if !faulty { f := NO_FAULT; }
        ghost var before := fs;
        if !faulty && old(Consistent(fs)) {
          ListsMembers(Pending(it), all - gone);
          ListedEdgeDrops(old(fs), dir, incoming, gone, e);
        }
        var deleted := DeleteEdge(e, f);
        EdgesShrink(before, fs, e);
        OnlyTouchedNext(old(fs), before, fs, all, e);
        if deleted == 0 {
          gone := gone + {e};
          it := ListDir(Listed(fs, dir, incoming));
          ListsMembers(Pending(it), Listed(fs, dir, incoming));
          ListedShrinks(old(fs), fs, all, dir, incoming);
        } else {
          it := NextEntry(it.rest);
          rc := -1;
        }
      }
      if !faulty && old(Consistent(fs)) {
        ListsMembers(Pending(it), all - gone);
        assert gone == all;
      }
    }

    /** measurement_graph_delete_node.  Whatever removals fail, no edge but those listed at the node is
        touched and no other node but for its entries of them, and success means that the node is
        gone. */
    method DeleteNode(n: Id, faulty: bool) returns (rc: int)
      modifies this
      ensures !faulty && old(Consistent(fs)) ==>
                if n in old(fs).byId then rc == 0 && fs == DropNode(old(fs), n) else rc == -1 && fs == old(fs)
      ensures fs.byId - {n} == old(fs).byId - {n} && fs.edges.Keys <= old(fs).edges.Keys
      ensures var k := PathForNode(old(fs), n);
              var es := Listed(old(fs), k, true) + Listed(old(fs), k, false);
              && fs.edges - es == old(fs).edges - es
              && fs.nodeFile == old(fs).nodeFile && fs.edgeFile == old(fs).edgeFile
              && (forall j | j in old(fs).dirs && Some(j) != k ::
                    j in fs.dirs && DirTouched(old(fs).dirs[j], fs.dirs[j], es))
              && (k.None? ==> rc == -1 && fs.dirs.Keys == old(fs).dirs.Keys)
              && (k.Some? ==> fs.dirs.Keys - {k.value} == old(fs).dirs.Keys - {k.value})
              && (k.Some? && rc == 0 ==> n !in fs.byId && k.value !in fs.dirs)
      ensures rc == 0 || rc == -1
    {
      NothingTouched(fs, {});
      if n == INVALID_ID {
        assert !faulty && Consistent(fs) ==> n !in fs.byId by {
          assert Consistent(fs) && n in fs.byId ==> LinkOk(fs, n);
        }
        return -1;
      }
      rc := DeleteListed(n, true, faulty);
      ghost var mid := fs;
      if !faulty && old(Consistent(fs)) {
        DropEdgesConsistent(old(fs), Listed(old(fs), PathForNode(old(fs), n), true));
      }
      var rc' := DeleteListed(n, false, faulty);
      if rc' != 0 { rc := -1; }
      NodeOnlyTouched(old(fs), mid, fs, n);
      if !faulty && old(Consistent(fs)) {
        DeleteNodeDrops(old(fs), mid, fs, n);
      }

      var dir := PathForNode(fs, n);
      var rmrfFails, unlinkFails := *, *;
      if dir.None? {
        rc := -1;
      } else if faulty && rmrfFails {
        var leftover: NodeDir := *;
        fs := fs.(dirs := fs.dirs[dir.value := leftover]);
        rc := -1;
      } else {
        fs := fs.(dirs := fs.dirs - {dir.value});
      }
      if n !in fs.byId || (faulty && unlinkFails) {
        rc := -1;
      } else {
        fs := fs.(byId := fs.byId - {n});
      }
    }

    /** next_node_id: `k` is how much of the update reached the counter file; when the file cannot
        be read the request fails. */
    method NextNodeId(readable: bool, k: Written) returns (n: Id)
      modifies this
      ensures if readable then (n, fs.nodeFile) == TakeId(old(fs).nodeFile, k) && n == IdOfStr(old(fs).nodeFile)
              else n == INVALID_ID && fs.nodeFile == old(fs).nodeFile
      ensures fs == old(fs).(nodeFile := fs.nodeFile)
    {
      if !readable {
        return INVALID_ID;
      }
      n := IdOfStr(fs.nodeFile);
      if n == INVALID_ID {
        return INVALID_ID;
      }
      fs := fs.(nodeFile := Overwrite(fs.nodeFile, StrOfId(n + 1), k));
    }

    /** next_edge_id */
    method NextEdgeId(readable: bool, k: Written) returns (e: Id)
      modifies this
      ensures if readable then (e, fs.edgeFile) == TakeId(old(fs).edgeFile, k) && e == IdOfStr(old(fs).edgeFile)
              else e == INVALID_ID && fs.edgeFile == old(fs).edgeFile
      ensures fs == old(fs).(edgeFile := fs.edgeFile)
    {
      if !readable {
        return INVALID_ID;
      }
      e := IdOfStr(fs.edgeFile);
      if e == INVALID_ID {
        return INVALID_ID;
      }
      fs := fs.(edgeFile := Overwrite(fs.edgeFile, StrOfId(e + 1), k));
    }

    /** measurement_node_add_data: the data file is written over in place.  `stored` is how many
        bytes were written, None when the file could not be created. */
    method AddData(n: Id, typ: Magic, bytes: string, stored: Option<nat>) returns (rc: int)
      requires stored.Some? ==> stored.value <= |bytes|
      modifies this
      ensures rc == 0 <==>
              && n != INVALID_ID && |bytes| < 0x8000_0000_0000_0000
              && PathForNode(old(fs), n).Some? && stored == Some(|bytes|)
      ensures fs == DataWritten(old(fs), n, typ, bytes, stored)
      ensures rc == 0 ==>
                (DatumOf(fs, n, typ) == Some(bytes)
                 <==> (DatumOf(old(fs), n, typ).Some? ==> |DatumOf(old(fs), n, typ).value| <= |bytes|))
      ensures forall m, other | PathForNode(old(fs), m) != PathForNode(old(fs), n) || other != typ ::
                DatumOf(fs, m, other) == DatumOf(old(fs), m, other)
    {
      if |bytes| <= SSIZE_MAX && PathForNode(fs, n).Some? { DataReadBack(fs, n, typ, bytes); }
      forall m, other | PathForNode(fs, m) != PathForNode(fs, n) || other != typ
        ensures DatumOf(DataWritten(fs, n, typ, bytes, stored), m, other) == DatumOf(fs, m, other)
      {
        OtherDataKept(fs, n, typ, bytes, stored, m, other);
      }
      if n == INVALID_ID || |bytes| > SSIZE_MAX {
        return -1;
      }
      var k := PathForNode(fs, n);
      if k.None? || stored.None? {
        return -1;
      }
      var before := if typ in fs.dirs[k.value].data then fs.dirs[k.value].data[typ] else "";
      fs := PutData(fs, k.value, typ, Overwrite(before, bytes, stored.value));
      rc := if stored.value < |bytes| then -1 else 0;
    }

    /** measurement_graph_add_node.  `data` is stored on a new node only, and its failure is
        ignored. */
    method AddNode(key: Key, data: Option<(Magic, string)>, f: NodeFault) returns (rc: int, out: Id)
      requires data.Some? && f.stored.Some? ==> f.stored.value <= |data.value.1|
      modifies this
      ensures old(Consistent(fs)) ==>
                && Consistent(fs)
                && match rc {
                     case 0 => key in old(fs).dirs && out == LoadNode(old(fs), Some(key)) && fs == old(fs)
                     case 1 =>
                       && key !in old(fs).dirs && out == IdOfStr(old(fs).nodeFile)
                       && out !in old(fs).byId && out != INVALID_ID
                       && fs == NodeAdded(old(fs), key, out, data, f)
                       && NodeIsNew(old(fs), fs, key, out, data, f.stored)
                     case _ =>
                       && rc < 0
                       && fs == old(fs).(nodeFile := fs.nodeFile)
                       && fs.nodeFile in {old(fs).nodeFile, TakeId(old(fs).nodeFile, f.written).1}
                   }
      ensures (old(Consistent(fs)) && f.Clean() && key !in old(fs).dirs
               && IdOfStr(old(fs).nodeFile) != INVALID_ID
               && IdOfStr(old(fs).nodeFile) !in old(fs).byId) ==> rc == 1
      ensures old(Consistent(fs)) && f.Clean() && key in old(fs).dirs ==> rc == 0
      ensures rc == 1 ==> f.Clean()
    {
      hide Consistent, TakeId, IdOfStr, DataWritten, NodeIsNew;
      out := INVALID_ID;
      if f.pathTooLong {
        return -ENAMETOOLONG, out;
      }
      if key in fs.dirs {
        KnownNode(fs, key);
        if fs.dirs[key].id.None? {
          return -EIO, out;
        }
        return 0, fs.dirs[key].id.value;
      }
      if f.mkdir {
        return -EIO, out;
      }
      fs := fs.(dirs := fs.dirs[key := NodeDir(None, {}, {}, map[])]);
      out := NextNodeId(!f.counterUnreadable, f.written);
      if out == INVALID_ID {
        fs := fs.(dirs := fs.dirs - {key});
        AddNodeUndone(old(fs), fs, key, f.written);
        return -EIO, out;
      }
      if out in fs.byId || f.symlink {
        fs := fs.(dirs := fs.dirs - {key});
        AddNodeUndone(old(fs), fs, key, f.written);
        return -EIO, out;
      }
      fs := fs.(byId := fs.byId[out := key]);
      if f.idFile {
        fs := fs.(byId := fs.byId - {out});
        fs := fs.(dirs := fs.dirs - {key});
        AddNodeUndone(old(fs), fs, key, f.written);
        return -EIO, out;
      }
      fs := fs.(dirs := fs.dirs[key := fs.dirs[key].(id := Some(out))]);
      ghost var bare := fs;
      if data.Some? {
        var _ := AddData(out, data.value.0, data.value.1, f.stored);
      }
      rc := 1;
      AddNodeDone(old(fs), bare, key, out, data, f);
      if old(Consistent(fs)) { NodeAddedIsNew(old(fs), key, out, data, f); }
    }

    /** measurement_graph_has_edge: scans the outbound directory of the source. */
    method HasEdge(src: Id, tag: Option<string>, dst: Id) returns (rc: int, out: Id)
      ensures Consistent(fs) ==> rc == 0 || rc == 1
      ensures Consistent(fs) && rc == 1 ==> Matches(fs, out, src, tag, dst)
      ensures Consistent(fs) && rc == 0 ==> NoMatch(fs, src, tag, dst)
      ensures rc < 0 ==> out == INVALID_ID
    {
      hide Consistent, IsAscii, ReadLabel;
      rc, out := 0, INVALID_ID;
      var dir := PathForNode(fs, src);
      if dir.None? {
        NoSourceNoMatch(fs, src, tag, dst);
        return;
      }
      ghost var all, done := fs.dirs[dir.value].outbound, {};
      var it := ListDir(fs.dirs[dir.value].outbound);
      while it.At?
        invariant done <= all && Lists(Pending(it), all - done)
        invariant Consistent(fs) ==> forall e | e in done :: !Matches(fs, e, src, tag, dst)
        decreases if it.At? then |it.rest| + 1 else 0
      {
        var e := it.name;
        assert Pending(it)[0] == e && Pending(it)[1..] == Names(it.rest);
        ListsMembers(Pending(it), all - done);
        OutboundEdge(fs, src, dir.value, e);
        var to := EdgeDestination(fs, e);
        if e == INVALID_ID || to == INVALID_ID {
          return -1, INVALID_ID;
        }
        if to == dst && EdgeLabel(fs, e) == tag {
          return 1, e;
        }
        ListsTail(Pending(it), all - done);
        done := done + {e};
        assert all - done == (all - (done - {e})) - {e};
        it := NextEntry(it.rest);
      }
      ListsMembers(Pending(it), all - done);
      assert done == all;
      OnlyOutboundMatch(fs, src, dir.value, tag, dst);
    }

    /** The first half of making an edge: the links and the label file in its own directory.  A link
        that is there already cannot be made. */
    method WriteEdgeFiles(e: Id, from: Option<Key>, tag: Option<string>, to: Option<Key>, f: EdgeFault)
      returns (ok: bool)
      requires e in fs.edges
      modifies this
      ensures e in fs.edges && fs == PutRec(old(fs), e, fs.edges[e])
      ensures ok ==> from.Some? && to.Some?
      ensures old(fs).edges[e].src.Some? ==> !ok && fs == old(fs)
      ensures old(fs).edges[e] == NEW_EDGE ==>
                && (ok <==> from.Some? && to.Some? && !f.srcLink && !f.destLink && !(tag.Some? && f.labelFile))
                && fs.edges[e].src in {None, from} && fs.edges[e].dest in {None, to}
                && (ok ==> fs.edges[e] == EdgeRec(from, to, tag))
    {
      assert fs.edges == fs.edges[e := fs.edges[e]];
      ok := from.Some? && !f.srcLink && fs.edges[e].src.None?;
      if ok {
        fs := PutRec(fs, e, fs.edges[e].(src := from));
        ok := to.Some? && !f.destLink && fs.edges[e].dest.None?;
      }
      if ok {
        fs := PutRec(fs, e, fs.edges[e].(dest := to));
        if tag.Some? {
          fs := PutRec(fs, e, fs.edges[e].(tag := tag));
          ok := !f.labelFile;
        }
      }
      assert fs.edges == old(fs).edges[e := fs.edges[e]];
    }

    /** measurement_graph_add_edge.  When creation fails part way, the new edge is deleted again.
        That leaves the graph as it was unless the counter had issued the id of a live edge: then
        it is the live edge that is deleted. */
    method AddEdge(src: Id, tag: Option<string>, dst: Id, f: EdgeFault) returns (rc: int, out: Id)
      modifies this
      ensures old(Consistent(fs)) ==>
                && Consistent(fs)
                && (rc == 0 || rc == -1)
                && (rc == 0 && out in old(fs).edges ==>
                      && fs == old(fs) && Matches(fs, out, src, tag, dst)
                      && EdgeSource(fs, out) == src && EdgeDestination(fs, out) == dst && EdgeLabel(fs, out) == tag)
                && (rc == 0 && out !in old(fs).edges ==>
                      && NoMatch(old(fs), src, tag, dst) && EdgeIsNew(old(fs), fs, out, src, tag, dst)
                      && out == IdOfStr(old(fs).edgeFile) && out != INVALID_ID
                      && PathForNode(old(fs), src).Some? && PathForNode(old(fs), dst).Some?
                      && fs == EdgeAdded(old(fs), out, src, tag, dst, f.written))
                && (rc == -1 ==>
                      && out == INVALID_ID && NoMatch(old(fs), src, tag, dst)
                      && (if EarlyFailure(old(fs), f) then fs == old(fs).(edgeFile := fs.edgeFile)
                          else fs == DropEdges(old(fs), {IdOfStr(old(fs).edgeFile)}).(edgeFile := fs.edgeFile))
                      && fs.edgeFile in {old(fs).edgeFile, TakeId(old(fs).edgeFile, f.written).1})
      ensures (old(Consistent(fs)) && f.Clean()
               && PathForNode(old(fs), src).Some? && PathForNode(old(fs), dst).Some?
               && IdOfStr(old(fs).edgeFile) != INVALID_ID
               && IdOfStr(old(fs).edgeFile) !in old(fs).edges) ==> rc == 0
      ensures old(Consistent(fs)) && rc == 0 && out !in old(fs).edges ==>
                f.Clean() || (tag.None? && f.(labelFile := false).Clean())
    {
      hide Consistent, TakeId, IdOfStr, NoMatch, Matches, EdgeIsNew;
      rc, out := HasEdge(src, tag, dst);
      if rc < 0 {
        return;
      }
      if rc > 0 {
        MatchIsLive(fs, out, src, tag, dst);
        return 0, out;
      }
      var e := NextEdgeId(!f.counterUnreadable, f.written);
      ghost var base := fs;
      if old(Consistent(fs)) {
        CounterTaken(old(fs), f.written);
        InvalidNotLive(base);
        assert Consistent(base);
      }
      if e == INVALID_ID || f.mkdir {
        return -1, INVALID_ID;
      }
      if e !in fs.edges {
        fs := PutRec(fs, e, NEW_EDGE);
      }
      ghost var linked := false;
      var from, to := PathForNode(fs, src), PathForNode(fs, dst);
      if old(Consistent(fs)) && e in base.edges { LiveEdgeHasSource(base, e); }
      var ok := WriteEdgeFiles(e, from, tag, to, f);
      assert e !in base.edges ==> fs == PartialEdge(base, e, fs.edges[e], false) by {
        if e !in base.edges { assert fs.edges == base.edges[e := fs.edges[e]]; }
      }
      if old(Consistent(fs)) && ok { FreshEdgeUnlisted(base, from.value, e); }
      if ok {
        ok := !f.outLink && e !in fs.dirs[from.value].outbound;
        if ok {
          fs := LinkOut(fs, from.value, e);
          linked := true;
        }
      }
      if old(Consistent(fs)) && ok { FreshEdgeUnlisted(base, to.value, e); }
      ghost var made := fs;
      if ok {
        ok := !f.inLink && e !in fs.dirs[to.value].inbound;
      }
      if ok {
        fs := LinkIn(fs, to.value, e);
        if old(Consistent(fs)) {
          PutEdgeConsistent(base, e, from.value, tag, to.value);
          EdgeAddedIsNew(old(fs), e, src, tag, dst, f.written);
        }
        return 0, e;
      }
      if old(Consistent(fs)) { AddEdgeUndone(base, fs, e, fs.edges[e], linked); }
      var _ := DeleteEdge(e, NO_FAULT);
      return -1, INVALID_ID;
    }
  }

  // ----- lemmas for the delete loops

  /** The entries of one edge directory of a node. */
  function Listed(fs: Fs, dir: Option<Key>, incoming: bool): set<Id> {
    if dir.None? || dir.value !in fs.dirs then {}
    else if incoming then fs.dirs[dir.value].inbound else fs.dirs[dir.value].outbound
  }

  lemma {:induction false} DropNothing(fs: Fs)
    ensures DropEdges(fs, {}) == fs
  {
    var d := DropEdges(fs, {});
    forall k | k in fs.dirs ensures d.dirs[k] == fs.dirs[k] {
      assert fs.dirs[k].inbound - {} == fs.dirs[k].inbound && fs.dirs[k].outbound - {} == fs.dirs[k].outbound;
    }
    assert d.dirs == fs.dirs && d.edges == fs.edges;
  }

  lemma {:induction false} EdgesShrink(a: Fs, b: Fs, e: Id)
    requires b.edges.Keys <= a.edges.Keys
    ensures |b.edges| <= |a.edges|
    ensures e in a.edges && e !in b.edges ==> |b.edges| < |a.edges|
  {
    SmallerSet(b.edges.Keys, a.edges.Keys);
    if e in a.edges && e !in b.edges { SmallerSet(b.edges.Keys, a.edges.Keys - {e}); }
  }

  lemma {:induction false} SmallerSet<T>(a: set<T>, b: set<T>)
    requires a <= b
    ensures |a| <= |b|
  {
    if x :| x in a { SmallerSet(a - {x}, b - {x}); }
  }

  lemma {:induction false} ListedEdgeDrops(fs: Fs, dir: Option<Key>, incoming: bool, gone: set<Id>, e: Id)
    requires Consistent(fs) && e in Listed(fs, dir, incoming) - gone
    ensures var now := DropEdges(fs, gone);
            && e != INVALID_ID && HasOutEntry(now, e) && HasInEntry(UnlinkOut(now, e), e)
            && EraseEdge(now, e) == DropEdges(fs, gone + {e})
            && Listed(EraseEdge(now, e), dir, incoming) == Listed(fs, dir, incoming) - (gone + {e})
  {
    hide Readable;
    var k := dir.value;
    assert if incoming then InOk(fs, k, e) else OutOk(fs, k, e);
    assert EdgeOk(fs, e);
    var now := DropEdges(fs, gone);
    DropEdgesConsistent(fs, gone);
    EraseIsDrop(now, e);
    DropTwice(fs, gone, {e});
  }

  lemma {:induction false} DeleteNodeDrops(fs: Fs, mid: Fs, end: Fs, n: Id)
    requires Consistent(fs)
    requires mid == DropEdges(fs, Listed(fs, PathForNode(fs, n), true))
    requires end == DropEdges(mid, Listed(mid, PathForNode(mid, n), false))
    ensures n !in fs.byId ==> end == fs && PathForNode(end, n) == None
    ensures n in fs.byId ==>
              && end == DropEdges(fs, Incident(fs, fs.byId[n]))
              && PathForNode(end, n) == Some(fs.byId[n])
  {
    hide Readable;
    if n in fs.byId {
      assert LinkOk(fs, n);
      var k := fs.byId[n];
      IncidentIsListed(fs, k);
      var ins, outs := fs.dirs[k].inbound, fs.dirs[k].outbound;
      DropTwice(fs, ins, outs - ins);
      assert ins + (outs - ins) == ins + outs;
    } else {
      DropNothing(fs);
    }
  }

  // ----- lemmas for the add operations

  lemma {:induction false} KnownNode(fs: Fs, key: Key)
    requires key in fs.dirs
    ensures Consistent(fs) ==> fs.dirs[key].id.Some?
  {
    assert Consistent(fs) ==> DirOk(fs, key);
  }

  lemma {:induction false} CounterTaken(fs: Fs, k: Written)
    requires Consistent(fs)
    ensures Consistent(fs.(nodeFile := TakeId(fs.nodeFile, k).1))
    ensures Consistent(fs.(edgeFile := TakeId(fs.edgeFile, k).1))
  {
    hide Readable;
    OtherCounters(fs, TakeId(fs.nodeFile, k).1, fs.edgeFile);
    OtherCounters(fs, fs.nodeFile, TakeId(fs.edgeFile, k).1);
    TakeReadable(fs.nodeFile, k);
    TakeReadable(fs.edgeFile, k);
  }

  lemma {:induction false} TakeReadable(file: string, k: Written)
    requires Readable(file)
    ensures Readable(TakeId(file, k).1)
  {
    hide TakeId, IdOfStr, IsCounter;
    TakeIdSpec(file, IdOfStr(file), k);
  }

  lemma {:induction false} OtherCounters(fs: Fs, nodeFile: string, edgeFile: string)
    requires NodesLinked(fs) && EdgesLinked(fs)
    ensures var fs' := fs.(nodeFile := nodeFile, edgeFile := edgeFile); NodesLinked(fs') && EdgesLinked(fs')
  {
    var fs' := fs.(nodeFile := nodeFile, edgeFile := edgeFile);
    SameNodes(fs, fs');
    forall e | e in fs'.edges ensures EdgeOk(fs', e) { assert EdgeOk(fs, e); }
    forall j, e | j in fs'.dirs && e in fs'.dirs[j].outbound ensures OutOk(fs', j, e) { assert OutOk(fs, j, e); }
    forall j, e | j in fs'.dirs && e in fs'.dirs[j].inbound ensures InOk(fs', j, e) { assert InOk(fs, j, e); }
  }

  lemma {:induction false} AddNodeUndone(fs: Fs, fs': Fs, key: Key, k: Written)
    requires fs'.edges == fs.edges && fs'.edgeFile == fs.edgeFile
    requires key !in fs.dirs && fs'.dirs.Keys == fs.dirs.Keys && fs'.byId.Keys == fs.byId.Keys
    requires forall j | j in fs.dirs :: fs'.dirs[j] == fs.dirs[j]
    requires forall n | n in fs.byId :: fs'.byId[n] == fs.byId[n]
    requires fs'.nodeFile == fs.nodeFile || fs'.nodeFile == TakeId(fs.nodeFile, k).1
    ensures fs' == fs.(nodeFile := fs'.nodeFile)
    ensures Consistent(fs) ==> Consistent(fs')
  {
    assert fs'.dirs == fs.dirs && fs'.byId == fs.byId;
    if Consistent(fs) { CounterTaken(fs, k); }
  }

  lemma {:induction false} AddNodeDone(fs: Fs, bare: Fs, key: Key, n: Id, data: Option<(Magic, string)>, f: NodeFault)
    requires data.Some? && f.stored.Some? ==> f.stored.value <= |data.value.1|
    requires key !in fs.dirs && n !in fs.byId && n != INVALID_ID
    requires bare == PutNode(fs.(nodeFile := TakeId(fs.nodeFile, f.written).1), key, n)
    ensures Consistent(fs) ==> Consistent(NodeAdded(fs, key, n, data, f))
  {
    if Consistent(fs) {
      CounterTaken(fs, f.written);
      PutNodeConsistent(fs.(nodeFile := bare.nodeFile), key, n);
      if data.Some? { DataWrittenConsistent(bare, n, data.value.0, data.value.1, f.stored); }
    }
  }

  lemma {:induction false} DataWrittenConsistent(fs: Fs, n: Id, typ: Magic, bytes: string, stored: Option<nat>)
    requires stored.Some? ==> stored.value <= |bytes|
    requires Consistent(fs)
    ensures Consistent(DataWritten(fs, n, typ, bytes, stored))
  {
    var k := PathForNode(fs, n);
    if |bytes| <= SSIZE_MAX && k.Some? && stored.Some? {
      var before := if typ in fs.dirs[k.value].data then fs.dirs[k.value].data[typ] else "";
      PutDataConsistent(fs, k.value, typ, Overwrite(before, bytes, stored.value));
    }
  }

  lemma {:induction false} ListsTail<T>(names: seq<T>, s: set<T>)
    requires names != [] && Lists(names, s)
    ensures Lists(names[1..], s - {names[0]})
  {
    assert forall n :: n in names <==> n == names[0] || n in names[1..];
    ListsMembers(names, s);
  }

  lemma {:induction false} SourceOfEdge(fs: Fs, e: Id)
    requires Consistent(fs) && e in fs.edges
    ensures var n := EdgeSource(fs, e); PathForNode(fs, n) == fs.edges[e].src
    ensures EdgeDestination(fs, e) != INVALID_ID && e != INVALID_ID
  {
    hide Readable;
    assert EdgeOk(fs, e);
    NodeOfKey(fs, fs.edges[e].src.value);
    NodeOfKey(fs, fs.edges[e].dest.value);
  }

  lemma {:induction false} NoSourceNoMatch(fs: Fs, src: Id, tag: Option<string>, dst: Id)
    requires PathForNode(fs, src).None?
    ensures Consistent(fs) ==> NoMatch(fs, src, tag, dst)
  {
    hide Readable;
    if Consistent(fs) {
      forall e | e in fs.edges ensures !Matches(fs, e, src, tag, dst) {
        SourceOfEdge(fs, e);
        assert EdgeOk(fs, e);
      }
    }
  }

  lemma {:induction false} OutboundEdge(fs: Fs, src: Id, k: Key, e: Id)
    requires PathForNode(fs, src) == Some(k) && e in fs.dirs[k].outbound
    ensures Consistent(fs) ==> e in fs.edges && EdgeSource(fs, e) == src && e != INVALID_ID
                               && EdgeDestination(fs, e) != INVALID_ID
  {
    hide Readable;
    if Consistent(fs) {
      assert OutOk(fs, k, e);
      SourceOfEdge(fs, e);
      assert LinkOk(fs, src);
    }
  }

  lemma {:induction false} OnlyOutboundMatch(fs: Fs, src: Id, k: Key, tag: Option<string>, dst: Id)
    requires PathForNode(fs, src) == Some(k)
    requires Consistent(fs) ==> forall e | e in fs.dirs[k].outbound :: !Matches(fs, e, src, tag, dst)
    ensures Consistent(fs) ==> NoMatch(fs, src, tag, dst)
  {
    hide Readable, ReadLabel;
    if Consistent(fs) {
      forall e | e in fs.edges ensures !Matches(fs, e, src, tag, dst) {
        SourceOfEdge(fs, e);
        assert EdgeOk(fs, e);
      }
    }
  }

  lemma {:induction false} MatchIsLive(fs: Fs, e: Id, src: Id, tag: Option<string>, dst: Id)
    ensures Matches(fs, e, src, tag, dst) ==>
              e in fs.edges && EdgeSource(fs, e) == src && EdgeDestination(fs, e) == dst && EdgeLabel(fs, e) == tag
  {
  }

  lemma {:induction false} InvalidNotLive(fs: Fs)
    requires Consistent(fs)
    ensures INVALID_ID !in fs.edges
  {
    assert INVALID_ID in fs.edges ==> EdgeOk(fs, INVALID_ID);
  }

  lemma {:induction false} LiveEdgeHasSource(fs: Fs, e: Id)
    requires Consistent(fs) && e in fs.edges
    ensures fs.edges[e].src.Some?
  {
    assert EdgeOk(fs, e);
  }

  lemma {:induction false} FreshEdgeUnlisted(fs: Fs, k: Key, e: Id)
    requires Consistent(fs) && k in fs.dirs && e !in fs.edges
    ensures e !in fs.dirs[k].outbound && e !in fs.dirs[k].inbound
  {
    assert e in fs.dirs[k].outbound ==> OutOk(fs, k, e);
    assert e in fs.dirs[k].inbound ==> InOk(fs, k, e);
  }

  /** What the rollback of an add-edge call deletes. */
  lemma {:induction false} AddEdgeUndone(base: Fs, made: Fs, e: Id, rec: EdgeRec, linked: bool)
    requires Consistent(base) && e != INVALID_ID
    requires if e in base.edges then made == base
             else
               && (rec.src.Some? ==> rec.src.value in base.dirs)
               && (rec.dest.Some? ==> rec.dest.value in base.dirs)
               && (linked ==> rec.src.Some?)
               && made == PartialEdge(base, e, rec, linked)
    ensures EraseEdge(made, e) == if e in base.edges then DropEdges(base, {e}) else base
    ensures Consistent(EraseEdge(made, e))
  {
    if e in base.edges {
      EraseIsDrop(base, e);
      DropEdgesConsistent(base, {e});
    } else {
      EraseRollsBack(base, e, rec, linked);
    }
  }
}
