/** How a node directory's path encodes a measurement variable (lib/graph/graph-fs-nodes.c): the
    path is built from the target type's and address space's magic numbers and the serialized
    address, and taken apart again by scanning for slashes from its end. */
module NodePath {
  import opened Options
  import opened CStrings
  import opened Ids
  import opened GraphStore

  // ----- '/' in serialized addresses

  function Replace(s: string, from: char, to: char): (r: string)
    ensures |r| == |s|
    ensures forall i | 0 <= i < |s| :: r[i] == if s[i] == from then to else s[i]
  {
    seq(|s|, i requires 0 <= i < |s| => if s[i] == from then to else s[i])
  }

  function Pathify(s: string): string {
    Replace(s, '/', '_')
  }

  function Unpathify(s: string): string {
    Replace(s, '_', '/')
  }

  /** Rewrites a NUL-terminated buffer in place; `pathify_b64` and `unpathify_b64` differ in the
      two characters only. */
  method ReplaceInPlace(buf: array<char>, len: nat, from: char, to: char)
    requires len < buf.Length && buf[len] == '\0' && '\0' !in buf[..len]
    requires from != '\0' && to != '\0'
    modifies buf
    ensures buf[..len] == Replace(old(buf[..len]), from, to)
    ensures buf[len..] == old(buf[len..])
  {
    assert forall j | 0 <= j < len :: buf[..len][j] != '\0';
    var i := 0;
    while buf[i] != '\0'
      invariant 0 <= i <= len
      invariant forall j | 0 <= j < i :: buf[j] == if old(buf[j]) == from then to else old(buf[j])
      invariant forall j | i <= j < buf.Length :: buf[j] == old(buf[j])
      decreases len - i
    {
      assert i != len;
      if buf[i] == from {
        buf[i] := to;
      }
      i := i + 1;
    }
  }

  /** Unpathify undoes pathify for exactly the addresses without '_' ... */
  lemma {:induction false} PathifyInverse(a: string)
    ensures Unpathify(Pathify(a)) == a <==> '_' !in a
  {
    if '_' in a {
      var i :| 0 <= i < |a| && a[i] == '_';
      assert Unpathify(Pathify(a))[i] == '/';
    }
  }

  /** ... and pathify undoes unpathify for exactly the path components, which have no '/'. */
  lemma {:induction false} UnpathifyInverse(p: string)
    ensures Pathify(Unpathify(p)) == p <==> '/' !in p
  {
    if '/' in p {
      var i :| 0 <= i < |p| && p[i] == '/';
      assert Pathify(Unpathify(p))[i] == '_';
    }
  }

  // ----- building and taking apart

  function KeyOf(typ: Magic, space: Magic, addr: string): Key {
    Key(typ, space, Pathify(addr))
  }

  function PathOf(graph: string, key: Key): string {
    graph + "/nodes" + "/" + HexDigits(key.typ, 8) + "/" + HexDigits(key.space, 8) + "/" + key.addr
  }

  /** The slash at which the backward scan stops: from the terminator towards the second character,
      until `want` slashes were seen; -1 when the path has too few. */
  function ScanBack(path: string, start: int, want: nat): (i: int)
    requires start <= |path|
    decreases start
  {
    if want == 0 then start + 1
    else if start <= 0 then -1
    else ScanBack(path, start - 1, if start < |path| && path[start] == '/' then want - 1 else want)
  }

  method FindSlash(path: string, want: nat) returns (i: int)
    ensures i == ScanBack(path, |path|, want)
  {
    var start, count: nat := |path|, 0;
    while count < want && start > 0
      invariant 0 <= start <= |path| && count <= want
      invariant ScanBack(path, start, want - count) == ScanBack(path, |path|, want)
      decreases start
    {
      if start < |path| && path[start] == '/' {
        count := count + 1;
      }
      start := start - 1;
    }
    i := if count < want then -1 else start + 1;
  }

  /** The magic number after the slash found by the scan. */
  function MagicAt(path: string, want: nat): Option<Magic> {
    var i := ScanBack(path, |path|, want);
    if !(0 <= i < |path|) then None
    else
      var r := ScanHex(path[i + 1..], 8);
      if r.0 && r.1 < TWO32 then Some(r.1) else None
  }

  /** The address text: everything after the last slash. */
  function AddressAt(path: string): Option<string> {
    var i := ScanBack(path, |path|, 1);
    if 0 <= i < |path| then Some(Unpathify(path[i + 1..])) else None
  }

  predicate SlashFree(s: string) {
    '/' !in s
  }

  /** Scanning back over a slash-free stretch `s` and the slash before it uses up one slash. */
  lemma {:induction false} ScanOver(path: string, p: string, s: string, rest: string, start: int, want: nat)
    requires path == p + "/" + s + rest && p != "" && SlashFree(s) && want > 0
    requires |p| <= start <= |p| + |s| || (rest == "" && start == |path|)
    ensures ScanBack(path, start, want) == ScanBack(path, |p| - 1, want - 1)
    decreases start
  {
    if start == |p| {
      assert path[start] == '/';
    } else {
      if start < |path| {
        assert path[start] == s[start - |p| - 1];
        assert s[start - |p| - 1] != '/';
      }
      ScanOver(path, p, s, rest, start - 1, want);
    }
  }

  lemma {:induction false} HexSlashFree(n: nat, width: nat)
    ensures SlashFree(HexDigits(n, width))
  {
    var s := HexDigits(n, width);
    assert forall i | 0 <= i < |s| :: s[i] != '/';
  }

  lemma {:induction false} ScanMagic(n: Magic, rest: string)
    ensures ScanHex(HexDigits(n, 8) + rest, 8) == (true, n)
  {
    var d := HexDigits(n, 8);
    Pow16Is64Bits();
    ScanDigits(n, 8, 8);
    ScanPlain(d, 8);
    ScanPrefix(d, rest);
  }

  lemma {:induction false} ScanPrefix(d: string, rest: string)
    requires d != "" && forall i | 0 <= i < |d| :: IsLowerHex(d[i])
    ensures ScanField(d + rest, |d|) == ScanField(d, |d|)
  {
    var first := d[0];
    assert IsLowerHex(first) && !IsSpace(first) && (d + rest)[0] == first;
    assert (d + rest)[..|d|] == d;
  }

  lemma {:induction false} ScanThree(p: string, t: string, s: string, a: string)
    requires p != "" && SlashFree(t) && SlashFree(s) && SlashFree(a)
    ensures var path := p + "/" + t + "/" + s + "/" + a;
            && ScanBack(path, |path|, 3) == |p| && path[|p| + 1..] == t + ("/" + s + "/" + a)
            && ScanBack(path, |path|, 2) == |p| + 1 + |t| && path[|p| + |t| + 2..] == s + ("/" + a)
            && ScanBack(path, |path|, 1) == |p| + |t| + |s| + 2 && path[|p| + |t| + |s| + 3..] == a
  {
    hide SlashFree;
    var path := p + "/" + t + "/" + s + "/" + a;
    var p2 := p + "/" + t;
    var p3 := p2 + "/" + s;
    var after := "/" + s + "/" + a;
    assert path == p3 + "/" + a + "" && path == p2 + "/" + s + ("/" + a) && path == p + "/" + t + after;
    ScanOver(path, p3, a, "", |path|, 1);
    ScanOver(path, p3, a, "", |path|, 2);
    ScanOver(path, p3, a, "", |path|, 3);
    ScanOver(path, p2, s, "/" + a, |p3| - 1, 1);
    ScanOver(path, p2, s, "/" + a, |p3| - 1, 2);
    ScanOver(path, p, t, after, |p2| - 1, 1);
  }

  /** From the path built for a variable the scans recover exactly its two magic numbers and its
      address component, whatever the graph's own path is. */
  lemma {:induction false} PathRecovers(graph: string, key: Key)
    requires SlashFree(key.addr)
    ensures MagicAt(PathOf(graph, key), 3) == Some(key.typ)
    ensures MagicAt(PathOf(graph, key), 2) == Some(key.space)
    ensures AddressAt(PathOf(graph, key)) == Some(Unpathify(key.addr))
  {
    hide HexDigits, ScanHex, SlashFree, ScanBack;
    var path, typ, space := PathOf(graph, key), HexDigits(key.typ, 8), HexDigits(key.space, 8);
    HexSlashFree(key.typ, 8);
    HexSlashFree(key.space, 8);
    ScanThree(graph + "/nodes", typ, space, key.addr);
    ScanMagic(key.space, "/" + key.addr);
    ScanMagic(key.typ, "/" + space + "/" + key.addr);
  }

  lemma {:induction false} PathifySlashFree(a: string)
    ensures SlashFree(Pathify(a))
  {
    assert forall i | 0 <= i < |a| :: Pathify(a)[i] != '/';
  }

  /** Two variables share a node directory exactly when their magics agree and their addresses
      agree up to '/' and '_'; with addresses free of '_', exactly when they are equal. */
  lemma {:induction false} DistinctPaths(graph: string, t1: Magic, s1: Magic, a1: string, t2: Magic, s2: Magic,
                                         a2: string)
    ensures PathOf(graph, KeyOf(t1, s1, a1)) == PathOf(graph, KeyOf(t2, s2, a2))
            <==> t1 == t2 && s1 == s2 && Pathify(a1) == Pathify(a2)
    ensures '_' !in a1 && '_' !in a2 && Pathify(a1) == Pathify(a2) ==> a1 == a2
  {
    hide HexDigits, ScanHex, ScanBack, MagicAt, AddressAt, PathOf;
    var k1, k2 := KeyOf(t1, s1, a1), KeyOf(t2, s2, a2);
    PathifyInverse(a1);
    PathifyInverse(a2);
    if PathOf(graph, k1) == PathOf(graph, k2) {
      PathifySlashFree(a1);
      PathifySlashFree(a2);
      UnpathifyInverse(k1.addr);
      UnpathifyInverse(k2.addr);
      PathRecovers(graph, k1);
      PathRecovers(graph, k2);
    }
  }
}
