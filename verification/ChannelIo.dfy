/** Length-prefixed messages over a byte stream (lib/util/maat-io.c).

    A channel is the whole stream that is ever written to it and a read position.  What each
    system call does is given by a schedule of events, so that every pattern of short reads, short
    writes, retries, end of file, errors and timeouts is covered; a reader that finds nothing yet
    sees a retry, so reading while the other side is still writing is covered too. */
module ChannelIo {
  import opened Bytes

  type Errno = e: nat | e > 0 witness 1

  const EAGAIN: int := 11
  const EINVAL: int := 22
  const EMSGSIZE: int := 90
  const UINT32_MAX: nat := 0xffff_ffff

  // ----- frames

  /** A 32-bit number in big-endian order. */
  function Be32(n: nat): (h: seq<byte>)
    requires n <= UINT32_MAX
    ensures |h| == 4
  {
    [n / 0x100_0000, n / 0x1_0000 % 256, n / 0x100 % 256, n % 256]
  }

  function FromBe32(h: seq<byte>): nat
    requires |h| == 4
  {
    ((h[0] as nat * 256 + h[1]) * 256 + h[2]) * 256 + h[3]
  }

  lemma {:induction false} Be32RoundTrip(n: nat)
    requires n <= UINT32_MAX
    ensures FromBe32(Be32(n)) == n
    ensures var h := Be32(n);
            n == 0x100_0000 * (h[0] as nat) + 0x1_0000 * (h[1] as nat) + 0x100 * (h[2] as nat) + h[3] as nat
  {
    var q := n / 0x100;
    assert n / 0x1_0000 == q / 0x100 && n / 0x100_0000 == q / 0x1_0000;
  }

  lemma {:induction false} FromBe32RoundTrip(h: seq<byte>)
    requires |h| == 4
    ensures FromBe32(h) <= UINT32_MAX && Be32(FromBe32(h)) == h
  {
    var b: nat := h[0] as nat * 256 + h[1];
    var c: nat := b * 256 + h[2];
    var n := FromBe32(h);
    assert n == c * 256 + h[3] && n / 0x100 == c && n % 256 == h[3];
    assert n / 0x1_0000 == c / 0x100 == b && c % 256 == h[2];
    assert n / 0x100_0000 == b / 0x100 == h[0] && b % 256 == h[1];
  }

  type Payload = p: seq<byte> | |p| <= UINT32_MAX

  function Frame(p: Payload): seq<byte> {
    Be32(|p|) + p
  }

  function Frames(ps: seq<Payload>): seq<byte> {
    if ps == [] then [] else Frame(ps[0]) + Frames(ps[1..])
  }

  lemma {:induction false} FramesAppend(ps: seq<Payload>, p: Payload)
    ensures Frames(ps + [p]) == Frames(ps) + Frame(p)
  {
    if ps == [] {
      assert ps + [p] == [p] && Frames([p]) == Frame(p) + Frames([p][1..]);
    } else {
      FramesAppend(ps[1..], p);
      assert (ps + [p])[1..] == ps[1..] + [p];
    }
  }

  /** A stream that starts with two frames starts with the same payload. */
  lemma {:induction false} FrameHead(p: Payload, q: Payload, x: seq<byte>, y: seq<byte>)
    requires Frame(p) + x == Frame(q) + y
    ensures p == q && x == y
  {
    Be32RoundTrip(|p|);
    Be32RoundTrip(|q|);
    assert (Frame(p) + x)[..4] == Be32(|p|) && (Frame(q) + y)[..4] == Be32(|q|);
    assert p == (Frame(p) + x)[4..4 + |p|] && q == (Frame(q) + y)[4..4 + |q|];
    assert x == (Frame(p) + x)[4 + |p|..] && y == (Frame(q) + y)[4 + |q|..];
  }

  /** Whatever complete frames a reader takes from a stream of complete frames followed by part of
      one more, are the payloads sent, in order, and the reader stands on a frame boundary. */
  lemma {:induction false} FramesDecode(sent: seq<Payload>, torn: Payload, k: nat, got: seq<Payload>, rest: seq<byte>)
    requires k < |Frame(torn)| && Frames(sent) + Frame(torn)[..k] == Frames(got) + rest
    ensures got <= sent && rest == Frames(sent[|got|..]) + Frame(torn)[..k]
  {
    if got == [] {
      assert sent[0..] == sent;
    } else if sent == [] {
      assert Frames(sent) + Frame(torn)[..k] == Frame(torn)[..k];
      assert Frames(got) + rest == Frame(got[0]) + (Frames(got[1..]) + rest);
      FrameInPart(torn, k, got[0], Frames(got[1..]) + rest);
      assert false;
    } else {
      var x, y := Frames(sent[1..]) + Frame(torn)[..k], Frames(got[1..]) + rest;
      assert Frame(sent[0]) + x == Frames(sent) + Frame(torn)[..k];
      assert Frame(got[0]) + y == Frames(got) + rest;
      FrameHead(sent[0], got[0], x, y);
      FramesDecode(sent[1..], torn, k, got[1..], rest);
      assert sent == [sent[0]] + sent[1..] && got == [got[0]] + got[1..];
      assert sent[|got|..] == sent[1..][|got[1..]|..];
    }
  }

  /** A complete frame at the start of part of a frame is that frame. */
  lemma {:induction false} FrameInPart(torn: Payload, k: nat, p: Payload, rest: seq<byte>)
    requires k <= |Frame(torn)| && Frame(torn)[..k] == Frame(p) + rest
    ensures k == |Frame(torn)|
  {
    Be32RoundTrip(|p|);
    Be32RoundTrip(|torn|);
    assert |Frame(torn)[..k]| >= 4;
    assert Frame(torn)[..k][..4] == Be32(|torn|);
    assert (Frame(p) + rest)[..4] == Be32(|p|);
  }

  // ----- schedules

  datatype Wait = Ready | ClockFails | OutOfTime | WaitFails(code: Errno) | WaitTimesOut
  datatype ReadEvent = ReadFails | EndOfFile | ReadAgain(after: Wait) | Got(amount: nat, next: Wait)

  /** What the time check and the wait after a read return; 0 to go on. */
  function WaitCode(w: Wait): (code: int)
    ensures code <= 0 && (code == 0 <==> w.Ready?)
  {
    match w
    case Ready => 0
    case ClockFails => -1
    case OutOfTime => -EAGAIN
    case WaitFails(code) => 0 - code
    case WaitTimesOut => -EAGAIN
  }

  datatype Clock = Fine | PostFails(code: Errno) | Expired
  datatype WriteEvent = NotReady(code: Errno) | NeverReady | WriteFails(code: Errno) | Put(amount: nat, after: Clock)

  /** The O_NONBLOCK flag of a descriptor, or that its flags cannot be read. */
  datatype Mode = Blocking | NonBlocking | Unreadable

  /** A schedule in which nothing goes wrong; reads may be short or find nothing yet. */
  predicate Steady(events: seq<ReadEvent>) {
    forall i | 0 <= i < |events| ::
      (events[i].Got? && events[i].next.Ready?) || (events[i].ReadAgain? && events[i].after.Ready?)
  }

  /** How many bytes the reads of a schedule would take together. */
  function Total(events: seq<ReadEvent>): nat {
    if events == [] then 0
    else
      var last := events[|events| - 1];
      Total(events[..|events| - 1]) + if last.Got? then last.amount else 0
  }

  lemma {:induction false} TotalNone(events: seq<ReadEvent>)
    ensures Total(events[..0]) == 0 && Steady(events[..0])
  {}

  lemma {:induction false} TotalNext(events: seq<ReadEvent>, i: nat)
    requires i < |events|
    ensures Total(events[..i + 1]) == Total(events[..i]) + if events[i].Got? then events[i].amount else 0
    ensures Steady(events) ==>
              (events[i].Got? && events[i].next.Ready?) || (events[i].ReadAgain? && events[i].after.Ready?)
  {
    assert events[..i + 1][..i] == events[..i] && events[..i + 1][i] == events[i];
  }

  lemma {:induction false} SteadyNext(events: seq<ReadEvent>, i: nat)
    requires i < |events| && Steady(events[..i])
    requires (events[i].Got? && events[i].next.Ready?) || (events[i].ReadAgain? && events[i].after.Ready?)
    ensures Steady(events[..i + 1])
  {
    assert forall j | 0 <= j < i :: events[..i + 1][j] == events[..i][j];
  }

  /** How many bytes the first `k` events bring of `len` bytes asked for, with `avail` to be had. */
  function Brought(events: seq<ReadEvent>, k: nat, len: nat, avail: nat): (n: nat)
    requires k <= |events|
    ensures n <= len && n <= avail
  {
    Min(Min(Total(events[..k]), len), avail)
  }

  /** How a read can end: at the `k`-th event, the first that is out of the ordinary or comes after
      enough bytes, or after all of them. */
  ghost predicate ReadEnds(events: seq<ReadEvent>, k: nat, len: nat, avail: nat, rc: int, count: nat, eof: bool)
    requires k <= |events|
  {
    var before := Brought(events, k, len, avail);
    Steady(events[..k]) &&
    if before == len then rc == 0 && count == len && !eof
    else if k == |events| then rc == -EAGAIN && count == before && !eof
    else
      match events[k]
      case ReadFails => rc == -1 && count == before && !eof
      case EndOfFile => rc == 0 && count == before && eof
      case ReadAgain(w) => WaitEnds(w, rc) && count == before && !eof
      case Got(_, w) =>
        && count == Brought(events, k + 1, len, avail) && !eof
        && (if count == len then rc == 0 else WaitEnds(w, rc))
  }

  ghost predicate ReadResult(events: seq<ReadEvent>, len: nat, avail: nat, rc: int, count: nat, eof: bool) {
    exists k | 0 <= k <= |events| :: ReadEnds(events, k, len, avail, rc, count, eof)
  }

  lemma {:induction false} BroughtNext(events: seq<ReadEvent>, i: nat, len: nat, avail: nat)
    requires i < |events|
    ensures var n := Brought(events, i, len, avail);
            Brought(events, i + 1, len, avail)
            == if events[i].Got? then n + Min(Min(events[i].amount, len - n), avail - n) else n
    ensures Steady(events) ==>
              (events[i].Got? && events[i].next.Ready?) || (events[i].ReadAgain? && events[i].after.Ready?)
  {
    TotalNext(events, i);
  }

  lemma {:induction false} NoneBrought(events: seq<ReadEvent>, len: nat, avail: nat)
    ensures Brought(events, 0, len, avail) == 0 && Steady(events[..0])
  {
    TotalNone(events);
  }

  lemma {:induction false} AllBrought(events: seq<ReadEvent>, len: nat, avail: nat)
    ensures Brought(events, |events|, len, avail) == Min(Min(Total(events), len), avail)
  {
    assert events[..|events|] == events;
  }

  lemma {:induction false} EndsFull(events: seq<ReadEvent>, k: nat, len: nat, avail: nat)
    requires k <= |events| && Steady(events[..k]) && Brought(events, k, len, avail) == len
    ensures ReadResult(events, len, avail, 0, len, false)
  {
    assert ReadEnds(events, k, len, avail, 0, len, false);
  }

  lemma {:induction false} EndsAt(events: seq<ReadEvent>, k: nat, len: nat, avail: nat)
    requires k <= |events| && Steady(events[..k]) && Brought(events, k, len, avail) < len
    ensures var n := Brought(events, k, len, avail);
            && (k == |events| ==> ReadResult(events, len, avail, -EAGAIN, n, false))
            && (k < |events| && events[k].ReadFails? ==> ReadResult(events, len, avail, -1, n, false))
            && (k < |events| && events[k].EndOfFile? ==> ReadResult(events, len, avail, 0, n, true))
  {
    var n := Brought(events, k, len, avail);
    if k == |events| {
      assert ReadEnds(events, k, len, avail, -EAGAIN, n, false);
    } else if events[k].ReadFails? {
      assert ReadEnds(events, k, len, avail, -1, n, false);
    } else if events[k].EndOfFile? {
      assert ReadEnds(events, k, len, avail, 0, n, true);
    }
  }

  lemma {:induction false} EndsAfter(events: seq<ReadEvent>, k: nat, len: nat, avail: nat)
    requires k < |events| && Steady(events[..k]) && Brought(events, k, len, avail) < len
    requires events[k].Got? || events[k].ReadAgain?
    ensures var n := Brought(events, k + 1, len, avail);
            var code := WaitCode(if events[k].Got? then events[k].next else events[k].after);
            && (n == len ==> ReadResult(events, len, avail, 0, n, false))
            && (n < len && code < 0 ==> ReadResult(events, len, avail, code, n, false))
            && (n < len && code == 0 ==> Steady(events[..k + 1]))
  {
    var n := Brought(events, k + 1, len, avail);
    var code := WaitCode(if events[k].Got? then events[k].next else events[k].after);
    TotalNext(events, k);
    if n == len {
      assert ReadEnds(events, k, len, avail, 0, n, false);
    } else if code < 0 {
      assert ReadEnds(events, k, len, avail, code, n, false);
    } else {
      SteadyNext(events, k);
    }
  }

  /** What a time check or a wait that does not let the call go on makes it return. */
  ghost predicate WaitEnds(w: Wait, rc: int) {
    match w
    case Ready => false
    case ClockFails => rc == -1
    case OutOfTime => rc == -EAGAIN
    case WaitFails(code) => rc == 0 - code
    case WaitTimesOut => rc == -EAGAIN
  }

  /** And a write of `len` bytes. */
  ghost predicate WriteEnds(events: seq<WriteEvent>, k: nat, len: nat, rc: int, count: nat)
    requires k <= |events|
  {
    var before := Min(TotalPut(events[..k]), len);
    SteadyPut(events[..k]) &&
    if before == len then rc == 0 && count == len
    else if k == |events| then rc == -EAGAIN && count == before
    else
      match events[k]
      case NotReady(code) => rc == 0 - code && count == before
      case NeverReady => rc == -EAGAIN && count == before
      case WriteFails(code) => rc == 0 - code && count == before
      case Put(amount, after) =>
        && count == Min(TotalPut(events[..k]) + amount, len)
        && (if count == len then rc == 0
            else !after.Fine? && rc == if after.Expired? then -EAGAIN else 0 - after.code)
  }

  ghost predicate WriteResult(events: seq<WriteEvent>, len: nat, rc: int, count: nat) {
    exists k | 0 <= k <= |events| :: WriteEnds(events, k, len, rc, count)
  }

  /** The same for writes, which may be short or take nothing. */
  predicate SteadyPut(events: seq<WriteEvent>) {
    forall i | 0 <= i < |events| :: events[i].Put? && events[i].after.Fine?
  }

  function TotalPut(events: seq<WriteEvent>): nat {
    if events == [] then 0
    else
      var last := events[|events| - 1];
      TotalPut(events[..|events| - 1]) + if last.Put? then last.amount else 0
  }

  lemma {:induction false} TotalPutNone(events: seq<WriteEvent>)
    ensures TotalPut(events[..0]) == 0 && SteadyPut(events[..0])
  {}

  lemma {:induction false} TotalPutNext(events: seq<WriteEvent>, i: nat)
    requires i < |events|
    ensures TotalPut(events[..i + 1]) == TotalPut(events[..i]) + if events[i].Put? then events[i].amount else 0
    ensures SteadyPut(events) ==> events[i].Put? && events[i].after.Fine?
  {
    assert events[..i + 1][..i] == events[..i] && events[..i + 1][i] == events[i];
  }

  lemma {:induction false} SteadyPutNext(events: seq<WriteEvent>, i: nat)
    requires i < |events| && SteadyPut(events[..i]) && events[i].Put? && events[i].after.Fine?
    ensures SteadyPut(events[..i + 1])
  {
    assert forall j | 0 <= j < i :: events[..i + 1][j] == events[..i][j];
  }

  function Min(a: nat, b: nat): nat {
    if a < b then a else b
  }

  lemma {:induction false} SplitAt<T>(s: seq<T>, a: nat, b: nat)
    requires a <= b <= |s|
    ensures s[a..] == s[a..b] + s[b..]
  {
  }

  /** The first `count` places of a buffer hold what the stream has from `start` on; the others are as
      they were. */
  predicate Filled(buf: seq<byte>, stream: seq<byte>, start: nat, count: nat, was: seq<byte>) {
    && count <= |buf| == |was| && start + count <= |stream|
    && buf[..count] == stream[start..start + count] && buf[count..] == was[count..]
  }

  lemma {:induction false} NoneFilled(buf: seq<byte>, stream: seq<byte>, start: nat)
    requires start <= |stream|
    ensures Filled(buf, stream, start, 0, buf)
  {}

  class Channel {
    var stream: seq<byte>
    var position: nat
    var mode: Mode

    ghost predicate Valid()
      reads this
    {
      position <= |stream|
    }

    ghost function Unread(): seq<byte>
      requires Valid()
      reads this
    {
      stream[position..]
    }

    constructor (mode: Mode)
      ensures Valid() && stream == [] && position == 0 && this.mode == mode
    {
      stream, position, this.mode := [], 0, mode;
    }

    /** maat_io_channel_new: meant to make a channel non-blocking, it sets the flag only where it is
        set already, so the mode never changes. */
    method Prepare(settable: bool) returns (ok: bool)
      modifies this`mode
      ensures mode == old(mode)
      ensures ok <==> mode == Blocking || (mode == NonBlocking && settable)
    {
      if mode == Unreadable {
        return false;
      }
      if mode == NonBlocking {
        if !settable {
          return false;
        }
        mode := NonBlocking;
      }
      ok := true;
    }

    /** check_nonblocking: positive for a blocking channel. */
    method CheckNonblocking() returns (r: int)
      ensures r > 0 <==> mode == Blocking
    {
      match mode {
        case Unreadable => return -1;
        case Blocking => return 1;
        case NonBlocking => return 0;
      }
    }

    /** maat_read.  However it ends, the count reported is the number of bytes consumed, and they
        are in the buffer in order; it succeeds without end of file only with a full buffer, and
        does so whenever nothing goes wrong and there are enough bytes.  A channel that is not
        blocking is always refused. */
    method Read(buf: array<byte>, clock: bool, events: seq<ReadEvent>) returns (rc: int, count: nat, eof: bool)
      requires Valid()
      modifies this`position, buf
      ensures Valid() && stream == old(stream) && count <= buf.Length
      ensures position == old(position) + count && Filled(buf[..], stream, old(position), count, old(buf[..]))
      ensures rc == 0 && !eof ==> count == buf.Length
      ensures eof ==> rc == 0
      ensures rc <= 0
      ensures mode != Blocking ==> rc == -EINVAL && count == 0 && !eof
      ensures (mode == Blocking && clock && Steady(events) && Total(events) >= buf.Length
               && buf.Length <= |stream| - old(position)) ==> rc == 0 && !eof
      ensures mode == Blocking && !clock ==> rc == -1 && count == 0 && !eof
      ensures mode == Blocking && clock ==>
                ReadResult(events, buf.Length, |stream| - old(position), rc, count, eof)
    {
      hide Total, Steady, Filled, ReadResult, Brought, WaitCode;
      count, eof := 0, false;
      NoneFilled(buf[..], stream, position);
      var check := CheckNonblocking();
      if check <= 0 {
        return -EINVAL, 0, false;
      }
      ghost var avail := |stream| - position;
      NoneBrought(events, buf.Length, avail);
      AllBrought(events, buf.Length, avail);
      if !clock {
        return -1, 0, false;
      }
      var left := buf.Length;
      for i := 0 to |events|
        invariant count <= buf.Length && left == buf.Length - count && !eof
        invariant Valid() && stream == old(stream) && position == old(position) + count
        invariant Filled(buf[..], stream, old(position), count, old(buf[..]))
        invariant Steady(events[..i]) && count == Brought(events, i, buf.Length, avail)
      {
        if left == 0 {
          EndsFull(events, i, buf.Length, avail);
          return 0, count, false;
        }
        var e := events[i];
        EndsAt(events, i, buf.Length, avail);
        BroughtNext(events, i, buf.Length, avail);
        if e.ReadFails? {
          return -1, count, false;
        }
        if e.EndOfFile? {
          return 0, count, true;
        }
        EndsAfter(events, i, buf.Length, avail);
        if e.Got? {
          var n := Min(Min(e.amount, left), |stream| - position);
          CopyIn(buf, count, n, old(position), old(buf[..]));
          count, left := count + n, left - n;
        }
        if left == 0 {
          return 0, count, false;
        }
        var code := WaitCode(if e.Got? then e.next else e.after);
        if code < 0 {
          return code, count, false;
        }
      }
      if left == 0 {
        EndsFull(events, |events|, buf.Length, avail);
        return 0, count, false;
      }
      EndsAt(events, |events|, buf.Length, avail);
      rc := -EAGAIN;
    }

    /** The effect of one read call that delivers `n` bytes at `at`, behind those read from `start`. */
    method CopyIn(buf: array<byte>, at: nat, n: nat, ghost start: nat, ghost orig: seq<byte>)
      requires Valid() && at + n <= buf.Length && position + n <= |stream|
      requires start + at == position && Filled(buf[..], stream, start, at, orig)
      modifies this`position, buf
      ensures position == old(position) + n
      ensures Filled(buf[..], stream, start, at + n, orig)
    {
      assert buf[..][..at] == buf[..at] && buf[..][at..] == buf[at..];
      ghost var head := buf[..at];
      assert head == stream[start..position];
      forall i | 0 <= i < n {
        buf[at + i] := stream[position + i];
      }
      assert buf[..at] == head;
      assert buf[at..at + n] == stream[position..position + n];
      assert buf[..at + n] == buf[..at] + buf[at..at + n];
      assert buf[at + n..] == old(buf[at..])[n..] && orig[at..][n..] == orig[at + n..];
      assert stream[start..position + n] == stream[start..position] + stream[position..position + n];
      assert buf[..][..at + n] == buf[..at + n] && buf[..][at + n..] == buf[at + n..];
      position := position + n;
    }

    /** maat_write.  The count is the number of bytes of the buffer that reached the stream; it
        succeeds only with all of them, and does so whenever nothing goes wrong and the writes take
        enough.  A channel that is not blocking is always refused. */
    method Write(buf: seq<byte>, clock: bool, events: seq<WriteEvent>) returns (rc: int, count: nat)
      requires Valid()
      modifies this`stream
      ensures Valid() && count <= |buf| && stream == old(stream) + buf[..count]
      ensures rc == 0 ==> count == |buf|
      ensures rc <= 0
      ensures mode != Blocking ==> rc == -EINVAL && count == 0
      ensures mode == Blocking && clock && SteadyPut(events) && TotalPut(events) >= |buf| ==> rc == 0
      ensures mode == Blocking && !clock ==> rc == -1 && count == 0
      ensures mode == Blocking && clock ==>
                WriteResult(events, |buf|, rc, count)
    {
      hide SteadyPut, TotalPut;
      count := 0;
      TotalPutNone(events);
      var check := CheckNonblocking();
      if check <= 0 {
        return -EINVAL, 0;
      }
      if !clock {
        return -1, 0;
      }
      for i := 0 to |events|
        invariant Valid() && count <= |buf| && stream == old(stream) + buf[..count]
        invariant SteadyPut(events[..i]) && count == Min(TotalPut(events[..i]), |buf|)
      {
        TotalPutNext(events, i);
        if count == |buf| {
          assert WriteEnds(events, i, |buf|, 0, count);
          return 0, count;
        }
        match events[i] {
          case NotReady(code) =>
            assert WriteEnds(events, i, |buf|, 0 - code, count);
            return 0 - code, count;
          case NeverReady =>
            assert WriteEnds(events, i, |buf|, -EAGAIN, count);
            return -EAGAIN, count;
          case WriteFails(code) =>
            assert WriteEnds(events, i, |buf|, 0 - code, count);
            return 0 - code, count;
          case Put(amount, after) =>
            var n := Min(amount, |buf| - count);
            stream := stream + buf[count..count + n];
            assert buf[..count + n] == buf[..count] + buf[count..count + n];
            count := count + n;
            if count == |buf| {
              assert WriteEnds(events, i, |buf|, 0, count);
              return 0, count;
            }
            match after {
              case Fine => SteadyPutNext(events, i);
              case PostFails(code) =>
                assert WriteEnds(events, i, |buf|, 0 - code, count);
                return 0 - code, count;
              case Expired =>
                assert WriteEnds(events, i, |buf|, -EAGAIN, count);
                return -EAGAIN, count;
            }
        }
      }
      assert events[..|events|] == events;
      assert WriteEnds(events, |events|, |buf|, if count == |buf| then 0 else -EAGAIN, count);
      rc := if count == |buf| then 0 else -EAGAIN;
    }

    /** The first half of maat_read_sz_buf: the length header and the time check after it. */
    method ReadHeader(clock: bool, header: seq<ReadEvent>, timed: Wait) returns (rc: int, size: nat, eof: bool)
      requires Valid()
      modifies this`position
      ensures Valid() && position >= old(position) && size <= UINT32_MAX && rc <= 0
      ensures rc == 0 && !eof ==> old(Unread()) == Be32(size) + Unread()
      ensures mode != Blocking ==> rc == -EINVAL && position == old(position)
      ensures mode == Blocking && clock && Steady(header) && Total(header) >= 4 && old(|Unread()|) >= 4 ==>
                if timed == ClockFails || timed == OutOfTime then rc == -1 else rc == 0 && !eof
    {
      hide Steady, Total;
      size := 0;
      var head := new byte[4];
      var read;
      rc, read, eof := Read(head, clock, header);
      if rc != 0 || eof {
        return;
      }
      if timed == ClockFails || timed == OutOfTime {
        return -1, 0, false;
      }
      assert head[..4] == head[..];
      SplitAt(stream, old(position), position);
      size := FromBe32(head[..]);
      FromBe32RoundTrip(head[..]);
    }

    /** maat_read_sz_buf.  `timed` is what the time check between the two reads says.  When nothing
        goes wrong, a frame is read if and only if its payload is allowed: up to a million bytes for
        a maximum of zero, and up to what 32 bits keep of a maximum that is larger than they hold. */
    method ReadFramed(maxSize: nat, clock: bool, header: seq<ReadEvent>, timed: Wait,
                      memory: bool, body: seq<ReadEvent>)
      returns (rc: int, buf: array?<byte>, size: nat, count: nat, eof: bool)
      requires Valid()
      modifies this`position
      ensures Valid() && stream == old(stream) && position >= old(position)
      ensures buf != null ==> fresh(buf)
      ensures rc == 0 && !eof ==>
                && buf != null && size == count == buf.Length <= UINT32_MAX && Allowed(maxSize, size)
                && old(Unread()) == Frame(buf[..]) + Unread()
      ensures rc == 0 && eof && buf != null ==>
                && size == buf.Length <= UINT32_MAX && Allowed(maxSize, size) && count <= size
                && old(Unread()) == Be32(size) + buf[..count] + Unread()
      ensures rc != 0 ==> buf == null
      ensures forall p: Payload, rest | old(Unread()) == Frame(p) + rest && !Allowed(maxSize, |p|) :: buf == null
      ensures mode != Blocking ==> rc == -EINVAL && position == old(position)
      ensures forall p: Payload, rest | old(Unread()) == Frame(p) + rest && mode == Blocking && clock
                && Steady(header) && Total(header) >= 4 ::
                  if timed == ClockFails || timed == OutOfTime then rc == -1
                  else if !Allowed(maxSize, |p|) then rc == -EMSGSIZE
                  else if !memory then rc == -1
                  else Steady(body) && Total(body) >= |p| ==> rc == 0 && !eof
    {
      hide Steady, Total, Be32, Limit, FromBe32, Allowed;
      rc, buf, size, count, eof := 0, null, 0, 0, false;
      var check := CheckNonblocking();
      if check <= 0 {
        return -EINVAL, null, 0, 0, false;
      }
      var read, n;
      rc, n, eof := ReadHeader(clock, header, timed);
      if rc != 0 || eof {
        return;
      }
      size := n;
      ghost var mid := Unread();
      forall p: Payload, rest | old(Unread()) == Frame(p) + rest ensures size == |p| && |p| <= |mid| {
        HeaderOfFrame(p, rest, size, mid);
      }
      AllowedIsLimit(maxSize, size);
      if size > Limit(maxSize) {
        return -EMSGSIZE, null, 0, 0, false;
      }
      if !memory {
        return -1, null, 0, 0, false;
      }
      var b := new byte[size];
      ghost var at := position;
      rc, read, eof := Read(b, clock, body);
      if rc < 0 {
        return -1, null, 0, 0, false;
      }
      count, buf := read, b;
      SplitAt(stream, at, position);
      assert Be32(size) + mid == Be32(size) + b[..count] + Unread();
      if count == size { assert b[..count] == b[..]; }
    }

    /** maat_write_sz_buf.  Success puts exactly one frame on the stream and reports its length, and
        is certain when nothing goes wrong; a failure leaves part of the frame there. */
    method WriteFramed(buf: seq<byte>, clock: bool, header: seq<WriteEvent>, expired: bool,
                       body: seq<WriteEvent>)
      returns (rc: int, count: nat, ghost sent: nat)
      requires Valid()
      modifies this`stream
      ensures Valid()
      ensures |buf| > UINT32_MAX ==> rc != 0 && stream == old(stream)
      ensures |buf| <= UINT32_MAX ==> sent <= |Frame(buf)| && stream == old(stream) + Frame(buf)[..sent]
      ensures rc == 0 ==> sent == count == 4 + |buf|
      ensures rc != 0 ==> count <= sent && (count == 0 || count == 4)
      ensures mode != Blocking ==> rc == -EINVAL && stream == old(stream)
      ensures (mode == Blocking && clock && |buf| <= UINT32_MAX && SteadyPut(header) && TotalPut(header) >= 4) ==>
                if expired then rc == -EAGAIN && count == 4
                else SteadyPut(body) && TotalPut(body) >= |buf| ==> rc == 0
    {
      hide SteadyPut, TotalPut;
      count, sent := 0, 0;
      var check := CheckNonblocking();
      if check <= 0 || |buf| > UINT32_MAX {
        return -EINVAL, 0, 0;
      }
      var n;
      rc, n := Write(Be32(|buf|), clock, header);
      sent := n;
      assert Frame(buf)[..n] == Be32(|buf|)[..n];
      if rc != 0 {
        return;
      }
      count := 4;
      if expired {
        return -EAGAIN, 4, 4;
      }
      rc, n := Write(buf, clock, body);
      sent := 4 + n;
      assert Frame(buf)[..sent] == Be32(|buf|) + buf[..n];
      if rc < 0 {
        return;
      }
      count := 4 + n;
    }
  }

  // ----- the size limit

  /** The size limit the reader applies: zero selects the default, any other value below the
      32-bit maximum is raised to it, and a larger one is cut to 32 bits. */
  function Limit(maxSize: nat): (limit: nat)
    ensures limit <= UINT32_MAX
  {
    if maxSize == 0 then 1_000_000
    else if maxSize < UINT32_MAX then UINT32_MAX
    else maxSize % 0x1_0000_0000
  }

  /** A payload size that is within the limit: at most a million bytes when no maximum is given, any
      number for a maximum that fits 32 bits, and otherwise at most the low 32 bits of the maximum. */
  predicate Allowed(maxSize: nat, n: nat) {
    && (maxSize == 0 ==> n <= 1_000_000)
    && (maxSize >= 0x1_0000_0000 ==> n <= maxSize % 0x1_0000_0000)
  }

  lemma {:induction false} AllowedIsLimit(maxSize: nat, n: nat)
    requires n <= UINT32_MAX
    ensures n <= Limit(maxSize) <==> Allowed(maxSize, n)
  {}

  /** A payload size that is over the limit given and read though, or within it and refused though. */
  predicate ReadThough(maxSize: nat, n: nat) {
    maxSize < n <= UINT32_MAX && Allowed(maxSize, n)
  }

  predicate RefusedThough(maxSize: nat, n: nat) {
    n <= maxSize && n <= UINT32_MAX && !Allowed(maxSize, n)
  }

  /** The reader gives up on everything larger than a limit exactly for limits of at least 2^32 - 1:
      below that, something larger is read. */
  lemma {:induction false} LimitExceeded(maxSize: nat)
    ensures (exists n: nat :: ReadThough(maxSize, n)) <==> maxSize < UINT32_MAX
  {
    if maxSize < UINT32_MAX { assert ReadThough(maxSize, maxSize + 1); }
  }

  /** And it refuses something within the limit exactly when cutting it to 32 bits lost something:
      a payload is at most 2^32 - 1 bytes. */
  lemma {:induction false} LimitCut(maxSize: nat)
    ensures (exists n: nat :: RefusedThough(maxSize, n))
       <==> maxSize > UINT32_MAX && maxSize % 0x1_0000_0000 != UINT32_MAX
  {
    if maxSize > UINT32_MAX && maxSize % 0x1_0000_0000 != UINT32_MAX {
      assert RefusedThough(maxSize, UINT32_MAX);
    }
  }

  /** A frame of any size over a limit of one byte is read ... */
  method OversizeRead(p: Payload) returns (rc: int, buf: array?<byte>)
    ensures rc == 0 && buf != null && buf[..] == p
  {
    rc, buf := ReadBack(p, 1);
    assert Frame(p) + [] == Frame(p);
  }

  /** ... and with a limit of 2^32 no frame but the empty one. */
  method CutLimitRefuses(p: Payload) returns (rc: int, buf: array?<byte>)
    requires p != []
    ensures rc == -EMSGSIZE && buf == null
  {
    rc, buf := ReadBack(p, 0x1_0000_0000);
  }

  /** Without a maximum, a frame is read if and only if it has at most a million bytes. */
  method DefaultLimit(p: Payload) returns (rc: int, buf: array?<byte>)
    ensures |p| <= 1_000_000 ==> rc == 0 && buf != null && buf[..] == p
    ensures |p| > 1_000_000 ==> rc == -EMSGSIZE && buf == null
  {
    rc, buf := ReadBack(p, 0);
  }

  /** Reads one frame from a channel that holds it, with nothing going wrong. */
  method ReadBack(p: Payload, maxSize: nat) returns (rc: int, buf: array?<byte>)
    ensures Allowed(maxSize, |p|) ==> rc == 0 && buf != null && buf[..] == p
    ensures !Allowed(maxSize, |p|) ==> rc == -EMSGSIZE && buf == null
  {
    hide Be32, Allowed, FromBe32;
    var ch := new Channel(Blocking);
    ch.stream := Frame(p);
    var header, body := [Got(4, Ready)], [Got(|p|, Ready)];
    assert header[..0] == [] && body[..0] == [];
    assert ch.Unread() == Frame(p) + [];
    var size, count, eof;
    rc, buf, size, count, eof := ch.ReadFramed(maxSize, true, header, Ready, true, body);
    if rc == 0 && !eof { FrameHead(p, buf[..], [], ch.Unread()); }
  }

  lemma {:induction false} HeaderOfFrame(p: Payload, rest: seq<byte>, size: nat, tail: seq<byte>)
    requires size <= UINT32_MAX && Frame(p) + rest == Be32(size) + tail
    ensures size == |p| && |p| <= |tail|
  {
    hide Be32, FromBe32;
    assert (Frame(p) + rest)[..4] == Be32(|p|) && (Be32(size) + tail)[..4] == Be32(size);
    Be32RoundTrip(|p|);
    Be32RoundTrip(size);
  }

  // ----- whole exchanges

  datatype WriteCall = WriteCall(clock: bool, header: seq<WriteEvent>, expired: bool, body: seq<WriteEvent>)
  datatype ReadCall = ReadCall(maxSize: nat, clock: bool, header: seq<ReadEvent>, timed: Wait, memory: bool,
                               body: seq<ReadEvent>)

  /** A call during which nothing goes wrong and that moves a whole frame of that payload. */
  predicate GoodWrite(w: WriteCall, m: Payload) {
    && w.clock && !w.expired && SteadyPut(w.header) && TotalPut(w.header) >= 4
    && SteadyPut(w.body) && TotalPut(w.body) >= |m|
  }

  predicate GoodRead(r: ReadCall, m: Payload) {
    && r.clock && r.memory && r.timed != ClockFails && r.timed != OutOfTime && Allowed(r.maxSize, |m|)
    && Steady(r.header) && Total(r.header) >= 4 && Steady(r.body) && Total(r.body) >= |m|
  }

  /** Writes messages until one write fails: the stream has grown by complete frames and part of
      one more.  All are written when no call goes wrong. */
  method SendAll(ch: Channel, msgs: seq<Payload>, writes: seq<WriteCall>)
    returns (all: bool, ghost sent: nat, ghost torn: Payload, ghost part: nat)
    requires ch.Valid() && |writes| == |msgs|
    modifies ch`stream
    ensures ch.Valid() && sent <= |msgs| && part < |Frame(torn)|
    ensures ch.stream == old(ch.stream) + Frames(msgs[..sent]) + Frame(torn)[..part]
    ensures all ==> sent == |msgs| && part == 0
    ensures ch.mode != Blocking ==> ch.stream == old(ch.stream) && (msgs != [] ==> !all)
    ensures ch.mode == Blocking && (forall i | 0 <= i < |msgs| :: GoodWrite(writes[i], msgs[i])) ==> all
  {
    hide Be32, SteadyPut, TotalPut;
    all, sent, torn, part := true, 0, [], 0;
    assert msgs[..0] == [];
    for i := 0 to |msgs|
      invariant ch.Valid() && sent == i && torn == [] && part == 0
      invariant ch.stream == old(ch.stream) + Frames(msgs[..i])
      invariant ch.mode != Blocking ==> i == 0
    {
      var w, m := writes[i], msgs[i];
      var rc, count, n := ch.WriteFramed(m, w.clock, w.header, w.expired, w.body);
      assert msgs[..i + 1] == msgs[..i] + [m];
      FramesAppend(msgs[..i], m);
      if n == |Frame(m)| {
        assert Frame(m)[..n] == Frame(m);
        sent := i + 1;
      } else {
        torn, part := m, n;
      }
      if rc != 0 {
        assert !GoodWrite(writes[i], msgs[i]) || ch.mode != Blocking;
        return false, sent, torn, part;
      }
    }
  }

  /** Reads messages until one read fails or meets end of file.  From a stream of the frames `due`
      all are read when no call goes wrong. */
  method ReceiveAll(ch: Channel, calls: seq<ReadCall>, ghost due: seq<Payload>)
    returns (got: seq<Payload>, all: bool, ghost rest: seq<byte>)
    requires ch.Valid()
    modifies ch`position
    ensures ch.Valid() && ch.stream == old(ch.stream)
    ensures old(ch.Unread()) == Frames(got) + rest
    ensures all ==> |got| == |calls| && rest == ch.Unread()
    ensures ch.mode != Blocking ==> got == []
    ensures (ch.mode == Blocking && old(ch.Unread()) == Frames(due) && |calls| <= |due|
             && forall i | 0 <= i < |calls| :: GoodRead(calls[i], due[i])) ==> all
  {
    hide Frame, Steady, Total, Allowed, Frames, GoodRead;
    got, all, rest := [], true, ch.Unread();
    ghost var clear := ch.mode == Blocking && ch.Unread() == Frames(due) && |calls| <= |due|;
    assert Frames([]) + rest == rest by { NoFrames(); }
    assert due[0..] == due;
    for i := 0 to |calls|
      invariant ch.Valid() && ch.stream == old(ch.stream) && |got| == i
      invariant ch.mode != Blocking ==> i == 0
      invariant rest == ch.Unread() && old(ch.Unread()) == Frames(got) + rest
      invariant clear ==> ch.Unread() == Frames(due[i..])
    {
      var r := calls[i];
      ghost var before := ch.Unread();
      if clear { FramesSplit(due, i); }
      var rc, buf, size, count, eof := ch.ReadFramed(r.maxSize, r.clock, r.header, r.timed, r.memory, r.body);
      if rc != 0 || eof {
        assert clear ==> !GoodRead(calls[i], due[i]) by { if clear { GoodReadMeans(calls[i], due[i]); } }
        return got, false, rest;
      }
      FramesExtend(got, buf[..], before, ch.Unread());
      if clear { FrameHead(due[i], buf[..], Frames(due[i + 1..]), ch.Unread()); }
      got, rest := got + [buf[..]], ch.Unread();
    }
  }

  lemma {:induction false} GoodReadMeans(r: ReadCall, m: Payload)
    ensures GoodRead(r, m) ==>
              && r.clock && r.memory && r.timed != ClockFails && r.timed != OutOfTime && Allowed(r.maxSize, |m|)
              && Steady(r.header) && Total(r.header) >= 4 && Steady(r.body) && Total(r.body) >= |m|
  {}

  lemma {:induction false} NoFrames()
    ensures Frames([]) == []
  {}

  lemma {:induction false} FramesSplit(ps: seq<Payload>, i: nat)
    requires i < |ps|
    ensures Frames(ps[i..]) == Frame(ps[i]) + Frames(ps[i + 1..])
  {
    assert ps[i..][1..] == ps[i + 1..];
  }

  lemma {:induction false} FramesExtend(ps: seq<Payload>, p: Payload, before: seq<byte>, after: seq<byte>)
    requires before == Frame(p) + after
    ensures Frames(ps) + before == Frames(ps + [p]) + after
  {
    hide Frame, Frames;
    FramesAppend(ps, p);
  }

  /** A sender and a reader under any schedules: what was read is a prefix of what was offered, and
      if no call failed it is all of it, with nothing left over.  No call fails, and every message
      arrives, over a blocking channel when nothing goes wrong and the payloads are within the limits. */
  method Exchange(mode: Mode, msgs: seq<Payload>, writes: seq<WriteCall>, calls: seq<ReadCall>)
    returns (got: seq<Payload>, allSent: bool, allRead: bool, ch: Channel)
    requires |writes| == |msgs|
    ensures got <= msgs
    ensures allSent && allRead && |calls| == |msgs| ==> got == msgs
    ensures allSent && allRead ==> ch.Valid() && ch.Unread() == Frames(msgs[|got|..])
    ensures mode != Blocking ==> got == [] && ch.stream == [] && (msgs != [] ==> !allSent)
    ensures (mode == Blocking && |calls| == |msgs|
             && forall i | 0 <= i < |msgs| :: GoodWrite(writes[i], msgs[i]) && GoodRead(calls[i], msgs[i]))
            ==> allSent && allRead && got == msgs
  {
    hide Frame, Frames, GoodWrite, GoodRead;
    ch := new Channel(mode);
    ghost var sent, torn, part, rest;
    allSent, sent, torn, part := SendAll(ch, msgs, writes);
    assert ch.Unread() == Frames(msgs[..sent]) + Frame(torn)[..part];
    assert allSent ==> msgs[..sent] == msgs && ch.Unread() == Frames(msgs);
    got, allRead, rest := ReceiveAll(ch, calls, msgs);
    FramesDecode(msgs[..sent], torn, part, got, rest);
    if allSent {
      assert msgs[..sent] == msgs;
      assert Frames(msgs[|got|..]) + Frame(torn)[..0] == Frames(msgs[|got|..]);
    }
  }
}
