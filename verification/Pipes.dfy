/** The blocking pipe I/O of comm.c, under every split of reads and writes and every interruption. */
module Pipes {
  import opened Bytes
  import opened Frames

  /** How the kernel answers one read() or write(): up to `n` bytes, EINTR, or another error. When a
      schedule has run out every further call moves as much as it can. */
  datatype Answer = Chunk(n: nat) | Interrupted | Failed

  ghost predicate Reliable(sched: seq<Answer>) {
    forall i | 0 <= i < |sched| :: sched[i] != Failed
  }

  /** The read end of a pipe: `stream` is everything that is still to arrive before the end of the stream. */
  class ReadEnd {
    var stream: seq<Byte>
    var sched: seq<Answer>

    constructor (stream: seq<Byte>, sched: seq<Answer>)
      ensures this.stream == stream && this.sched == sched
    {
      this.stream, this.sched := stream, sched;
    }

    /** read(): `n` bytes stored at `off`; 0 at the end of the stream; -1 with `eintr` telling the errno. */
    method Read(dst: array<Byte>, off: nat, size: nat) returns (n: int, eintr: bool)
      requires 0 < size && off + size <= dst.Length
      modifies this, dst
      ensures forall i | 0 <= i < dst.Length && !(off <= i < off + n) :: dst[i] == old(dst[i])
      ensures n <= size && n <= |old(stream)|
      ensures n >= 0 ==> stream == old(stream)[n..] && dst[off..off + n] == old(stream)[..n]
      ensures n == 0 <==> n >= 0 && old(stream) == []
      ensures n < 0 ==> n == -1 && stream == old(stream)
      ensures |sched| <= |old(sched)| && (|sched| == |old(sched)| ==> old(sched) == [])
      ensures old(sched) == [] ==> n >= 0
      ensures old(Reliable(sched)) ==> Reliable(sched) && (n < 0 ==> eintr)
    {
      var answer := if sched == [] then Chunk(size) else sched[0];
      sched := if sched == [] then [] else sched[1..];
      eintr := answer.Interrupted?;
      if !answer.Chunk? {
        return -1, eintr;
      }
      var most := if |stream| < size then |stream| else size;
      n := if answer.n == 0 && most > 0 then 1 else if answer.n < most then answer.n else most;
      forall i | 0 <= i < n {
        dst[off + i] := stream[i];
      }
      stream := stream[n..];
    }
  }

  /** What read_full returns when nothing but EINTR goes wrong: all of it, the end of the stream before the
      first byte, or an error for a stream that ends in between. */
  function FullCode(s: seq<Byte>, size: nat): int {
    if |s| >= size then size else if s == [] then 0 else -1
  }

  /** read_full */
  method ReadFull(end: ReadEnd, dst: array<Byte>, size: nat) returns (code: int)
    requires 0 < size <= dst.Length
    modifies end, dst
    ensures code == -1 || code == FullCode(old(end.stream), size)
    ensures code > 0 ==> dst[..size] == old(end.stream)[..size] && end.stream == old(end.stream)[size..]
    ensures old(Reliable(end.sched)) ==> code == FullCode(old(end.stream), size) && Reliable(end.sched)
    ensures old(Reliable(end.sched)) && code <= 0 ==> end.stream == []
  {
    ghost var s := end.stream;
    var offset := 0;
    while offset < size
      invariant 0 <= offset <= size && offset <= |s|
      invariant dst[..offset] == s[..offset]
      invariant end.stream == s[offset..]
      invariant old(Reliable(end.sched)) ==> Reliable(end.sched)
      decreases size - offset, |end.sched|
    {
      ghost var before := dst[..offset];
      var n, eintr := end.Read(dst, offset, size - offset);
      assert dst[..offset] == before;
      if n < 0 {
        if eintr {
          continue;
        }
        return -1;
      } else if n == 0 {
        if offset == 0 {
          return 0;
        }
        return -1;
      }
      TakeMore(s, offset, n);
      TakeMore(dst[..], offset, n);
      assert dst[..][offset..][..n] == dst[offset..offset + n];
      assert dst[..][..offset] == dst[..offset] && dst[..][..offset + n] == dst[..offset + n];
      offset := offset + n;
    }
    return offset;
  }

  lemma TakeMore(s: seq<Byte>, k: nat, n: nat)
    requires k + n <= |s|
    ensures s[..k + n] == s[..k] + s[k..][..n] && s[k..][n..] == s[k + n..]
  {}

  /** comm_read: the schedule never shows, only the bytes do. */
  method CommRead(end: ReadEnd) returns (r: Received)
    modifies end
    ensures r == Failure || r == Receive(old(end.stream))
    ensures r.Message? ==> end.stream == old(end.stream)[HEADER + |r.frame.payload|..]
    ensures old(Reliable(end.sched)) ==> r == Receive(old(end.stream)) && Reliable(end.sched)
    ensures old(Reliable(end.sched)) && Stops(old(end.stream)) ==> end.stream == []
  {
    ghost var s := end.stream;
    var typ := new Byte[1];
    var n := ReadFull(end, typ, 1);
    if n <= 0 {
      return if n == 0 then EndOfFile else Failure;
    }
    var plenBuf := new Byte[4];
    n := ReadFull(end, plenBuf, 4);
    if n <= 0 {
      return Failure;
    }
    assert s[1..5] == s[1..][..4];
    var plen := LoadLe(plenBuf[..]);
    assert plenBuf[..] == plenBuf[..4];
    assert plen == Announced(s);
    if plen > MAX_PAYLOAD {
      return Failure;
    }
    assert typ[..1][0] == s[0];
    var payload := [];
    if plen > 0 {
      var buf := new Byte[plen + 1];
      n := ReadFull(end, buf, plen);
      if n <= 0 {
        return Failure;
      }
      buf[plen] := 0;
      payload := buf[..plen];
      assert s[1..][4..] == s[5..];
      assert s[5..][..plen] == s[5..5 + plen];
    }
    assert payload == s[5..5 + plen];
    assert end.stream == s[5 + plen..];
    return if typ[0] == 0 then EndOfFile else Message(Frame(typ[0], payload));
  }

  /** Repeated comm_read, as both processes do for as long as messages arrive. */
  method CommReadAll(end: ReadEnd) returns (frames: seq<Frame>, last: Received)
    requires Reliable(end.sched)
    modifies end
    ensures (frames, last) == ReceiveAll(old(end.stream))
  {
    frames, last := [], EndOfFile;
    ghost var all := ReceiveAll(end.stream);
    assert [] + all.0 == all.0;
    while true
      invariant Reliable(end.sched)
      invariant all == (frames + ReceiveAll(end.stream).0, ReceiveAll(end.stream).1)
      decreases |end.stream|
    {
      ghost var s := end.stream;
      last := CommRead(end);
      if !last.Message? {
        assert ReceiveAll(s) == ([], last) && frames + [] == frames;
        return;
      }
      OneMore(all, frames, s, last.frame);
      frames := frames + [last.frame];
    }
  }

  lemma OneMore(all: (seq<Frame>, Received), frames: seq<Frame>, s: seq<Byte>, f: Frame)
    requires Receive(s) == Message(f) && all == (frames + ReceiveAll(s).0, ReceiveAll(s).1)
    ensures var rest := ReceiveAll(s[HEADER + |f.payload|..]); all == (frames + [f] + rest.0, rest.1)
  {
    var rest := ReceiveAll(s[HEADER + |f.payload|..]);
    assert frames + ([f] + rest.0) == frames + [f] + rest.0;
  }

  /** How many of `n` bytes go out before the reader closes its end. */
  function Accepted(room: Option<nat>, n: nat): (k: nat)
    ensures k <= n
  {
    if room.None? || n <= room.value then n else room.value
  }

  function RoomAfter(room: Option<nat>, n: nat): Option<nat> {
    if room.None? then None else Some(room.value - Accepted(room, n))
  }

  /** What the reader gets of some bytes. */
  function Through(room: Option<nat>, bytes: seq<Byte>): seq<Byte> {
    bytes[..Accepted(room, |bytes|)]
  }

  predicate Passes(room: Option<nat>, bytes: seq<Byte>) {
    Accepted(room, |bytes|) == |bytes|
  }

  /** Two writes let through what one would. */
  lemma ThroughConcat(room: Option<nat>, a: seq<Byte>, b: seq<Byte>)
    ensures Through(room, a + b) == Through(room, a) + Through(RoomAfter(room, |a|), b)
    ensures RoomAfter(room, |a + b|) == RoomAfter(RoomAfter(room, |a|), |b|)
    ensures Passes(room, a + b) <==> Passes(room, a) && Passes(RoomAfter(room, |a|), b)
  {}

  /** Once a reader has gone, more bytes make no difference. */
  lemma ThroughPrefix(room: Option<nat>, a: seq<Byte>, b: seq<Byte>)
    requires a <= b && !Passes(room, a)
    ensures Through(room, b) == Through(room, a) && !Passes(room, b)
  {}

  /** The pipe after `bytes` were written into it from a state with `start` written and `room` left. */
  ghost predicate Wrote(written: seq<Byte>, left: Option<nat>, start: seq<Byte>, room: Option<nat>, bytes: seq<Byte>) {
    written == start + Through(room, bytes) && left == RoomAfter(room, |bytes|)
  }

  lemma WroteNothing(start: seq<Byte>, room: Option<nat>)
    ensures Wrote(start, room, start, room, [])
  {}

  lemma WroteMore(
    start: seq<Byte>, room: Option<nat>, mid: seq<Byte>, between: Option<nat>, end: seq<Byte>, left: Option<nat>,
    a: seq<Byte>, b: seq<Byte>)
    requires Wrote(mid, between, start, room, a) && Wrote(end, left, mid, between, b)
    ensures Wrote(end, left, start, room, a + b)
    ensures Passes(room, a + b) <==> Passes(room, a) && Passes(between, b)
  {
    ThroughConcat(room, a, b);
    Reassociate(start, Through(room, a), Through(between, b));
  }

  /** Bytes that follow a cut make no difference. */
  lemma WroteCut(
    start: seq<Byte>, room: Option<nat>, end: seq<Byte>, left: Option<nat>, some: seq<Byte>, all: seq<Byte>)
    requires Wrote(end, left, start, room, some) && some <= all && !Passes(room, some)
    ensures Wrote(end, left, start, room, all) && !Passes(room, all)
  {
    ThroughPrefix(room, some, all);
  }

  /** The write end of a pipe whose reader goes away after `room` more bytes (None: never). */
  class WriteEnd {
    ghost var written: seq<Byte>
    var room: Option<nat>
    var sched: seq<Answer>

    constructor (room: Option<nat>, sched: seq<Answer>)
      requires Reliable(sched)
      ensures written == [] && this.room == room && this.sched == sched
    {
      written, this.room, this.sched := [], room, sched;
    }

    /** write(): a positive count, or -1 for EINTR or for a closed reader (EPIPE). */
    method Write(data: seq<Byte>) returns (n: int, eintr: bool)
      requires data != [] && Reliable(sched)
      modifies this
      ensures Reliable(sched)
      ensures n == -1 || 0 < n <= Accepted(old(room), |data|)
      ensures n > 0 ==> written == old(written) + data[..n] && room == RoomAfter(old(room), n)
      ensures n < 0 ==> written == old(written) && room == old(room) && (!eintr ==> room == Some(0))
      ensures |sched| <= |old(sched)| && (|sched| == |old(sched)| ==> old(sched) == [])
      ensures old(sched) == [] ==> n > 0 || !eintr
    {
      var answer := if sched == [] then Chunk(|data|) else sched[0];
      sched := if sched == [] then [] else sched[1..];
      eintr := answer.Interrupted?;
      if eintr || room == Some(0) {
        return -1, eintr;
      }
      var most := Accepted(room, |data|);
      n := if answer.n == 0 then 1 else if answer.n < most then answer.n else most;
      written, room := written + data[..n], RoomAfter(room, n);
    }
  }

  /** write_full: everything goes out, or the prefix that the reader still took. */
  method WriteFull(end: WriteEnd, data: seq<Byte>) returns (ok: bool)
    requires Reliable(end.sched)
    modifies end
    ensures Reliable(end.sched)
    ensures Wrote(end.written, end.room, old(end.written), old(end.room), data) && ok == Passes(old(end.room), data)
  {
    var offset := 0;
    while offset < |data|
      invariant 0 <= offset <= Accepted(old(end.room), |data|)
      invariant end.written == old(end.written) + data[..offset]
      invariant end.room == RoomAfter(old(end.room), offset)
      invariant Reliable(end.sched)
      decreases |data| - offset, |end.sched|
    {
      var n, eintr := end.Write(data[offset..]);
      if n <= 0 {
        if eintr {
          continue;
        }
        return false;
      }
      TakeMore(data, offset, n);
      offset := offset + n;
    }
    return true;
  }

  /** comm_write: the three parts add up to the frame, or to the prefix of it that the reader still took. */
  method CommWrite(end: WriteEnd, f: Frame) returns (ok: bool)
    requires Reliable(end.sched)
    modifies end
    ensures Reliable(end.sched)
    ensures Wrote(end.written, end.room, old(end.written), old(end.room), EncodeFrame(f))
    ensures ok == Passes(old(end.room), EncodeFrame(f))
  {
    ghost var e, start, room := EncodeFrame(f), end.written, end.room;
    ok := WriteFull(end, [f.typ]);
    if !ok {
      assert [f.typ] <= e;
      WroteCut(start, room, end.written, end.room, [f.typ], e);
      return;
    }
    var plenBuf := StoreLe(|f.payload|, 4);
    ghost var head := [f.typ] + plenBuf;
    ok := WriteNext(end, plenBuf, start, room, [f.typ]);
    if !ok {
      WroteCut(start, room, end.written, end.room, head, e);
      return;
    }
    if |f.payload| > 0 {
      ok := WriteNext(end, f.payload, start, room, head);
    } else {
      assert head == e;
    }
  }

  method WriteNext(
    end: WriteEnd, data: seq<Byte>, ghost start: seq<Byte>, ghost room: Option<nat>, ghost done: seq<Byte>)
    returns (ok: bool)
    requires Reliable(end.sched) && Wrote(end.written, end.room, start, room, done) && Passes(room, done)
    modifies end
    ensures Reliable(end.sched)
    ensures Wrote(end.written, end.room, start, room, done + data) && ok == Passes(room, done + data)
  {
    ghost var mid, between := end.written, end.room;
    ok := WriteFull(end, data);
    WroteMore(start, room, mid, between, end.written, end.room, done, data);
  }
}
