/** The frame format of comm.c and its byte-level codec. */
module Frames {
  import opened Bytes

  /** One message: a type byte, a little-endian payload length, the payload. */
  datatype Frame = Frame(typ: Byte, payload: seq<Byte>)

  const MAX_PAYLOAD: nat := 0x10_0000
  const TWO_32: nat := 0x1_0000_0000

  const MSG_PASSWORD: Byte := 0x01
  const MSG_BROKER_SEL: Byte := 0x02
  const MSG_AUTH_MODE_SEL: Byte := 0x03
  const MSG_BUTTON: Byte := 0x04
  const MSG_CANCEL: Byte := 0x05

  const MSG_AUTH_RESULT: Byte := 0x81
  const MSG_BROKERS: Byte := 0x82
  const MSG_AUTH_MODES: Byte := 0x83
  const MSG_UI_LAYOUT: Byte := 0x84
  const MSG_STAGE: Byte := 0x85
  const MSG_AUTH_EVENT: Byte := 0x86

  // The payload of a stage message.
  const STAGE_NONE: Byte := 0
  const STAGE_BROKER: Byte := 1
  const STAGE_AUTH_MODE: Byte := 2
  const STAGE_CHALLENGE: Byte := 3

  // ----- store_le32 and load_le32 -----

  /** The `k` low bytes of `v`, lowest first. */
  function StoreLe(v: nat, k: nat): (bytes: seq<Byte>)
    ensures |bytes| == k
  {
    if k == 0 then [] else [v % 256] + StoreLe(v / 256, k - 1)
  }

  function LoadLe(bytes: seq<Byte>): nat {
    if bytes == [] then 0 else bytes[0] + 256 * LoadLe(bytes[1..])
  }

  lemma LoadStoreStep(v: nat, k: nat)
    requires k > 0
    ensures LoadLe(StoreLe(v, k)) == v % 256 + 256 * LoadLe(StoreLe(v / 256, k - 1))
  {
    assert StoreLe(v, k)[1..] == StoreLe(v / 256, k - 1);
  }

  /** The length field keeps the low 32 bits of the payload length. */
  lemma LengthField(n: nat)
    ensures LoadLe(StoreLe(n, 4)) == n % TWO_32
  {
    LoadStoreStep(n, 4);
    LoadStoreStep(n / 256, 3);
    LoadStoreStep(n / 256 / 256, 2);
    LoadStoreStep(n / 256 / 256 / 256, 1);
  }

  // ----- one frame -----

  const HEADER: nat := 5

  function EncodeFrame(f: Frame): (bytes: seq<Byte>)
    ensures |bytes| == HEADER + |f.payload|
  {
    [f.typ] + StoreLe(|f.payload|, 4) + f.payload
  }

  lemma EncodeFrameParts(f: Frame, s: seq<Byte>)
    requires EncodeFrame(f) <= s
    ensures s[0] == f.typ && s[1..5] == StoreLe(|f.payload|, 4) && s[5..5 + |f.payload|] == f.payload
  {
    var e := EncodeFrame(f);
    assert e[1..5] == StoreLe(|f.payload|, 4);
    assert e[5..] == f.payload;
    assert s[1..5] == e[1..5] && s[5..5 + |f.payload|] == e[5..];
  }

  /** What one comm_read reports. A frame of type 0 cannot be told from the end of the stream. */
  datatype Received = Message(frame: Frame) | EndOfFile | Failure

  /** The payload length that a five-byte header announces. */
  function Announced(s: seq<Byte>): nat
    requires |s| >= HEADER
  {
    LoadLe(s[1..5])
  }

  /** comm_read on a stream that ends after `s`. */
  function Receive(s: seq<Byte>): Received {
    if s == [] then EndOfFile
    else if |s| < HEADER || Announced(s) > MAX_PAYLOAD || |s| < HEADER + Announced(s) then Failure
    else if s[0] == 0 then EndOfFile
    else Message(Frame(s[0], s[HEADER..HEADER + Announced(s)]))
  }

  /** The stream ends within its first frame. */
  ghost predicate Stops(s: seq<Byte>) {
    |s| < HEADER || (Announced(s) <= MAX_PAYLOAD && |s| < HEADER + Announced(s))
  }

  ghost predicate Sendable(f: Frame) {
    f.typ != 0 && |f.payload| <= MAX_PAYLOAD
  }

  lemma AnnouncedOfEncoded(f: Frame, s: seq<Byte>)
    requires EncodeFrame(f) <= s
    ensures Announced(s) == |f.payload| % TWO_32
  {
    EncodeFrameParts(f, s);
    LengthField(|f.payload|);
  }

  /** A sendable frame is read back whatever follows it. */
  lemma ReceiveEncoded(f: Frame, rest: seq<Byte>)
    requires Sendable(f)
    ensures Receive(EncodeFrame(f) + rest) == Message(f)
  {
    EncodeFrameParts(f, EncodeFrame(f) + rest);
    AnnouncedOfEncoded(f, EncodeFrame(f) + rest);
  }

  /** Every non-empty proper prefix of a sendable frame is an error, never a wrong frame. */
  lemma ReceiveCut(f: Frame, k: nat)
    requires Sendable(f) && 0 < k < |EncodeFrame(f)|
    ensures Receive(EncodeFrame(f)[..k]) == Failure
  {
    if k >= HEADER {
      assert EncodeFrame(f)[..k][1..5] == EncodeFrame(f)[1..5];
      AnnouncedOfEncoded(f, EncodeFrame(f));
    }
  }

  /** The bytes of a frame: type, length with its lowest byte first, payload. */
  lemma FrameBytes(f: Frame)
    requires |f.payload| < 0x1_0000_0000
    ensures var n := |f.payload|;
            EncodeFrame(f) == [f.typ, n % 0x100, n / 0x100 % 0x100, n / 0x1_0000 % 0x100, n / 0x100_0000] + f.payload
  {
    var n := |f.payload|;
    assert n / 0x100 / 0x100 == n / 0x1_0000 && n / 0x1_0000 / 0x100 == n / 0x100_0000;
    FourBytes(n);
  }

  lemma FourBytes(n: nat)
    requires n < 0x1_0000_0000
    ensures StoreLe(n, 4) == [n % 256, n / 256 % 256, n / 256 / 256 % 256, n / 256 / 256 / 256]
  {
    var a, b, c := n / 256, n / 256 / 256, n / 256 / 256 / 256;
    assert StoreLe(c, 1) == [c % 256] + StoreLe(c / 256, 0);
    assert StoreLe(b, 2) == [b % 256] + StoreLe(c, 1);
    assert StoreLe(a, 3) == [a % 256] + StoreLe(b, 2);
    assert StoreLe(n, 4) == [n % 256] + StoreLe(a, 3);
  }

  /** What the five bytes of a header announce. */
  lemma AnnouncedIs(s: seq<Byte>)
    requires |s| >= 5
    ensures Announced(s) == s[1] + 0x100 * (s[2] as int) + 0x1_0000 * (s[3] as int) + 0x100_0000 * (s[4] as int)
  {
    var b := s[1..5];
    assert b[1..][1..] == b[2..] && b[2..][1..] == b[3..] && b[3..][1..] == [];
    assert LoadLe(b[3..]) == b[3];
    assert LoadLe(b[2..]) == b[2] + 256 * LoadLe(b[3..]);
    assert LoadLe(b[1..]) == b[1] + 256 * LoadLe(b[2..]);
    assert LoadLe(b) == b[0] + 256 * LoadLe(b[1..]);
  }

  /** When a read reports a message, the end of the stream, or an error. */
  lemma ReceiveExactly(s: seq<Byte>)
    ensures s == [] ==> Receive(s) == EndOfFile
    ensures s != [] && |s| < 5 ==> Receive(s) == Failure
    ensures |s| >= 5 ==>
              var n := Announced(s);
              && (n > 0x10_0000 || |s| < 5 + n ==> Receive(s) == Failure)
              && (n <= 0x10_0000 && 5 + n <= |s| ==>
                    Receive(s) == if s[0] == 0 then EndOfFile else Message(Frame(s[0], s[5..5 + n])))
  {}

  /** Exactly the frames of non-zero type with at most 2^20 payload bytes survive the trip: type 0 reads as
      the end of the stream, longer payloads are refused, and from 2^32 on the length field wraps. */
  lemma RoundTripExactly(f: Frame)
    ensures Receive(EncodeFrame(f)) == Message(f) <==> f.typ != 0 && |f.payload| <= 0x10_0000
  {
    var e := EncodeFrame(f);
    AnnouncedOfEncoded(f, e);
    EncodeFrameParts(f, e);
    if Sendable(f) {
      ReceiveEncoded(f, []);
      assert e + [] == e;
    } else if f.typ != 0 && Announced(e) <= MAX_PAYLOAD {
      assert |e[HEADER..HEADER + Announced(e)]| != |f.payload|;
    }
  }

  // ----- streams of frames -----

  function EncodeFrames(fs: seq<Frame>): seq<Byte> {
    if fs == [] then [] else EncodeFrame(fs[0]) + EncodeFrames(fs[1..])
  }

  lemma {:induction false} EncodeFramesConcat(a: seq<Frame>, b: seq<Frame>)
    ensures EncodeFrames(a + b) == EncodeFrames(a) + EncodeFrames(b)
  {
    if a == [] {
      assert a + b == b;
    } else {
      EncodeFramesConcat(a[1..], b);
      assert (a + b)[1..] == a[1..] + b;
      Reassociate(EncodeFrame(a[0]), EncodeFrames(a[1..]), EncodeFrames(b));
    }
  }

  lemma Reassociate(a: seq<Byte>, b: seq<Byte>, c: seq<Byte>)
    ensures a + b + c == a + (b + c)
  {}

  lemma EncodeFramesPush(fs: seq<Frame>, f: Frame)
    ensures EncodeFrames(fs + [f]) == EncodeFrames(fs) + EncodeFrame(f)
  {
    EncodeFramesConcat(fs, [f]);
    assert [f][1..] == [];
    assert EncodeFrames([f]) == EncodeFrame(f) + [];
  }

  ghost predicate AllSendable(fs: seq<Frame>) {
    forall i | 0 <= i < |fs| :: Sendable(fs[i])
  }

  /** Repeated comm_read until it reports something other than a message. */
  function ReceiveAll(s: seq<Byte>): (r: (seq<Frame>, Received))
    ensures !r.1.Message?
    decreases |s|
  {
    match Receive(s)
    case Message(f) =>
      var (fs, last) := ReceiveAll(s[HEADER + |f.payload|..]);
      ([f] + fs, last)
    case other => ([], other)
  }

  lemma ReceiveAllStep(f: Frame, rest: seq<Byte>)
    requires Sendable(f)
    ensures ReceiveAll(EncodeFrame(f) + rest) == ([f] + ReceiveAll(rest).0, ReceiveAll(rest).1)
  {
    ReceiveEncoded(f, rest);
    assert (EncodeFrame(f) + rest)[HEADER + |f.payload|..] == rest;
  }

  /** A stream that ends inside frame `f` (or just before it, when `cut` is empty) delivers all the frames
      before it in order, and then an error (or the end of the stream): never a wrong frame. */
  lemma {:induction false} ReceiveAllThenCut(fs: seq<Frame>, f: Frame, cut: seq<Byte>)
    requires AllSendable(fs) && Sendable(f) && cut < EncodeFrame(f)
    ensures ReceiveAll(EncodeFrames(fs) + cut) == (fs, if cut == [] then EndOfFile else Failure)
  {
    if fs == [] {
      assert EncodeFrames(fs) + cut == cut == EncodeFrame(f)[..|cut|];
      if cut != [] {
        ReceiveCut(f, |cut|);
      }
    } else {
      var tail := EncodeFrames(fs[1..]);
      Reassociate(EncodeFrame(fs[0]), tail, cut);
      ReceiveAllStep(fs[0], tail + cut);
      ReceiveAllThenCut(fs[1..], f, cut);
      assert fs == [fs[0]] + fs[1..];
    }
  }

  /** The uncut stream delivers exactly the list that was written. */
  lemma ReceiveAllEncoded(fs: seq<Frame>)
    requires AllSendable(fs)
    ensures ReceiveAll(EncodeFrames(fs)) == (fs, EndOfFile)
  {
    ReceiveAllThenCut(fs, Frame(1, []), []);
    assert EncodeFrames(fs) + [] == EncodeFrames(fs);
  }

  /** Every cut of a stream is of that kind. */
  lemma {:induction false} EveryCut(fs: seq<Frame>, k: nat) returns (n: nat, cut: seq<Byte>)
    requires k < |EncodeFrames(fs)|
    ensures n < |fs| && cut < EncodeFrame(fs[n])
    ensures EncodeFrames(fs)[..k] == EncodeFrames(fs[..n]) + cut
  {
    var e := EncodeFrame(fs[0]);
    if k < |e| {
      n, cut := 0, e[..k];
      assert EncodeFrames(fs)[..k] == cut;
    } else {
      n, cut := EveryCut(fs[1..], k - |e|);
      assert EncodeFrames(fs)[..k] == e + EncodeFrames(fs[1..])[..k - |e|];
      Reassociate(e, EncodeFrames(fs[1..][..n]), cut);
      assert fs[..n + 1][0] == fs[0] && fs[..n + 1][1..] == fs[1..][..n];
      n := n + 1;
    }
  }

  /** Cutting a stream of sendable frames anywhere: the complete frames, then the end of the stream exactly
      when the cut lies between two frames. */
  lemma ReceiveAllCut(fs: seq<Frame>, k: nat) returns (n: nat)
    requires AllSendable(fs) && k <= |EncodeFrames(fs)|
    ensures n <= |fs| && |EncodeFrames(fs[..n])| <= k
    ensures n < |fs| ==> k < |EncodeFrames(fs[..n])| + |EncodeFrame(fs[n])|
    ensures ReceiveAll(EncodeFrames(fs)[..k])
            == (fs[..n], if k == |EncodeFrames(fs[..n])| then EndOfFile else Failure)
  {
    if k == |EncodeFrames(fs)| {
      n := |fs|;
      assert fs[..n] == fs && EncodeFrames(fs)[..k] == EncodeFrames(fs);
      ReceiveAllEncoded(fs);
    } else {
      var cut;
      n, cut := EveryCut(fs, k);
      ReceiveAllThenCut(fs[..n], fs[n], cut);
    }
  }

  /** A stream on which comm_read fails only at its end: no frame of type 0, none too long. */
  ghost predicate Proper(s: seq<Byte>)
    decreases |s|
  {
    match Receive(s)
    case Message(f) => Proper(s[HEADER + |f.payload|..])
    case _ => Stops(s)
  }

  /** Whatever a writer of sendable frames leaves in the pipe is such a stream. */
  lemma {:induction false} SendableIsProper(fs: seq<Frame>, f: Frame, cut: seq<Byte>)
    requires AllSendable(fs) && Sendable(f) && cut < EncodeFrame(f)
    ensures Proper(EncodeFrames(fs) + cut)
  {
    if fs == [] {
      assert EncodeFrames(fs) + cut == cut;
      CutStops(f, cut);
    } else {
      Reassociate(EncodeFrame(fs[0]), EncodeFrames(fs[1..]), cut);
      SendableIsProper(fs[1..], f, cut);
      ProperStep(fs[0], EncodeFrames(fs[1..]) + cut);
    }
  }

  lemma CutStops(f: Frame, cut: seq<Byte>)
    requires Sendable(f) && cut < EncodeFrame(f)
    ensures Stops(cut) && !Receive(cut).Message?
  {
    if |cut| >= HEADER {
      assert cut[1..5] == EncodeFrame(f)[1..5];
      AnnouncedOfEncoded(f, EncodeFrame(f));
    }
  }

  lemma ProperStep(f: Frame, rest: seq<Byte>)
    requires Sendable(f) && Proper(rest)
    ensures Proper(EncodeFrame(f) + rest)
  {
    ReceiveEncoded(f, rest);
    assert (EncodeFrame(f) + rest)[HEADER + |f.payload|..] == rest;
  }

  // ----- reading in steps -----

  /** The number of bytes that the read_full in progress still asks for, when comm_read has taken `acc`. */
  function Wanted(acc: seq<Byte>): nat {
    if |acc| == 0 then 1
    else if |acc| < HEADER then HEADER - |acc|
    else if Announced(acc) > MAX_PAYLOAD || |acc| >= HEADER + Announced(acc) then 0
    else HEADER + Announced(acc) - |acc|
  }

  /** A stretch of bytes on which comm_read returns a message. */
  ghost predicate WholeFrame(acc: seq<Byte>) {
    |acc| >= HEADER && Announced(acc) <= MAX_PAYLOAD && |acc| == HEADER + Announced(acc)
  }

  lemma WholeFrameIsFirst(acc: seq<Byte>, f: Frame, more: seq<Byte>)
    requires WholeFrame(acc) && |f.payload| < TWO_32
    requires acc <= EncodeFrame(f) + more
    ensures acc == EncodeFrame(f)
  {
    var s := EncodeFrame(f) + more;
    assert acc[1..5] == s[1..5];
    AnnouncedOfEncoded(f, s);
  }

  ghost predicate Short(fs: seq<Frame>) {
    forall i | 0 <= i < |fs| :: |fs[i].payload| < TWO_32
  }

  /** A stream may stop short inside a frame that was never finished; `cut` is what got out of it. */
  ghost predicate CutShort(cut: seq<Byte>) {
    exists f: Frame :: |f.payload| < TWO_32 && cut < EncodeFrame(f)
  }

  /** No wrong frame at any point of any schedule: when the bytes taken so far are the frames `got`
      followed by one whole frame, and all of it lies in a stream of the frames `got + flight` that may
      stop short inside a further one, then that whole frame is the next one in flight. */
  lemma NextFrameIsNextSent(got: seq<Frame>, acc: seq<Byte>, flight: seq<Frame>, cut: seq<Byte>)
    requires Short(flight) && CutShort(cut)
    requires EncodeFrames(got) + acc <= EncodeFrames(got + flight) + cut
    requires WholeFrame(acc)
    ensures flight != [] && acc == EncodeFrame(flight[0])
  {
    EncodeFramesConcat(got, flight);
    PrefixCancels(EncodeFrames(got), acc, EncodeFrames(flight), cut);
    FirstWholeFrame(acc, flight, cut);
  }

  lemma FirstWholeFrame(acc: seq<Byte>, fs: seq<Frame>, cut: seq<Byte>)
    requires Short(fs) && CutShort(cut)
    requires acc <= EncodeFrames(fs) + cut && WholeFrame(acc)
    ensures fs != [] && acc == EncodeFrame(fs[0])
  {
    if fs == [] {
      CutIsNotWhole(acc, cut);
    } else {
      Reassociate(EncodeFrame(fs[0]), EncodeFrames(fs[1..]), cut);
      WholeFrameIsFirst(acc, fs[0], EncodeFrames(fs[1..]) + cut);
    }
  }

  lemma PrefixCancels(a: seq<Byte>, b: seq<Byte>, c: seq<Byte>, d: seq<Byte>)
    requires a + b <= a + c + d
    ensures b <= c + d
  {
    assert (a + b)[|a|..] == b;
    assert (a + c + d)[|a|..] == c + d;
  }

  lemma CutIsNotWhole(acc: seq<Byte>, cut: seq<Byte>)
    requires CutShort(cut) && acc <= [] + cut
    ensures !WholeFrame(acc)
  {
    var last: Frame :| |last.payload| < TWO_32 && cut < EncodeFrame(last);
    if |acc| >= HEADER {
      assert acc[1..5] == EncodeFrame(last)[1..5];
      AnnouncedOfEncoded(last, EncodeFrame(last));
    }
  }
}
