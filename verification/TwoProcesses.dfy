/** Both processes and the two pipes between them as one transition system. Every step moves some bytes or
    lets one process act on a whole frame, so a run fixes an interleaving and a way to split every read and
    write; the safety results hold for all runs. */
module TwoProcesses {
  import opened Bytes
  import opened Utf8
  import opened Frames
  import opened Shadow
  import Pam
  import opened MainSpec
  import opened MainRuns
  import opened MainPasses
  import opened Typing

  // ----- pipes -----

  /** One direction: bytes that the writer's write_full still holds, bytes in the pipe, bytes that the
      reader's comm_read has taken so far, and the frames it has returned. */
  datatype Channel = Channel(out: seq<Byte>, pipe: seq<Byte>, acc: seq<Byte>, got: seq<Frame>)

  ghost function Carried(c: Channel): seq<Byte> {
    EncodeFrames(c.got) + c.acc + c.pipe + c.out
  }

  function Push(c: Channel, k: nat): Channel
    requires k <= |c.out|
  {
    c.(pipe := c.pipe + c.out[..k], out := c.out[k..])
  }

  function Pull(c: Channel, k: nat): Channel
    requires k <= |c.pipe|
  {
    c.(acc := c.acc + c.pipe[..k], pipe := c.pipe[k..])
  }

  function FrameOf(acc: seq<Byte>): Frame
    requires |acc| >= HEADER
  {
    Frame(acc[0], acc[HEADER..])
  }

  ghost function Take(c: Channel): Channel
    requires WholeFrame(c.acc)
  {
    c.(acc := [], got := c.got + [FrameOf(c.acc)])
  }

  /** The bytes of the channel are those of the writer, and what was returned is what was sent first. */
  ghost predicate ChannelOk(c: Channel, sent: seq<Frame>, cut: seq<Byte>) {
    && Carried(c) == EncodeFrames(sent) + cut
    && c.got <= sent
  }

  lemma PushKeepsBytes(c: Channel, k: nat)
    requires k <= |c.out|
    ensures Carried(Push(c, k)) == Carried(c)
  {
    assert c.out == c.out[..k] + c.out[k..];
  }

  lemma PullKeepsBytes(c: Channel, k: nat)
    requires k <= |c.pipe|
    ensures Carried(Pull(c, k)) == Carried(c)
  {
    assert c.pipe == c.pipe[..k] + c.pipe[k..];
  }

  lemma FrameOfEncoded(f: Frame)
    ensures FrameOf(EncodeFrame(f)) == f
  {
    EncodeFrameParts(f, EncodeFrame(f));
  }

  /** A whole frame taken from the channel is the next one that was sent. */
  lemma TakeIsNextSent(c: Channel, sent: seq<Frame>, cut: seq<Byte>)
    requires ChannelOk(c, sent, cut) && Short(sent) && CutShort(cut) && WholeFrame(c.acc)
    ensures |c.got| < |sent| && FrameOf(c.acc) == sent[|c.got|]
    ensures ChannelOk(Take(c), sent, cut)
  {
    var flight := sent[|c.got|..];
    assert sent == c.got + flight;
    forall i | 0 <= i < |flight| ensures |flight[i].payload| < TWO_32 {
      assert flight[i] == sent[|c.got| + i];
    }
    assert EncodeFrames(c.got) + c.acc <= EncodeFrames(c.got + flight) + cut by {
      assert Carried(c) == EncodeFrames(c.got) + c.acc + (c.pipe + c.out);
    }
    NextFrameIsNextSent(c.got, c.acc, flight, cut);
    FrameOfEncoded(flight[0]);
    EncodeFramesPush(c.got, flight[0]);
    assert Carried(Take(c)) == EncodeFrames(c.got) + c.acc + [] + c.pipe + c.out;
  }

  // ----- the child -----

  /** PAM is opaque; the shadow backend checks a C string against the stored hash: None when crypt fails. */
  datatype Backend = PamStack | ShadowFile(check: seq<Byte> -> Option<bool>)

  /** Why a success was reported. */
  datatype Reason = NoSuccess | PamSuccess | CryptMatch(payload: seq<Byte>)

  /** Where the PAM backend stands: between two messages of a module, in a poll with the frames it has taken, or
      in a prompt with the frames it has dropped. */
  datatype PamCall = Between | Polling(taken: seq<Frame>) | Prompting(dropped: seq<Frame>)

  datatype Child = Child(backend: Backend, running: bool, sent: seq<Frame>, verdicts: seq<bool>, reason: Reason,
                         user: seq<Byte>, calls: seq<Pam.Call>, pam: PamCall)

  function InCall(pam: PamCall): seq<Frame> {
    match pam
    case Between => []
    case Polling(taken) => taken
    case Prompting(dropped) => dropped
  }

  function Pending(ch: Child): seq<Pam.GdmEvent> {
    Pam.Greeted(ch.user, !Pam.AnyPoll(ch.calls)) + Pam.TranslateAll(InCall(ch.pam))
  }

  /** The child reads: the shadow loop always, the PAM backend in a prompt or in a poll with a slot left. */
  predicate Reads(ch: Child) {
    || ch.backend.ShadowFile?
    || ch.pam.Prompting?
    || (ch.pam.Polling? && |Pending(ch)| < Pam.MAX_PENDING)
  }

  function EndCall(ch: Child, call: Pam.Call): Child {
    ch.(calls := ch.calls + [call], pam := Between)
  }

  /** The PAM backend on one frame. */
  function PamTake(ch: Child, f: Frame): Child {
    match ch.pam
    case Between => ch
    case Polling(taken) => ch.(pam := Polling(taken + [f]))
    case Prompting(dropped) =>
      if f.typ == MSG_PASSWORD then EndCall(ch, Pam.Prompted(dropped, f.payload, CString(f.payload)))
      else ch.(pam := Prompting(dropped + [f]))
  }

  /** A poll that ends now was told each time that there was a frame, and then not. */
  function Poll(ch: Child): Pam.Call {
    Pam.Polled(seq(|InCall(ch.pam)|, _ => true), InCall(ch.pam), Pending(ch))
  }

  /** The child writes a verdict; after a success it exits. */
  function Verdict(ch: Child, success: bool, reason: Reason): Child {
    ch.(sent := ch.sent + [VerdictFrame(success)], verdicts := ch.verdicts + [success],
        reason := if success then reason else ch.reason, running := ch.running && !success)
  }

  /** What the conversation functions of pam.c may send while pam_authenticate runs. */
  predicate IsConversation(f: Frame) {
    f.typ == MSG_BROKERS || f.typ == MSG_AUTH_MODES || f.typ == MSG_UI_LAYOUT || f.typ == MSG_STAGE
    || f.typ == MSG_AUTH_EVENT
  }

  // ----- the system -----

  datatype Sys = Sys(main: Main, child: Child, down: Channel, up: Channel, exited: bool, unlocked: bool)

  datatype Act =
    | MainEvent(e: Event)
    | MainPush(k: nat)
    | MainPull(k: nat)
    | MainTake(json: Json)
    | MainExit
    | Unlock
    | ChildPush(k: nat)
    | ChildPull(k: nat)
    | ChildTake
    | PamPoll
    | PamPollEnd
    | PamPrompt
    | PamAbort
    | PamSend(f: Frame)
    | PamReturn(status: Pam.PamStatus)

  /** The main process sits in its event loop: not inside a write, not inside a read. */
  ghost predicate MainFree(s: Sys) {
    !s.exited && !s.unlocked && s.down.out == [] && s.up.acc == []
  }

  ghost predicate ChildFree(s: Sys) {
    s.child.running && s.up.out == []
  }

  /** No whole frame will come any more: comm_read of the child meets the end of the stream. */
  ghost predicate Ended(s: Sys) {
    s.exited && s.down.pipe == [] && !WholeFrame(s.down.acc)
  }

  ghost predicate PamFree(s: Sys) {
    ChildFree(s) && s.child.backend.PamStack? && s.child.pam.Between?
  }

  ghost predicate Can(s: Sys, a: Act) {
    match a
    case MainEvent(e) => MainFree(s) && !e.FromChild? && Enabled(s.main, e)
    case MainPush(k) => !s.exited && k <= |s.down.out|
    case MainPull(k) => !s.exited && !s.unlocked && s.down.out == [] && k <= |s.up.pipe| && k <= Wanted(s.up.acc)
    case MainTake(json) =>
      && !s.exited && !s.unlocked && s.down.out == [] && WholeFrame(s.up.acc)
      && (json.list.Entries? ==> SmallIds(json.list.ids))
    case MainExit => !s.unlocked
    case Unlock => MainFree(s) && !s.main.running
    case ChildPush(k) => k <= |s.up.out|
    case ChildPull(k) => ChildFree(s) && Reads(s.child) && k <= |s.down.pipe| && k <= Wanted(s.down.acc)
    case ChildTake => ChildFree(s) && Reads(s.child) && WholeFrame(s.down.acc)
    case PamPoll => PamFree(s)
    case PamPollEnd =>
      ChildFree(s) && s.child.backend.PamStack? && s.child.pam.Polling? && (s.down.acc == [] || Ended(s))
    case PamPrompt => PamFree(s)
    case PamAbort => ChildFree(s) && s.child.backend.PamStack? && s.child.pam.Prompting? && Ended(s)
    case PamSend(f) => PamFree(s) && IsConversation(f) && |f.payload| < TWO_32
    case PamReturn(_) => PamFree(s)
  }

  ghost function Say(s: Sys, child: Child, f: Frame): Sys {
    s.(child := child, up := s.up.(out := s.up.out + EncodeFrame(f)))
  }

  /** The shadow loop on one frame. */
  ghost function ShadowStep(s: Sys, f: Frame): Sys
    requires s.child.backend.ShadowFile?
  {
    if f.typ != MSG_PASSWORD then s
    else
      match s.child.backend.check(CString(f.payload))
      case None => s.(child := s.child.(running := false))
      case Some(success) => Say(s, Verdict(s.child, success, CryptMatch(f.payload)), VerdictFrame(success))
  }

  ghost function Do(s: Sys, a: Act): Sys
    requires Can(s, a)
  {
    match a
    case MainEvent(e) =>
      var m := Step(s.main, e);
      s.(main := m, down := s.down.(out := Added(Written(s.main.link), Written(m.link))))
    case MainPush(k) => s.(down := Push(s.down, k))
    case MainPull(k) => s.(up := Pull(s.up, k))
    case MainTake(json) =>
      var f := FrameOf(s.up.acc);
      if f.typ == 0 then s.(exited := true)
      else s.(up := Take(s.up), main := HandleMessage(s.main, f, json))
    case MainExit => s.(exited := true)
    case Unlock => s.(unlocked := true)
    case ChildPush(k) => s.(up := Push(s.up, k))
    case ChildPull(k) => s.(down := Pull(s.down, k))
    case ChildTake =>
      var t := s.(down := Take(s.down));
      if s.child.backend.PamStack? then t.(child := PamTake(s.child, FrameOf(s.down.acc)))
      else ShadowStep(t, FrameOf(s.down.acc))
    case PamPoll => s.(child := s.child.(pam := Polling([])))
    case PamPollEnd => s.(child := EndCall(s.child, Poll(s.child)))
    case PamPrompt =>
      var f := Pam.ChallengeFrame();
      Say(s, s.child.(sent := s.child.sent + [f], pam := Prompting([])), f)
    case PamAbort => s.(child := EndCall(s.child, Pam.Aborted(InCall(s.child.pam))))
    case PamSend(f) => Say(s, s.child.(sent := s.child.sent + [f]), f)
    case PamReturn(status) =>
      var ch := Verdict(s.child, status == Pam.PamOk, PamSuccess);
      Say(s, ch.(running := status == Pam.PamAuthErr), VerdictFrame(status == Pam.PamOk))
  }

  /** What a growing stream gained. */
  function Added(a: seq<Byte>, b: seq<Byte>): seq<Byte> {
    if |a| <= |b| then b[|a|..] else []
  }

  ghost predicate SysInitial(s: Sys) {
    && Initial(s.main)
    && s.child.running && s.child.sent == [] && s.child.verdicts == [] && s.child.reason == NoSuccess
    && s.child.calls == [] && s.child.pam == Between
    && s.down == Channel([], [], [], []) && s.up == Channel([], [], [], [])
    && !s.exited && !s.unlocked
  }

  ghost predicate IsSysRun(s: Sys, acts: seq<Act>)
    decreases |acts|
  {
    acts == [] || (Can(s, acts[0]) && IsSysRun(Do(s, acts[0]), acts[1..]))
  }

  ghost function SysAfter(s: Sys, acts: seq<Act>): Sys
    requires IsSysRun(s, acts)
    decreases |acts|
  {
    if acts == [] then s else SysAfter(Do(s, acts[0]), acts[1..])
  }

  // ----- the invariant -----

  function VerdictsOf(fs: seq<Frame>): seq<Frame> {
    if fs == [] then []
    else
      var init := VerdictsOf(fs[..|fs| - 1]);
      if fs[|fs| - 1].typ == MSG_AUTH_RESULT then init + [fs[|fs| - 1]] else init
  }

  /** The child has sent one verdict frame per verdict and nothing else of that type, only the last can be
      a success, and a success has ended the child and has a reason. */
  ghost predicate ChildOk(ch: Child) {
    && Short(ch.sent)
    && VerdictsOf(ch.sent) == VerdictFrames(ch.verdicts)
    && (forall i | 0 <= i < |ch.verdicts| - 1 :: !ch.verdicts[i])
    && (|ch.verdicts| > 0 && ch.verdicts[|ch.verdicts| - 1] ==> !ch.running)
    && (true in ch.verdicts <==> ch.reason != NoSuccess)
    && (ch.backend.PamStack? ==> !ch.reason.CryptMatch?)
    && (ch.backend.ShadowFile? ==> ch.reason != PamSuccess)
  }

  /** A crypt match was made on a password frame that the child had received. */
  ghost predicate MatchOk(s: Sys) {
    s.child.backend.ShadowFile? && s.child.reason.CryptMatch? ==>
      && s.child.backend.check(CString(s.child.reason.payload)) == Some(true)
      && Frame(MSG_PASSWORD, s.child.reason.payload) in s.down.got
  }

  ghost predicate AnyGranted(fs: seq<Frame>) {
    exists i | 0 <= i < |fs| :: Granted(fs[i])
  }

  ghost predicate SysInv(s: Sys) {
    && Inv(s.main)
    && ChannelOk(s.down, s.main.link.sent, s.main.link.cut)
    && ChannelOk(s.up, s.child.sent, [])
    && ChildOk(s.child)
    && MatchOk(s)
    && (!s.main.running ==> s.main.hist.stopped || AnyGranted(s.up.got))
    && (s.unlocked ==> !s.main.running)
  }

  // ----- every step keeps it -----

  lemma MainEventKeeps(s: Sys, e: Event)
    requires SysInv(s) && Can(s, MainEvent(e))
    ensures SysInv(Do(s, MainEvent(e)))
  {
    StepKeeps(s.main, e);
    EventPipe(s.main, e);
    var m := Step(s.main, e);
    OutGrows(s.down, s.main.link, m.link);
  }

  lemma OutGrows(c: Channel, a: Link, b: Link)
    requires ChannelOk(c, a.sent, a.cut) && c.out == [] && Grows(a, b)
    ensures ChannelOk(c.(out := Added(Written(a), Written(b))), b.sent, b.cut)
  {
    var more := Added(Written(a), Written(b));
    assert Written(b) == Written(a) + more;
    assert Carried(c.(out := more)) == Carried(c) + more;
  }

  lemma PushKeeps(c: Channel, k: nat, sent: seq<Frame>, cut: seq<Byte>)
    requires ChannelOk(c, sent, cut) && k <= |c.out|
    ensures ChannelOk(Push(c, k), sent, cut)
  {
    PushKeepsBytes(c, k);
  }

  lemma PullKeeps(c: Channel, k: nat, sent: seq<Frame>, cut: seq<Byte>)
    requires ChannelOk(c, sent, cut) && k <= |c.pipe|
    ensures ChannelOk(Pull(c, k), sent, cut)
  {
    PullKeepsBytes(c, k);
  }

  lemma NoCut()
    ensures CutShort([])
  {
    assert [] < EncodeFrame(Frame(1, []));
  }

  lemma SendableIsShort(fs: seq<Frame>)
    requires AllSendable(fs)
    ensures Short(fs)
  {}

  lemma GrantedStays(got: seq<Frame>, f: Frame)
    ensures AnyGranted(got) || Granted(f) ==> AnyGranted(got + [f])
  {
    if AnyGranted(got) {
      var i :| 0 <= i < |got| && Granted(got[i]);
      assert Granted((got + [f])[i]);
    }
    assert (got + [f])[|got|] == f;
  }

  lemma MainTakeKeeps(s: Sys, json: Json)
    requires SysInv(s) && Can(s, MainTake(json))
    ensures SysInv(Do(s, MainTake(json)))
  {
    var f := FrameOf(s.up.acc);
    NoCut();
    TakeIsNextSent(s.up, s.child.sent, []);
    MessageKept(s, f, json);
    MainMoves(s, HandleMessage(s.main, f, json), Take(s.up));
  }

  lemma MessageKept(s: Sys, f: Frame, json: Json)
    requires SysInv(s) && (json.list.Entries? ==> SmallIds(json.list.ids))
    ensures var m := HandleMessage(s.main, f, json);
            && Inv(m) && m.link == s.main.link
            && (!m.running ==> m.hist.stopped || AnyGranted(s.up.got + [f]))
  {
    MessageKeeps(s.main, f, json);
    MessagePipe(s.main, f, json);
    GrantedStays(s.up.got, f);
  }

  /** The parts of the invariant that a step of one kind leaves alone. */
  lemma MainMoves(s: Sys, m: Main, up: Channel)
    requires SysInv(s) && !s.unlocked && Inv(m) && m.link == s.main.link && ChannelOk(up, s.child.sent, [])
    requires !m.running ==> m.hist.stopped || AnyGranted(up.got)
    ensures SysInv(s.(up := up, main := m))
  {
    assert MatchOk(s.(up := up, main := m));
  }

  lemma DownMoves(s: Sys, c: Channel)
    requires SysInv(s) && ChannelOk(c, s.main.link.sent, s.main.link.cut) && s.down.got <= c.got
    ensures SysInv(s.(down := c))
  {
    assert MatchOk(s.(down := c));
  }

  lemma UpMoves(s: Sys, c: Channel)
    requires SysInv(s) && ChannelOk(c, s.child.sent, []) && c.got == s.up.got
    ensures SysInv(s.(up := c))
  {
    assert MatchOk(s.(up := c));
  }

  lemma CallMoves(s: Sys, ch: Child)
    requires SysInv(s) && ch == s.child.(calls := ch.calls, pam := ch.pam)
    ensures SysInv(s.(child := ch))
  {
    assert ChildOk(ch) && MatchOk(s.(child := ch));
  }

  lemma SayKeeps(c: Channel, sent: seq<Frame>, f: Frame)
    requires ChannelOk(c, sent, []) && c.out == []
    ensures ChannelOk(c.(out := c.out + EncodeFrame(f)), sent + [f], [])
  {
    EncodeFramesPush(sent, f);
    assert EncodeFrames(sent) + [] == EncodeFrames(sent);
    assert Carried(c.(out := c.out + EncodeFrame(f))) == Carried(c) + EncodeFrame(f);
  }

  lemma VerdictsOfPush(fs: seq<Frame>, f: Frame)
    ensures VerdictsOf(fs + [f]) == if f.typ == MSG_AUTH_RESULT then VerdictsOf(fs) + [f] else VerdictsOf(fs)
  {
    assert (fs + [f])[..|fs|] == fs;
  }

  lemma VerdictKeeps(ch: Child, success: bool, reason: Reason)
    requires ChildOk(ch) && ch.running
    requires if ch.backend.PamStack? then reason == PamSuccess else reason.CryptMatch?
    ensures ChildOk(Verdict(ch, success, reason))
    ensures ChildOk(Verdict(ch, success, reason).(running := false))
  {
    VerdictsOfPush(ch.sent, VerdictFrame(success));
    VerdictFramesPush(ch.verdicts, success);
    LastVerdict(ch.verdicts, success);
  }

  /** After nothing but denials, the next verdict is the only one that can be a success. */
  lemma LastVerdict(vs: seq<bool>, success: bool)
    requires forall i | 0 <= i < |vs| - 1 :: !vs[i]
    requires vs != [] ==> !vs[|vs| - 1]
    ensures forall i | 0 <= i < |vs + [success]| - 1 :: !(vs + [success])[i]
    ensures true in vs + [success] <==> success
    ensures true !in vs
  {
    forall i | 0 <= i < |vs| ensures !vs[i] {
      assert i < |vs| - 1 || i == |vs| - 1;
    }
    assert (vs + [success])[|vs|] == success;
  }

  lemma ConversationKeeps(ch: Child, f: Frame)
    requires ChildOk(ch) && IsConversation(f) && |f.payload| < TWO_32
    ensures ChildOk(ch.(sent := ch.sent + [f]))
  {
    VerdictsOfPush(ch.sent, f);
  }

  lemma PamReturnKeeps(s: Sys, status: Pam.PamStatus)
    requires SysInv(s) && Can(s, PamReturn(status))
    ensures SysInv(Do(s, PamReturn(status)))
  {
    VerdictKeeps(s.child, status == Pam.PamOk, PamSuccess);
    SayKeeps(s.up, s.child.sent, VerdictFrame(status == Pam.PamOk));
  }

  lemma PamSendKeeps(s: Sys, f: Frame)
    requires SysInv(s) && Can(s, PamSend(f))
    ensures SysInv(Do(s, PamSend(f)))
  {
    ConversationKeeps(s.child, f);
    SayKeeps(s.up, s.child.sent, f);
  }

  lemma PamPromptKeeps(s: Sys)
    requires SysInv(s) && Can(s, PamPrompt)
    ensures SysInv(Do(s, PamPrompt))
  {
    ConversationKeeps(s.child, Pam.ChallengeFrame());
    SayKeeps(s.up, s.child.sent, Pam.ChallengeFrame());
  }

  lemma ChildTakeKeeps(s: Sys)
    requires SysInv(s) && Can(s, ChildTake)
    ensures SysInv(Do(s, ChildTake))
  {
    var f := FrameOf(s.down.acc);
    SendableIsShort(s.main.link.sent);
    TakeIsNextSent(s.down, s.main.link.sent, s.main.link.cut);
    var t := s.(down := Take(s.down));
    DownMoves(s, Take(s.down));
    if s.child.backend.ShadowFile? {
      ShadowKeeps(t, f);
    } else {
      CallMoves(t, PamTake(s.child, f));
    }
  }

  lemma ShadowKeeps(t: Sys, f: Frame)
    requires SysInv(t) && t.child.backend.ShadowFile? && ChildFree(t) && f in t.down.got
    ensures SysInv(ShadowStep(t, f))
  {
    if f.typ == MSG_PASSWORD {
      match t.child.backend.check(CString(f.payload)) {
        case None =>
        case Some(success) =>
          VerdictKeeps(t.child, success, CryptMatch(f.payload));
          SayKeeps(t.up, t.child.sent, VerdictFrame(success));
      }
    }
  }

  lemma DoKeeps(s: Sys, a: Act)
    requires SysInv(s) && Can(s, a)
    ensures SysInv(Do(s, a))
  {
    match a {
      case MainEvent(e) => MainEventKeeps(s, e);
      case MainPush(k) =>
        PushKeeps(s.down, k, s.main.link.sent, s.main.link.cut);
        DownMoves(s, Push(s.down, k));
      case MainPull(k) =>
        PullKeeps(s.up, k, s.child.sent, []);
        UpMoves(s, Pull(s.up, k));
      case MainTake(json) => MainTakeKeeps(s, json);
      case MainExit =>
      case Unlock =>
      case ChildPush(k) =>
        PushKeeps(s.up, k, s.child.sent, []);
        UpMoves(s, Push(s.up, k));
      case ChildPull(k) =>
        PullKeeps(s.down, k, s.main.link.sent, s.main.link.cut);
        DownMoves(s, Pull(s.down, k));
      case ChildTake => ChildTakeKeeps(s);
      case PamPoll => CallMoves(s, s.child.(pam := Polling([])));
      case PamPollEnd => CallMoves(s, EndCall(s.child, Poll(s.child)));
      case PamPrompt => PamPromptKeeps(s);
      case PamAbort => CallMoves(s, EndCall(s.child, Pam.Aborted(InCall(s.child.pam))));
      case PamSend(f) => PamSendKeeps(s, f);
      case PamReturn(status) => PamReturnKeeps(s, status);
    }
  }

  lemma SysInitialInv(s: Sys)
    requires SysInitial(s)
    ensures SysInv(s)
  {
    InitialInv(s.main);
  }

  lemma {:induction false} SysRunKeeps(s: Sys, acts: seq<Act>)
    requires SysInv(s) && IsSysRun(s, acts)
    ensures SysInv(SysAfter(s, acts))
    decreases |acts|
  {
    if acts != [] {
      DoKeeps(s, acts[0]);
      SysRunKeeps(Do(s, acts[0]), acts[1..]);
    }
  }

  // ----- safety of unlocking -----

  lemma GrantedMeansSuccess(s: Sys)
    requires SysInv(s) && AnyGranted(s.up.got)
    ensures true in s.child.verdicts
  {
    var i :| 0 <= i < |s.up.got| && Granted(s.up.got[i]);
    var n := VerdictAt(s.child.sent, i);
    VerdictPosition(s.child.verdicts, n);
  }

  lemma {:induction false} PasswordInSent(fs: seq<Frame>, f: Frame)
    requires f in fs && f.typ == MSG_PASSWORD
    ensures f in PasswordsOf(fs)
  {
    if f in fs[..|fs| - 1] {
      PasswordInSent(fs[..|fs| - 1], f);
    } else {
      assert f == fs[|fs| - 1];
    }
  }

  /** A password payload in the pipe is the encoding of a submitted stack, and C code sees exactly that. */
  lemma PayloadIsSubmitted(s: Sys, payload: seq<Byte>) returns (i: nat)
    requires SysInv(s) && Frame(MSG_PASSWORD, payload) in s.down.got
    ensures i < |s.main.hist.delivered|
    ensures payload == EncodeAll(s.main.hist.delivered[i]) + [0]
    ensures CString(payload) == EncodeAll(s.main.hist.delivered[i])
  {
    var f := Frame(MSG_PASSWORD, payload);
    PasswordInSent(s.main.link.sent, f);
    var fs := PasswordFrames(s.main.hist.delivered);
    var j :| 0 <= j < |fs| && fs[j] == f;
    i := j;
    assert FitsBuffer(s.main.hist.delivered[i], s.main.cap);
    EncodeAllNoNul(s.main.hist.delivered[i]);
    CStringOfTerminated(EncodeAll(s.main.hist.delivered[i]), []);
    assert payload + [] == payload;
  }

  /** Some submitted password passes the check. */
  ghost predicate SubmittedMatch(s: Sys) {
    && s.child.backend.ShadowFile?
    && exists i | 0 <= i < |s.main.hist.delivered| ::
         s.child.backend.check(EncodeAll(s.main.hist.delivered[i])) == Some(true)
  }

  /** Only a return of pam_authenticate with PAM_SUCCESS counts as its success. */
  lemma {:induction false} PamReturned(s: Sys, acts: seq<Act>)
    requires IsSysRun(s, acts) && s.child.reason != PamSuccess && SysAfter(s, acts).child.reason == PamSuccess
    ensures PamReturn(Pam.PamOk) in acts
    decreases |acts|
  {
    if acts[0] != PamReturn(Pam.PamOk) {
      ReasonStays(s, acts[0]);
      PamReturned(Do(s, acts[0]), acts[1..]);
    }
  }

  lemma ReasonStays(s: Sys, a: Act)
    requires Can(s, a) && a != PamReturn(Pam.PamOk) && s.child.reason != PamSuccess
    ensures Do(s, a).child.reason != PamSuccess
  {}

  /** The screen is unlocked only after the backend has reported success: pam_authenticate returned
      PAM_SUCCESS, or crypt matched a password that the user submitted. This holds for every interleaving,
      every way to split reads and writes, every key and timer sequence and every answer of the backend,
      unless the loop was stopped from outside. */
  lemma UnlockNeedsSuccess(s: Sys, acts: seq<Act>)
    requires SysInitial(s) && IsSysRun(s, acts)
    ensures var e := SysAfter(s, acts);
            e.unlocked && !e.main.hist.stopped ==>
              && true in e.child.verdicts && e.child.backend == s.child.backend
              && (PamReturn(Pam.PamOk) in acts || SubmittedMatch(e))
  {
    BackendStays(s, acts);
    SysInitialInv(s);
    SysRunKeeps(s, acts);
    var e := SysAfter(s, acts);
    if e.unlocked && !e.main.hist.stopped {
      GrantedMeansSuccess(e);
      if e.child.reason.CryptMatch? {
        var i := PayloadIsSubmitted(e, e.child.reason.payload);
      } else {
        PamReturned(s, acts);
      }
    }
  }

  // ----- verdicts -----

  lemma {:induction false} VerdictFrameAt(vs: seq<bool>, i: nat)
    requires i < |vs|
    ensures |VerdictFrames(vs)| == |vs| && VerdictFrames(vs)[i] == VerdictFrame(vs[i])
  {
    if |vs| > 1 {
      VerdictFrameAt(vs[..|vs| - 1], if i < |vs| - 1 then i else 0);
    }
  }

  lemma SuccessIsLast(ch: Child, i: nat, j: nat)
    requires ChildOk(ch) && i < j < |ch.sent| && Granted(ch.sent[i])
    ensures ch.sent[j].typ != MSG_AUTH_RESULT
  {
    if ch.sent[j].typ == MSG_AUTH_RESULT {
      var n := VerdictPlace(ch.sent, i, j);
      VerdictPosition(ch.verdicts, n);
      assert false;
    }
  }

  lemma {:induction false} VerdictAt(fs: seq<Frame>, i: nat) returns (n: nat)
    requires i < |fs| && fs[i].typ == MSG_AUTH_RESULT
    ensures n < |VerdictsOf(fs)| && VerdictsOf(fs)[n] == fs[i]
  {
    if i < |fs| - 1 {
      n := VerdictAt(fs[..|fs| - 1], i);
    } else {
      n := |VerdictsOf(fs[..i])|;
    }
  }

  /** Among the verdict frames, the one at `i` comes before the one at `j`. */
  lemma {:induction false} VerdictPlace(fs: seq<Frame>, i: nat, j: nat) returns (n: nat)
    requires i < j < |fs| && fs[i].typ == MSG_AUTH_RESULT && fs[j].typ == MSG_AUTH_RESULT
    ensures n + 1 < |VerdictsOf(fs)| && VerdictsOf(fs)[n] == fs[i]
  {
    if j < |fs| - 1 {
      n := VerdictPlace(fs[..|fs| - 1], i, j);
    } else {
      n := VerdictAt(fs[..j], i);
    }
  }

  /** Once a success is written, the child writes no further result, in any run. */
  lemma NoResultAfterSuccess(s: Sys, acts: seq<Act>, i: nat, j: nat)
    requires SysInitial(s) && IsSysRun(s, acts)
    requires i < j < |SysAfter(s, acts).child.sent| && Granted(SysAfter(s, acts).child.sent[i])
    ensures SysAfter(s, acts).child.sent[j].typ != MSG_AUTH_RESULT
  {
    SysInitialInv(s);
    SysRunKeeps(s, acts);
    SuccessIsLast(SysAfter(s, acts).child, i, j);
  }

  lemma VerdictPosition(vs: seq<bool>, i: nat)
    requires i < |VerdictFrames(vs)|
    ensures i < |vs| == |VerdictFrames(vs)| && VerdictFrames(vs)[i] == VerdictFrame(vs[i])
  {
    if vs != [] {
      VerdictFrameAt(vs, 0);
      VerdictFrameAt(vs, i);
    }
  }

  // ----- a success unlocks -----

  /** The loop goes on until the frame of a success is taken, and no further. */
  ghost predicate Ends(s: Sys) {
    s.main.running ==> !s.main.hist.stopped && Frame(0x81, [1]) !in s.up.got
  }

  lemma StepEnds(s: Sys, a: Act)
    requires SysInv(s) && Can(s, a) && Ends(s)
    ensures Ends(Do(s, a))
  {
    match a {
      case MainEvent(e) => EventEnds(s, e);
      case MainTake(json) =>
        var f := FrameOf(s.up.acc);
        MessagePipe(s.main, f, json);
        assert Frame(0x81, [1]) in s.up.got + [f] ==> Frame(0x81, [1]) in s.up.got || f == Frame(0x81, [1]);
      case _ => MainSame(s, a);
    }
  }

  lemma EventEnds(s: Sys, e: Event)
    requires SysInv(s) && Can(s, MainEvent(e)) && Ends(s)
    ensures Ends(Do(s, MainEvent(e)))
  {
    EventPipe(s.main, e);
    if e.Stop? {
      assert !Step(s.main, e).running;
    }
  }

  lemma MainSame(s: Sys, a: Act)
    requires Can(s, a) && !a.MainEvent? && !a.MainTake?
    ensures Do(s, a).main == s.main && Do(s, a).up.got == s.up.got
  {}

  lemma {:induction false} RunEnds(s: Sys, acts: seq<Act>)
    requires SysInv(s) && IsSysRun(s, acts) && Ends(s)
    ensures Ends(SysAfter(s, acts))
    decreases |acts|
  {
    if acts != [] {
      DoKeeps(s, acts[0]);
      StepEnds(s, acts[0]);
      RunEnds(Do(s, acts[0]), acts[1..]);
    }
  }

  /** Verdict frames spelt out. */
  lemma {:induction false} VerdictsSpelt(vs: seq<bool>, f: Frame)
    requires f in VerdictFrames(vs)
    ensures f == Frame(0x81, [0]) || f == Frame(0x81, [1])
    ensures f == Frame(0x81, [1]) ==> true in vs
  {
    var init, v := vs[..|vs| - 1], vs[|vs| - 1];
    if f in VerdictFrames(init) {
      VerdictsSpelt(init, f);
    } else {
      VerdictIs(v);
    }
  }

  lemma {:induction false} ResultAmong(fs: seq<Frame>, f: Frame)
    requires f in fs && f.typ == 0x81
    ensures f in VerdictsOf(fs)
  {
    if f in fs[..|fs| - 1] {
      ResultAmong(fs[..|fs| - 1], f);
    } else {
      assert f == fs[|fs| - 1];
    }
  }

  /** The converse of UnlockNeedsSuccess. In every run that nothing stops from outside, the loop has ended if and
      only if the main process has taken the frame 0x81 with payload 1; the child writes that frame exactly when its
      backend succeeds; so once everything is taken, a success means that the loop has ended and the screen can be
      unlocked. */
  lemma SuccessUnlocks(s: Sys, acts: seq<Act>)
    requires SysInitial(s) && IsSysRun(s, acts)
    ensures var e := SysAfter(s, acts);
            && (!e.main.hist.stopped ==> (!e.main.running <==> Frame(0x81, [1]) in e.up.got))
            && (true in e.child.verdicts <==> Frame(0x81, [1]) in e.child.sent)
            && (e.up.got == e.child.sent && true in e.child.verdicts ==> !e.main.running)
            && (!e.main.running && MainFree(e) ==> Can(e, Unlock) && Do(e, Unlock).unlocked)
  {
    SysInitialInv(s);
    SysRunKeeps(s, acts);
    RunEnds(s, acts);
    var e := SysAfter(s, acts);
    if !e.main.running && !e.main.hist.stopped {
      var i :| 0 <= i < |e.up.got| && Granted(e.up.got[i]);
      assert e.up.got[i] == e.child.sent[i];
      ResultAmong(e.child.sent, e.up.got[i]);
      VerdictsSpelt(e.child.verdicts, e.up.got[i]);
      assert e.up.got[i] in e.up.got;
    }
    SuccessIsSent(e.child);
  }

  lemma SuccessIsSent(ch: Child)
    requires ChildOk(ch)
    ensures true in ch.verdicts <==> Frame(0x81, [1]) in ch.sent
  {
    if Frame(0x81, [1]) in ch.sent {
      ResultAmong(ch.sent, Frame(0x81, [1]));
      VerdictsSpelt(ch.verdicts, Frame(0x81, [1]));
    }
    if true in ch.verdicts {
      var i :| 0 <= i < |ch.verdicts| && ch.verdicts[i];
      VerdictFrameAt(ch.verdicts, i);
      VerdictIs(true);
      FromVerdicts(ch.sent, Frame(0x81, [1]));
    }
  }

  lemma {:induction false} FromVerdicts(fs: seq<Frame>, f: Frame)
    requires f in VerdictsOf(fs)
    ensures f in fs
  {
    if f in VerdictsOf(fs[..|fs| - 1]) {
      FromVerdicts(fs[..|fs| - 1], f);
    }
  }

  // ----- the verdicts of PAM in the system -----

  /** What pam_authenticate returned in a run. */
  function Returned(acts: seq<Act>): seq<Pam.PamStatus> {
    if acts == [] then []
    else (if acts[0].PamReturn? then [acts[0].status] else []) + Returned(acts[1..])
  }

  lemma {:induction false} StoppedReturnsNothing(s: Sys, acts: seq<Act>)
    requires IsSysRun(s, acts) && !s.child.running
    ensures Returned(acts) == [] && SysAfter(s, acts).child.verdicts == s.child.verdicts
    decreases |acts|
  {
    if acts != [] {
      StaysStopped(s, acts[0]);
      StoppedReturnsNothing(Do(s, acts[0]), acts[1..]);
    }
  }

  lemma StaysStopped(s: Sys, a: Act)
    requires Can(s, a) && !s.child.running
    ensures !a.PamReturn? && Do(s, a).child == s.child
  {}

  lemma ActVerdicts(s: Sys, a: Act)
    requires Can(s, a) && s.child.backend.PamStack? && s.child.running
    ensures !a.PamReturn? ==> Do(s, a).child.verdicts == s.child.verdicts && Do(s, a).child.running
    ensures a.PamReturn? ==>
              && Do(s, a).child.verdicts == s.child.verdicts + [a.status == Pam.PamOk]
              && Do(s, a).child.running == (a.status == Pam.PamAuthErr)
    ensures Do(s, a).child.backend == s.child.backend
  {}

  /** In every run the verdicts of the PAM backend are those of the attempts: one each, up to the first that does
      not end with PAM_AUTH_ERR. */
  lemma {:induction false} PamJudges(s: Sys, acts: seq<Act>)
    requires IsSysRun(s, acts) && s.child.backend.PamStack? && s.child.running
    ensures SysAfter(s, acts).child.verdicts == s.child.verdicts + Pam.Attempted(Returned(acts))
    decreases |acts|
  {
    if acts != [] {
      var n := Do(s, acts[0]);
      ActVerdicts(s, acts[0]);
      if n.child.running {
        PamJudges(n, acts[1..]);
      } else {
        StoppedReturnsNothing(n, acts[1..]);
      }
      if acts[0].PamReturn? {
        NextAttempt(s.child.verdicts, acts[0].status, Returned(acts[1..]));
      } else {
        assert [] + Returned(acts[1..]) == Returned(acts[1..]);
      }
    }
  }

  lemma NextAttempt(vs: seq<bool>, status: Pam.PamStatus, rest: seq<Pam.PamStatus>)
    ensures var all := vs + Pam.Attempted([status] + rest);
            all == vs + [status == Pam.PamOk] + if status == Pam.PamAuthErr then Pam.Attempted(rest) else []
  {
    assert ([status] + rest)[1..] == rest;
  }

  // ----- the shadow backend in the system -----

  /** The verdicts of the shadow backend are those of the passwords that it has taken, and it only runs on while
      all were denied. */
  ghost predicate Judges(s: Sys) {
    s.child.backend.ShadowFile? ==>
      && s.child.verdicts == Verdicts(PasswordsIn(s.down.got), s.child.backend.check)
      && (s.child.running ==> AllDenied(PasswordsIn(s.down.got), s.child.backend.check))
  }

  lemma TakeJudges(s: Sys)
    requires Judges(s) && Can(s, ChildTake)
    ensures Judges(Do(s, ChildTake))
  {
    if s.child.backend.ShadowFile? {
      var f := FrameOf(s.down.acc);
      var check := s.child.backend.check;
      PasswordsPush(s.down.got, f);
      NextJudged(PasswordsIn(s.down.got), CString(f.payload), check);
      assert s.child.verdicts + [] == s.child.verdicts;
    }
  }

  lemma NextJudged(ps: seq<seq<Byte>>, p: seq<Byte>, check: Check)
    requires AllDenied(ps, check)
    ensures Verdicts(ps + [p], check) == Verdicts(ps, check) + if check(p).Some? then [check(p).value] else []
    ensures check(p) == Some(false) ==> AllDenied(ps + [p], check)
  {
    VerdictsPush(ps, p, check);
  }

  lemma {:induction false} RunJudges(s: Sys, acts: seq<Act>)
    requires Judges(s) && IsSysRun(s, acts)
    ensures Judges(SysAfter(s, acts))
    decreases |acts|
  {
    if acts != [] {
      if acts[0].ChildTake? {
        TakeJudges(s);
      }
      RunJudges(Do(s, acts[0]), acts[1..]);
    }
  }

  /** In every run the shadow backend has judged exactly the passwords that it has received, in order and up to
      the first success. */
  lemma ShadowJudges(s: Sys, acts: seq<Act>)
    requires SysInitial(s) && IsSysRun(s, acts) && s.child.backend.ShadowFile?
    ensures var e := SysAfter(s, acts);
            && e.child.backend == s.child.backend
            && e.child.verdicts == Verdicts(PasswordsIn(e.down.got), s.child.backend.check)
            && VerdictsOf(e.child.sent) == VerdictFrames(e.child.verdicts)
  {
    SysInitialInv(s);
    SysRunKeeps(s, acts);
    BackendStays(s, acts);
    RunJudges(s, acts);
  }

  lemma {:induction false} BackendStays(s: Sys, acts: seq<Act>)
    requires IsSysRun(s, acts)
    ensures SysAfter(s, acts).child.backend == s.child.backend
    decreases |acts|
  {
    if acts != [] {
      BackendStays(Do(s, acts[0]), acts[1..]);
    }
  }

  // ----- integrity of passwords -----

  lemma {:induction false} PasswordsOfPrefix(fs: seq<Frame>, k: nat)
    requires k <= |fs|
    ensures PasswordsOf(fs[..k]) <= PasswordsOf(fs)
  {
    if k < |fs| {
      PasswordsOfPrefix(fs[..|fs| - 1], k);
      assert fs[..|fs| - 1][..k] == fs[..k];
    } else {
      assert fs[..k] == fs;
    }
  }

  /** The k-th password frame that the child receives carries the k-th submitted stack of code points: its
      UTF-8 bytes, one NUL, no NUL before it, at most 1023 bytes in all. Code points of the standard's
      layout can be read back from it. */
  lemma PasswordIntegrity(s: Sys, acts: seq<Act>, k: nat)
    requires SysInitial(s) && IsSysRun(s, acts)
    requires k < |PasswordsOf(SysAfter(s, acts).down.got)|
    ensures k < |SysAfter(s, acts).main.hist.delivered|
    ensures var cps := SysAfter(s, acts).main.hist.delivered[k];
            var payload := PasswordsOf(SysAfter(s, acts).down.got)[k].payload;
            && payload == EncodeAll(cps) + [0] && NoNul(EncodeAll(cps))
            && 1 <= |payload| <= 1023
            && CString(payload) == EncodeAll(cps)
            && (InLayout(cps) ==> DecodeAll(CString(payload)) == cps)
  {
    SysInitialInv(s);
    SysRunKeeps(s, acts);
    var e := SysAfter(s, acts);
    assert e.down.got == e.main.link.sent[..|e.down.got|];
    PasswordsOfPrefix(e.main.link.sent, |e.down.got|);
    var cps := e.main.hist.delivered[k];
    assert FitsBuffer(cps, e.main.cap);
    EncodeAllNoNul(cps);
    CStringOfTerminated(EncodeAll(cps), []);
    assert EncodeAll(cps) + [0] + [] == EncodeAll(cps) + [0];
    if InLayout(cps) {
      DecodeAllEncodeAll(cps);
    }
  }

  // ----- from the keys to the child -----

  /** The events of the main process in a run of the system. */
  ghost function MainPart(s: Sys, acts: seq<Act>): seq<Event>
    requires IsSysRun(s, acts)
    decreases |acts|
  {
    if acts == [] then []
    else
      var rest := MainPart(Do(s, acts[0]), acts[1..]);
      match acts[0]
      case MainEvent(e) => [e] + rest
      case MainTake(json) => if FrameOf(s.up.acc).typ == 0 then rest else [FromChild(FrameOf(s.up.acc), json)] + rest
      case _ => rest
  }

  lemma {:induction false} MainPartRuns(s: Sys, acts: seq<Act>)
    requires IsSysRun(s, acts)
    ensures IsRun(s.main, MainPart(s, acts)) && After(s.main, MainPart(s, acts)) == SysAfter(s, acts).main
    decreases |acts|
  {
    if acts != [] {
      var n := Do(s, acts[0]);
      MainPartRuns(n, acts[1..]);
      MainSteps(s, acts[0]);
      var rest, es := MainPart(n, acts[1..]), MainPart(s, acts);
      if |es| > |rest| {
        assert es[1..] == rest;
      }
    }
  }

  lemma MainSteps(s: Sys, a: Act)
    requires Can(s, a)
    ensures match a
            case MainEvent(e) => Do(s, a).main == Step(s.main, e)
            case MainTake(json) =>
              var f := FrameOf(s.up.acc);
              Do(s, a).main == if f.typ == 0 then s.main else Step(s.main, FromChild(f, json))
            case _ => Do(s, a).main == s.main
  {}

  /** End to end: the k-th password that the child receives is the k-th stack that the keys, repeats, messages and
      timers of the run left on the desk when Enter was accepted. */
  lemma TypedIsReceived(s: Sys, acts: seq<Act>, k: nat)
    requires SysInitial(s) && IsSysRun(s, acts)
    requires k < |PasswordsOf(SysAfter(s, acts).down.got)|
    ensures IsRun(s.main, MainPart(s, acts))
    ensures var es := MainPart(s, acts);
            var handed := DeskAfter(DeskOf(s.main), es, RangIn(s.main, es)).delivered;
            && k < |handed|
            && PasswordsOf(SysAfter(s, acts).down.got)[k] == Frame(MSG_PASSWORD, EncodeAll(handed[k]) + [0])
  {
    var es := MainPart(s, acts);
    MainPartRuns(s, acts);
    InitialInv(s.main);
    RunTyped(s.main, es);
    PasswordIntegrity(s, acts, k);
    PasswordTyped(SysAfter(s, acts).down.got, k);
  }

  lemma {:induction false} PasswordTyped(fs: seq<Frame>, k: nat)
    requires k < |PasswordsOf(fs)|
    ensures PasswordsOf(fs)[k].typ == MSG_PASSWORD
  {
    var init := fs[..|fs| - 1];
    if k < |PasswordsOf(init)| {
      PasswordTyped(init, k);
    }
  }

  // ----- the PAM backend in the system -----

  /** The calls answered so far, and the one under way, have taken exactly the frames received. */
  ghost predicate Talks(s: Sys) {
    s.child.backend.PamStack? ==>
      && Pam.Conversed(s.child.calls, s.down.got, InCall(s.child.pam), s.child.user, false)
      && (Pam.Open(s.child.calls) || Ended(s))
      && (s.child.pam.Prompting? ==> Pam.NoPassword(s.child.pam.dropped))
      && (s.child.pam.Polling? ==> |Pending(s.child)| <= Pam.MAX_PENDING)
  }

  lemma PamTakeTalks(s: Sys)
    requires Talks(s) && Can(s, ChildTake) && s.child.backend.PamStack?
    ensures Talks(Do(s, ChildTake))
  {
    var ch, f := s.child, FrameOf(s.down.acc);
    Pam.ConversedGrows(ch.calls, s.down.got, InCall(ch.pam), ch.user, false, f);
    match ch.pam {
      case Polling(taken) => OneMorePending(ch, f);
      case Prompting(dropped) =>
        if f.typ == MSG_PASSWORD {
          CallEnds(s.down.got + [f], ch, Pam.Prompted(dropped, f.payload, CString(f.payload)));
        }
    }
  }

  lemma OneMorePending(ch: Child, f: Frame)
    requires ch.pam.Polling? && |Pending(ch)| < Pam.MAX_PENDING
    ensures |Pending(ch.(pam := Polling(ch.pam.taken + [f])))| <= Pam.MAX_PENDING
  {
    Pam.TranslatePush(ch.pam.taken, f);
  }

  lemma CallEnds(got: seq<Frame>, ch: Child, c: Pam.Call)
    requires Pam.Conversed(ch.calls, got, c.Taken(), ch.user, false)
    requires c.Allowed(c.Taken(), ch.user, Pam.AnyPoll(ch.calls))
    ensures Pam.Conversed(EndCall(ch, c).calls, got, [], ch.user, false)
    ensures Pam.Open(ch.calls) && !c.Aborted? && (c.Polled? ==> |c.ready| == |c.frames|)
            ==> Pam.Open(EndCall(ch, c).calls)
  {
    assert c.Taken() + [] == c.Taken();
    Pam.ConversedPush(ch.calls, c, got, [], ch.user, false);
  }

  lemma PollEndTalks(s: Sys)
    requires Talks(s) && Can(s, PamPollEnd)
    ensures Talks(Do(s, PamPollEnd))
  {
    CallEnds(s.down.got, s.child, Poll(s.child));
  }

  lemma AbortTalks(s: Sys)
    requires Talks(s) && Can(s, PamAbort)
    ensures Talks(Do(s, PamAbort))
  {
    CallEnds(s.down.got, s.child, Pam.Aborted(s.child.pam.dropped));
  }

  /** Once the stream has ended for the child, it stays so. */
  lemma StaysEnded(s: Sys, a: Act)
    requires Can(s, a) && Ended(s)
    ensures Ended(Do(s, a))
  {
    if a.ChildPull? {
      assert Pull(s.down, a.k) == s.down;
    }
  }

  lemma StepTalks(s: Sys, a: Act)
    requires Talks(s) && Can(s, a)
    ensures Talks(Do(s, a))
  {
    if Ended(s) {
      StaysEnded(s, a);
    }
    match a {
      case ChildTake =>
        if s.child.backend.PamStack? {
          PamTakeTalks(s);
        }
      case PamPollEnd => PollEndTalks(s);
      case PamAbort => AbortTalks(s);
      case PamPoll => OneGreeting(s.child);
      case PamPrompt =>
      case _ =>
        SameCalls(s, a);
        TalkSame(s, Do(s, a));
    }
  }

  lemma SameCalls(s: Sys, a: Act)
    requires Can(s, a) && !a.ChildTake? && !a.PamPoll? && !a.PamPollEnd? && !a.PamPrompt? && !a.PamAbort?
    ensures var t := Do(s, a);
            && t.child.backend == s.child.backend && t.child.user == s.child.user
            && t.child.calls == s.child.calls && t.child.pam == s.child.pam && t.down.got == s.down.got
  {}

  lemma TalkSame(s: Sys, t: Sys)
    requires Talks(s) && (Ended(s) ==> Ended(t))
    requires t.child.backend == s.child.backend && t.child.user == s.child.user
    requires t.child.calls == s.child.calls && t.child.pam == s.child.pam && t.down.got == s.down.got
    ensures Talks(t)
  {}

  lemma OneGreeting(ch: Child)
    ensures |Pending(ch.(pam := Polling([])))| <= 1
  {}

  lemma {:induction false} RunTalks(s: Sys, acts: seq<Act>)
    requires Talks(s) && IsSysRun(s, acts)
    ensures Talks(SysAfter(s, acts))
    decreases |acts|
  {
    if acts != [] {
      StepTalks(s, acts[0]);
      RunTalks(Do(s, acts[0]), acts[1..]);
    }
  }

  /** Both ways to list the passwords among frames. */
  lemma {:induction false} SamePasswords(fs: seq<Frame>, k: nat)
    ensures |PasswordsIn(fs)| == |PasswordsOf(fs)|
    ensures k < |PasswordsOf(fs)| ==> PasswordsIn(fs)[k] == CString(PasswordsOf(fs)[k].payload)
  {
    if fs != [] {
      var init := fs[..|fs| - 1];
      SamePasswords(init, k);
      PasswordsPush(init, fs[|fs| - 1]);
      assert fs == init + [fs[|fs| - 1]];
    }
  }

  /** End to end for PAM: polls and prompts of a run, in any mix, form one conversation over the frames received;
      and the k-th password that they hand to the modules, as the secret of an event or as an answer, is the k-th
      stack that the keys of the run left on the desk. */
  lemma SecretsAreTyped(s: Sys, acts: seq<Act>)
    requires SysInitial(s) && IsSysRun(s, acts) && s.child.backend.PamStack?
    ensures var e := SysAfter(s, acts);
            Pam.Conversed(e.child.calls, e.down.got, InCall(e.child.pam), e.child.user, false)
    ensures IsRun(s.main, MainPart(s, acts))
    ensures var es := MainPart(s, acts);
            var handed := DeskAfter(DeskOf(s.main), es, RangIn(s.main, es)).delivered;
            var secrets := Pam.Secrets(SysAfter(s, acts).child.calls);
            |secrets| <= |handed| && forall k | 0 <= k < |secrets| :: secrets[k] == EncodeAll(handed[k])
  {
    var e := SysAfter(s, acts);
    BackendStays(s, acts);
    RunTalks(s, acts);
    MainPartRuns(s, acts);
    SecretsReceived(e);
    var secrets := Pam.Secrets(e.child.calls);
    if secrets != [] {
      SecretTyped(s, acts, |secrets| - 1);
    }
    forall k | 0 <= k < |secrets|
      ensures var es := MainPart(s, acts);
              var handed := DeskAfter(DeskOf(s.main), es, RangIn(s.main, es)).delivered;
              k < |handed| && secrets[k] == EncodeAll(handed[k])
    {
      SecretTyped(s, acts, k);
    }
  }

  /** What was passed on comes first among the passwords received. */
  lemma SecretsReceived(e: Sys)
    requires Talks(e) && e.child.backend.PamStack?
    ensures Pam.Secrets(e.child.calls) <= PasswordsIn(e.down.got)
  {
    Pam.SecretsInOrder(e.child.calls, e.down.got, InCall(e.child.pam), e.child.user, false);
    Pam.NothingLost(e.child.calls, e.down.got, InCall(e.child.pam), e.child.user, false);
    PasswordsConcat(Pam.Taken(e.child.calls), InCall(e.child.pam));
  }

  lemma SecretTyped(s: Sys, acts: seq<Act>, k: nat)
    requires SysInitial(s) && IsSysRun(s, acts) && IsRun(s.main, MainPart(s, acts))
    requires k < |PasswordsIn(SysAfter(s, acts).down.got)|
    ensures var es := MainPart(s, acts);
            var handed := DeskAfter(DeskOf(s.main), es, RangIn(s.main, es)).delivered;
            k < |handed| && PasswordsIn(SysAfter(s, acts).down.got)[k] == EncodeAll(handed[k])
  {
    SamePasswords(SysAfter(s, acts).down.got, k);
    TypedIsReceived(s, acts, k);
    PasswordIntegrity(s, acts, k);
  }
}
