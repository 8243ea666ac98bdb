/** The child process of the PAM backend: the conversation function that PAM modules call back, and the loop
    around pam_authenticate. What PAM decides is an oracle. */
module Pam {
  import opened Bytes
  import opened Frames
  import opened Pipes
  import opened Shadow

  const MAX_PENDING := 64

  /** An event in a pollResponse. */
  datatype GdmEvent =
    | UserSelected(user: seq<Byte>)
    | BrokerSelected(id: seq<Byte>)
    | AuthModeSelected(id: seq<Byte>)
    | ReselectAuthMode
    | IsAuthenticatedCancelled
    | IsAuthenticatedRequested(secret: seq<Byte>)

  /** The event that a frame becomes; unknown types become nothing. A frame without payload counts as "". */
  function Translate(f: Frame): Option<GdmEvent> {
    if f.typ == MSG_BROKER_SEL then Some(BrokerSelected(CString(f.payload)))
    else if f.typ == MSG_AUTH_MODE_SEL then Some(AuthModeSelected(CString(f.payload)))
    else if f.typ == MSG_BUTTON then Some(ReselectAuthMode)
    else if f.typ == MSG_CANCEL then Some(IsAuthenticatedCancelled)
    else if f.typ == MSG_PASSWORD then Some(IsAuthenticatedRequested(CString(f.payload)))
    else None
  }

  function TranslateAll(fs: seq<Frame>): seq<GdmEvent> {
    if fs == [] then []
    else
      var init := TranslateAll(fs[..|fs| - 1]);
      match Translate(fs[|fs| - 1])
      case Some(e) => init + [e]
      case None => init
  }

  lemma TranslatePush(fs: seq<Frame>, f: Frame)
    ensures TranslateAll(fs + [f])
            == if Translate(f).Some? then TranslateAll(fs) + [Translate(f).value] else TranslateAll(fs)
  {
    assert (fs + [f])[..|fs|] == fs;
  }

  lemma {:induction false} TranslateConcat(a: seq<Frame>, b: seq<Frame>)
    ensures TranslateAll(a + b) == TranslateAll(a) + TranslateAll(b)
  {
    if b == [] {
      assert a + b == a;
    } else {
      TranslateConcat(a, b[..|b| - 1]);
      assert (a + b)[..|a + b| - 1] == a + b[..|b| - 1];
    }
  }

  /** The frames that are still to come. */
  ghost function Queue(s: seq<Byte>): seq<Frame> {
    ReceiveAll(s).0
  }

  lemma QueueStep(s: seq<Byte>, f: Frame)
    requires Proper(s) && Receive(s) == Message(f)
    ensures Queue(s) == [f] + Queue(s[HEADER + |f.payload|..]) && Proper(s[HEADER + |f.payload|..])
  {}

  lemma QueueEmpty(s: seq<Byte>)
    requires Proper(s) && !Receive(s).Message?
    ensures Queue(s) == [] && Stops(s) && Proper([]) && Queue([]) == []
  {}

  lemma Regroup(a: seq<Frame>, f: Frame, b: seq<Frame>)
    ensures a + ([f] + b) == a + [f] + b
  {}

  /** comm_child_read, in terms of the frames still to come. */
  method ReadNext(input: ReadEnd) returns (next: Option<Frame>)
    requires Reliable(input.sched) && Proper(input.stream)
    modifies input
    ensures Reliable(input.sched) && Proper(input.stream)
    ensures next.None? ==> Queue(old(input.stream)) == [] == Queue(input.stream)
    ensures next.Some? ==> Queue(old(input.stream)) == [next.value] + Queue(input.stream)
    ensures next.Some? ==> |input.stream| < |old(input.stream)|
  {
    ghost var s := input.stream;
    var r := CommRead(input);
    if r.Message? {
      QueueStep(s, r.frame);
      return Some(r.frame);
    } else {
      QueueEmpty(s);
      return None;
    }
  }

  /** Only the first poll names the user. */
  function Greeted(user: seq<Byte>, first: bool): seq<GdmEvent> {
    if first then [UserSelected(user)] else []
  }

  /** A poll takes a frame each time poll() says that there is one, and stops only when it says otherwise, when
      64 events are pending, or at the end of the stream. */
  ghost predicate StopsRightly(ready: seq<bool>, taken: nat, events: nat, rest: seq<Frame>) {
    && taken <= |ready| && (forall i | 0 <= i < taken :: ready[i])
    && events <= MAX_PENDING
    && (events == MAX_PENDING || taken == |ready| || !ready[taken] || rest == [])
  }

  class Conversation {
    const username: seq<Byte>
    const pending: array<GdmEvent>
    var pendingCount: nat
    var userSelectedSent: bool

    ghost predicate Valid()
      reads this
    {
      pending.Length == MAX_PENDING && pendingCount == 0
    }

    constructor (username: seq<Byte>)
      ensures Valid() && !userSelectedSent && this.username == username && fresh(pending)
    {
      this.username := username;
      pending := new GdmEvent[MAX_PENDING](_ => ReselectAuthMode);
      pendingCount, userSelectedSent := 0, false;
    }

    /** What a poll answers before it looks at the pipe. */
    ghost function Greeting(): seq<GdmEvent>
      reads this
    {
      Greeted(username, !userSelectedSent)
    }

    method Append(e: GdmEvent)
      requires pending.Length == MAX_PENDING && pendingCount < MAX_PENDING
      modifies this`pendingCount, pending
      ensures pendingCount == old(pendingCount) + 1
      ensures pending[..pendingCount] == old(pending[..pendingCount]) + [e]
    {
      pending[pendingCount] := e;
      pendingCount := pendingCount + 1;
    }

    /** The events pending in a poll that began with `queue` to come. */
    ghost predicate Gathered(
      input: ReadEnd, greeting: seq<GdmEvent>, queue: seq<Frame>, consumed: seq<Frame>, ready: seq<bool>)
      reads this, pending, input
    {
      && Reliable(input.sched) && Proper(input.stream) && userSelectedSent
      && pending.Length == MAX_PENDING && pendingCount <= MAX_PENDING
      && Gathering(pending[..pendingCount], Queue(input.stream), greeting, queue, consumed, ready)
    }

    method Greet()
      requires Valid()
      modifies this, pending
      ensures userSelectedSent && pendingCount <= 1 && pending[..pendingCount] == old(Greeting())
    {
      if !userSelectedSent {
        Append(UserSelected(username));
        userSelectedSent := true;
      }
    }

    /** Takes one frame, unless the stream has ended. */
    method Gather(input: ReadEnd, ghost greeting: seq<GdmEvent>, ghost queue: seq<Frame>, ghost consumed: seq<Frame>,
                  ghost ready: seq<bool>)
      returns (more: bool, ghost taken: seq<Frame>)
      requires Gathered(input, greeting, queue, consumed, ready) && pendingCount < MAX_PENDING
      requires |consumed| < |ready| && ready[|consumed|]
      modifies this, pending, input
      ensures Gathered(input, greeting, queue, taken, ready)
      ensures more ==> |taken| == |consumed| + 1 && |input.stream| < |old(input.stream)|
      ensures !more ==> taken == consumed && Queue(input.stream) == []
    {
      var next := ReadNext(input);
      if next.None? {
        return false, consumed;
      }
      var f := next.value;
      GatheringPush(pending[..pendingCount], Queue(input.stream), greeting, queue, consumed, ready, f);
      var e := Translate(f);
      if e.Some? {
        Append(e.value);
      }
      return true, consumed + [f];
    }

    /** The poll branch of handle_gdm_json: frames are taken for as long as poll() says that the pipe has
        something (`ready`) and a slot is free, and go out as one array. */
    method Poll(input: ReadEnd, ready: seq<bool>) returns (response: seq<GdmEvent>, ghost consumed: seq<Frame>)
      requires Valid() && Reliable(input.sched) && Proper(input.stream)
      modifies this, pending, input
      ensures Valid() && Reliable(input.sched) && Proper(input.stream) && userSelectedSent
      ensures Queue(old(input.stream)) == consumed + Queue(input.stream)
      ensures response == old(Greeting()) + TranslateAll(consumed)
      ensures StopsRightly(ready, |consumed|, |response|, Queue(input.stream))
    {
      ghost var greeting, queue := Greeting(), Queue(input.stream);
      consumed := [];
      Greet();
      GatheringStart(greeting, queue, ready);
      var tries := 0;
      while pendingCount < MAX_PENDING
        invariant Gathered(input, greeting, queue, consumed, ready) && tries == |consumed|
        decreases |input.stream|
      {
        if tries >= |ready| || !ready[tries] {
          break;
        }
        tries := tries + 1;
        var more;
        more, consumed := Gather(input, greeting, queue, consumed, ready);
        if !more {
          break;
        }
      }
      response := pending[..pendingCount];
      pendingCount := 0;
    }
  }

  /** `events` are the greeting and the translation of the frames taken so far, one for each time that poll()
      said yes. */
  ghost predicate Gathering(events: seq<GdmEvent>, rest: seq<Frame>, greeting: seq<GdmEvent>, queue: seq<Frame>,
                            consumed: seq<Frame>, ready: seq<bool>) {
    && queue == consumed + rest
    && events == greeting + TranslateAll(consumed)
    && |consumed| <= |ready| && forall i | 0 <= i < |consumed| :: ready[i]
  }

  lemma GatheringStart(greeting: seq<GdmEvent>, queue: seq<Frame>, ready: seq<bool>)
    ensures Gathering(greeting, queue, greeting, queue, [], ready)
  {}

  lemma GatheringPush(events: seq<GdmEvent>, rest: seq<Frame>, greeting: seq<GdmEvent>, queue: seq<Frame>,
                      consumed: seq<Frame>, ready: seq<bool>, f: Frame)
    requires Gathering(events, [f] + rest, greeting, queue, consumed, ready)
    requires |consumed| < |ready| && ready[|consumed|]
    ensures Gathering(if Translate(f).Some? then events + [Translate(f).value] else events, rest,
                      greeting, queue, consumed + [f], ready)
  {
    Regroup(consumed, f, rest);
    TranslatePush(consumed, f);
    ReadyPush(consumed, ready, f);
    if Translate(f).Some? {
      LastEvent(greeting, TranslateAll(consumed), Translate(f).value);
    }
  }

  lemma LastEvent(greeting: seq<GdmEvent>, ts: seq<GdmEvent>, e: GdmEvent)
    ensures greeting + ts + [e] == greeting + (ts + [e])
  {}

  lemma ReadyPush(consumed: seq<Frame>, ready: seq<bool>, f: Frame)
    requires |consumed| < |ready| && ready[|consumed|] && forall i | 0 <= i < |consumed| :: ready[i]
    ensures |consumed + [f]| <= |ready| && forall i | 0 <= i < |consumed + [f]| :: ready[i]
  {}

  /** Frames that are not passwords. */
  ghost predicate NoPassword(fs: seq<Frame>) {
    forall i | 0 <= i < |fs| :: fs[i].typ != MSG_PASSWORD
  }

  /** The wait for the next password: everything else is dropped. */
  method NextPassword(input: ReadEnd) returns (payload: Option<seq<Byte>>, ghost dropped: seq<Frame>)
    requires Reliable(input.sched) && Proper(input.stream)
    modifies input
    ensures Reliable(input.sched) && Proper(input.stream) && NoPassword(dropped)
    ensures payload.None? ==> Queue(old(input.stream)) == dropped && Queue(input.stream) == []
    ensures payload.Some? ==>
              Queue(old(input.stream)) == dropped + [Frame(MSG_PASSWORD, payload.value)] + Queue(input.stream)
  {
    ghost var queue := Queue(input.stream);
    dropped := [];
    assert [] + queue == queue;
    while true
      invariant Reliable(input.sched) && Proper(input.stream) && NoPassword(dropped)
      invariant queue == dropped + Queue(input.stream)
      decreases |input.stream|
    {
      var next := ReadNext(input);
      if next.None? {
        return None, dropped;
      }
      var f := next.value;
      Regroup(dropped, f, Queue(input.stream));
      if f.typ == MSG_PASSWORD {
        return Some(f.payload), dropped;
      }
      dropped := dropped + [f];
    }
  }

  function ChallengeFrame(): Frame {
    Frame(MSG_STAGE, [STAGE_CHALLENGE])
  }

  /** One prompt of handle_conversation: announce the challenge, then answer with the next password. None
      stands for PAM_ABORT. */
  method Prompt(input: ReadEnd, output: WriteEnd) returns (reply: Option<seq<Byte>>, ghost dropped: seq<Frame>)
    requires Reliable(input.sched) && Proper(input.stream) && Reliable(output.sched)
    modifies input, output
    ensures Reliable(input.sched) && Proper(input.stream) && Reliable(output.sched) && NoPassword(dropped)
    ensures reply.None? ==> Queue(old(input.stream)) == dropped && Queue(input.stream) == []
    ensures reply.Some? ==> exists p ::
              && Queue(old(input.stream)) == dropped + [Frame(MSG_PASSWORD, p)] + Queue(input.stream)
              && reply.value == CString(p)
    ensures Wrote(output.written, output.room, old(output.written), old(output.room), EncodeFrame(Frame(0x85, [3])))
  {
    var _ := CommWrite(output, ChallengeFrame());
    var payload;
    payload, dropped := NextPassword(input);
    reply := if payload.None? then None else Some(CString(payload.value));
  }

  // ----- whole conversations -----

  /** One message from a PAM module, with the frames that it took: a poll, a prompt that was answered, or a
      prompt that met the end of the stream. */
  datatype Call =
    | Polled(ready: seq<bool>, frames: seq<Frame>, response: seq<GdmEvent>)
    | Prompted(dropped: seq<Frame>, payload: seq<Byte>, reply: seq<Byte>)
    | Aborted(dropped: seq<Frame>)
  {
    ghost function Taken(): seq<Frame> {
      match this
      case Polled(_, fs, _) => fs
      case Prompted(dropped, p, _) => dropped + [Frame(MSG_PASSWORD, p)]
      case Aborted(dropped) => dropped
    }

    ghost function Events(): seq<GdmEvent> {
      if Polled? then response else []
    }

    ghost function Answers(): seq<seq<Byte>> {
      if Prompted? then [reply] else []
    }

    /** The passwords that the call passed on. */
    ghost function Secrets(): seq<seq<Byte>> {
      if Polled? then SecretsIn(response) else Answers()
    }

    /** Every prompt, answered or not, announces the challenge. */
    ghost function Written(): seq<Byte> {
      if Polled? then [] else EncodeFrame(ChallengeFrame())
    }

    /** What `Poll` and `Prompt` allow on the queue `q`. */
    ghost predicate Allowed(q: seq<Frame>, user: seq<Byte>, greeted: bool) {
      && Taken() <= q
      && match this
         case Polled(ready, fs, response) =>
           && response == Greeted(user, !greeted) + TranslateAll(fs)
           && StopsRightly(ready, |fs|, |response|, q[|fs|..])
         case Prompted(dropped, p, reply) => NoPassword(dropped) && reply == CString(p)
         case Aborted(dropped) => NoPassword(dropped) && dropped == q
    }
  }

  /** The calls of a run, which took the queue `q` down to `rest`; only the first poll greets. */
  ghost predicate Conversed(calls: seq<Call>, q: seq<Frame>, rest: seq<Frame>, user: seq<Byte>, greeted: bool)
    decreases |calls|
  {
    if calls == [] then q == rest
    else
      var init, c := calls[..|calls| - 1], calls[|calls| - 1];
      && Conversed(init, q, c.Taken() + rest, user, greeted)
      && c.Allowed(c.Taken() + rest, user, greeted || AnyPoll(init))
  }

  predicate AnyPoll(calls: seq<Call>) {
    calls != [] && (calls[|calls| - 1].Polled? || AnyPoll(calls[..|calls| - 1]))
  }

  /** What the calls wrote. */
  ghost function Written(calls: seq<Call>): seq<Byte> {
    if calls == [] then [] else Written(calls[..|calls| - 1]) + calls[|calls| - 1].Written()
  }

  ghost function Responses(calls: seq<Call>): seq<GdmEvent> {
    if calls == [] then [] else Responses(calls[..|calls| - 1]) + calls[|calls| - 1].Events()
  }

  ghost function Replies(calls: seq<Call>): seq<seq<Byte>> {
    if calls == [] then [] else Replies(calls[..|calls| - 1]) + calls[|calls| - 1].Answers()
  }

  function SecretsIn(es: seq<GdmEvent>): seq<seq<Byte>> {
    if es == [] then []
    else
      var init, e := SecretsIn(es[..|es| - 1]), es[|es| - 1];
      if e.IsAuthenticatedRequested? then init + [e.secret] else init
  }

  /** The passwords that the PAM modules got, in the order of the calls. */
  ghost function Secrets(calls: seq<Call>): seq<seq<Byte>> {
    if calls == [] then [] else Secrets(calls[..|calls| - 1]) + calls[|calls| - 1].Secrets()
  }

  /** All frames taken, in the order of the calls. */
  ghost function Taken(calls: seq<Call>): seq<Frame> {
    if calls == [] then [] else Taken(calls[..|calls| - 1]) + calls[|calls| - 1].Taken()
  }

  /** The frames that a poll has an event for, in order. */
  function Known(fs: seq<Frame>): seq<Frame> {
    if fs == [] then []
    else
      var init, f := Known(fs[..|fs| - 1]), fs[|fs| - 1];
      if 1 <= f.typ <= 5 then init + [f] else init
  }

  /** The event says what the frame said. */
  ghost predicate Says(e: GdmEvent, f: Frame) {
    match f.typ
    case 1 => e == IsAuthenticatedRequested(CString(f.payload))
    case 2 => e == BrokerSelected(CString(f.payload))
    case 3 => e == AuthModeSelected(CString(f.payload))
    case 4 => e == ReselectAuthMode
    case 5 => e == IsAuthenticatedCancelled
    case _ => false
  }

  ghost predicate AllSay(es: seq<GdmEvent>, fs: seq<Frame>) {
    |es| == |fs| && forall i | 0 <= i < |es| :: Says(es[i], fs[i])
  }

  lemma {:induction false} TranslationSays(fs: seq<Frame>)
    ensures AllSay(TranslateAll(fs), Known(fs))
  {
    if fs != [] {
      TranslationSays(fs[..|fs| - 1]);
      TranslateSays(fs[|fs| - 1]);
    }
  }

  lemma TranslateSays(f: Frame)
    ensures if 1 <= f.typ <= 5 then Translate(f).Some? && Says(Translate(f).value, f) else Translate(f).None?
  {}

  /** What the responses of a whole conversation are, event by event: the user once, at the first poll, and then
      for every known frame that polls took the event that says the same. */
  lemma ResponsesSay(calls: seq<Call>, q: seq<Frame>, rest: seq<Frame>, user: seq<Byte>)
    requires Conversed(calls, q, rest, user, false)
    ensures AnyPoll(calls) ==>
              && Responses(calls) != [] && Responses(calls)[0] == UserSelected(user)
              && AllSay(Responses(calls)[1..], Known(PolledFrames(calls)))
    ensures !AnyPoll(calls) ==> Responses(calls) == [] && PolledFrames(calls) == []
  {
    BatchingRefinesTranslation(calls, q, rest, user, false);
    NoPollNoFrames(calls);
    TranslationSays(PolledFrames(calls));
    var es := TranslateAll(PolledFrames(calls));
    assert ([UserSelected(user)] + es)[1..] == es;
  }

  /** The same for one poll: at most 64 events. */
  lemma PollSays(c: Call, q: seq<Frame>, user: seq<Byte>, greeted: bool)
    requires c.Polled? && c.Allowed(q, user, greeted)
    ensures |c.response| <= 64
    ensures greeted ==> AllSay(c.response, Known(c.frames))
    ensures !greeted ==>
              c.response != [] && c.response[0] == UserSelected(user) && AllSay(c.response[1..], Known(c.frames))
  {
    TranslationSays(c.frames);
    var es := TranslateAll(c.frames);
    assert [] + es == es && ([UserSelected(user)] + es)[1..] == es;
  }

  /** The frames that polls took. */
  ghost function PolledFrames(calls: seq<Call>): seq<Frame> {
    if calls == [] then []
    else
      var init, c := PolledFrames(calls[..|calls| - 1]), calls[|calls| - 1];
      if c.Polled? then init + c.Taken() else init
  }

  /** The frames that prompts took. */
  ghost function PromptedFrames(calls: seq<Call>): seq<Frame> {
    if calls == [] then []
    else
      var init, c := PromptedFrames(calls[..|calls| - 1]), calls[|calls| - 1];
      if c.Polled? then init else init + c.Taken()
  }

  /** Batching changes nothing: over a whole conversation the responses together are one greeting followed
      by the translation, frame by frame, of what the polls took. */
  lemma {:induction false} BatchingRefinesTranslation(
    calls: seq<Call>, q: seq<Frame>, rest: seq<Frame>, user: seq<Byte>, greeted: bool)
    requires Conversed(calls, q, rest, user, greeted)
    ensures Responses(calls) == Greeted(user, AnyPoll(calls) && !greeted) + TranslateAll(PolledFrames(calls))
    decreases |calls|
  {
    if calls != [] {
      var init, c := calls[..|calls| - 1], calls[|calls| - 1];
      BatchingRefinesTranslation(init, q, c.Taken() + rest, user, greeted);
      if c.Polled? {
        TranslateConcat(PolledFrames(init), c.frames);
        NoPollNoFrames(init);
        OnePoll(Responses(init), TranslateAll(PolledFrames(init)), AnyPoll(init), c, c.Taken() + rest, user, greeted);
      } else {
        NoEvents(Responses(init), c);
      }
    }
  }

  lemma NoEvents(sofar: seq<GdmEvent>, c: Call)
    requires !c.Polled?
    ensures sofar + c.Events() == sofar
  {}

  lemma OnePoll(sofar: seq<GdmEvent>, translated: seq<GdmEvent>, any: bool, c: Call, q: seq<Frame>, user: seq<Byte>,
                greeted: bool)
    requires sofar == Greeted(user, any && !greeted) + translated && (!any ==> translated == [])
    requires c.Polled? && c.Allowed(q, user, greeted || any)
    ensures sofar + c.Events() == Greeted(user, !greeted) + (translated + TranslateAll(c.frames))
  {}

  lemma {:induction false} NoPollNoFrames(calls: seq<Call>)
    ensures !AnyPoll(calls) ==> PolledFrames(calls) == []
  {
    if calls != [] {
      NoPollNoFrames(calls[..|calls| - 1]);
    }
  }

  /** The k-th answer to a prompt is the k-th password that prompts took. */
  lemma {:induction false} PromptsInOrder(
    calls: seq<Call>, q: seq<Frame>, rest: seq<Frame>, user: seq<Byte>, greeted: bool)
    requires Conversed(calls, q, rest, user, greeted)
    ensures Replies(calls) == PasswordsIn(PromptedFrames(calls))
    decreases |calls|
  {
    if calls != [] {
      var init, c := calls[..|calls| - 1], calls[|calls| - 1];
      PromptsInOrder(init, q, c.Taken() + rest, user, greeted);
      if c.Polled? {
        assert Replies(init) + [] == Replies(init);
      } else {
        PasswordsConcat(PromptedFrames(init), c.Taken());
        NoPasswordIn(c.dropped);
        if c.Prompted? {
          PasswordsConcat(c.dropped, [Frame(MSG_PASSWORD, c.payload)]);
        }
      }
    }
  }

  lemma SecretsPush(es: seq<GdmEvent>, e: GdmEvent)
    ensures SecretsIn(es + [e]) == if e.IsAuthenticatedRequested? then SecretsIn(es) + [e.secret] else SecretsIn(es)
  {
    assert (es + [e])[..|es|] == es;
  }

  lemma GreetingNoSecret(user: seq<Byte>, first: bool)
    ensures SecretsIn(Greeted(user, first)) == []
  {}

  lemma SecretsAfter(g: seq<GdmEvent>, ts: seq<GdmEvent>, e: GdmEvent)
    ensures SecretsIn(g + (ts + [e]))
            == if e.IsAuthenticatedRequested? then SecretsIn(g + ts) + [e.secret] else SecretsIn(g + ts)
  {
    SecretsPush(g + ts, e);
    assert g + ts + [e] == g + (ts + [e]);
  }

  lemma {:induction false} SecretsTranslated(g: seq<GdmEvent>, fs: seq<Frame>)
    requires SecretsIn(g) == []
    ensures SecretsIn(g + TranslateAll(fs)) == PasswordsIn(fs)
  {
    if fs == [] {
      assert g + [] == g;
    } else {
      var init, f := fs[..|fs| - 1], fs[|fs| - 1];
      SecretsTranslated(g, init);
      SecretsStep(g, init, f);
      assert fs == init + [f];
    }
  }

  lemma SecretsStep(g: seq<GdmEvent>, fs: seq<Frame>, f: Frame)
    requires SecretsIn(g + TranslateAll(fs)) == PasswordsIn(fs)
    ensures SecretsIn(g + TranslateAll(fs + [f])) == PasswordsIn(fs + [f])
  {
    PasswordsPush(fs, f);
    TranslatePush(fs, f);
    if Translate(f).Some? {
      SecretsAfter(g, TranslateAll(fs), Translate(f).value);
    }
  }

  lemma CallSecrets(c: Call, q: seq<Frame>, user: seq<Byte>, greeted: bool)
    requires c.Allowed(q, user, greeted)
    ensures c.Secrets() == PasswordsIn(c.Taken())
  {
    if c.Polled? {
      GreetingNoSecret(user, !greeted);
      SecretsTranslated(Greeted(user, !greeted), c.frames);
    } else {
      NoPasswordIn(c.dropped);
      if c.Prompted? {
        PasswordsPush(c.dropped, Frame(MSG_PASSWORD, c.payload));
      }
    }
  }

  /** Polls and prompts together pass on every password that they took, in order. */
  lemma {:induction false} SecretsInOrder(
    calls: seq<Call>, q: seq<Frame>, rest: seq<Frame>, user: seq<Byte>, greeted: bool)
    requires Conversed(calls, q, rest, user, greeted)
    ensures Secrets(calls) == PasswordsIn(Taken(calls))
    decreases |calls|
  {
    if calls != [] {
      var init, c := calls[..|calls| - 1], calls[|calls| - 1];
      SecretsInOrder(init, q, c.Taken() + rest, user, greeted);
      CallSecrets(c, c.Taken() + rest, user, greeted || AnyPoll(init));
      PasswordsConcat(Taken(init), c.Taken());
    }
  }

  lemma {:induction false} NoPasswordIn(fs: seq<Frame>)
    requires NoPassword(fs)
    ensures PasswordsIn(fs) == []
  {
    if fs != [] {
      NoPasswordIn(fs[1..]);
    }
  }

  /** No frame is lost, duplicated or reordered between polls and prompts. */
  lemma {:induction false} NothingLost(
    calls: seq<Call>, q: seq<Frame>, rest: seq<Frame>, user: seq<Byte>, greeted: bool)
    requires Conversed(calls, q, rest, user, greeted)
    ensures q == Taken(calls) + rest
    decreases |calls|
  {
    if calls != [] {
      var init, c := calls[..|calls| - 1], calls[|calls| - 1];
      NothingLost(init, q, c.Taken() + rest, user, greeted);
    }
  }

  /** `responses` and `replies` are the answers of such a run, to these messages. */
  ghost predicate Answered(calls: seq<Call>, q: seq<Frame>, rest: seq<Frame>, user: seq<Byte>, greeted: bool,
                           asks: seq<Ask>, responses: seq<GdmEvent>, replies: seq<seq<Byte>>) {
    && Conversed(calls, q, rest, user, greeted)
    && responses == Responses(calls) && replies == Replies(calls)
    && Matches(calls, asks)
  }

  predicate NoneAborted(calls: seq<Call>) {
    forall i | 0 <= i < |calls| :: !calls[i].Aborted?
  }

  lemma NoneAbortedPush(calls: seq<Call>, c: Call)
    requires NoneAborted(calls)
    ensures (calls + [c])[..|calls|] == calls && (NoneAborted(calls + [c]) <==> !c.Aborted?)
  {
    assert (calls + [c])[|calls|] == c;
  }

  lemma AnsweredNone(q: seq<Frame>, user: seq<Byte>, greeted: bool, asks: seq<Ask>)
    ensures Answered([], q, q, user, greeted, asks, [], []) && Written([]) == []
  {}

  predicate Matches(calls: seq<Call>, asks: seq<Ask>) {
    |calls| <= |asks| && forall i | 0 <= i < |calls| :: Serves(calls[i], asks[i])
  }

  predicate Serves(c: Call, ask: Ask) {
    match ask
    case AskPoll(ready) => c.Polled? && c.ready == ready
    case AskPrompt => !c.Polled?
  }

  lemma MatchesPush(calls: seq<Call>, c: Call, asks: seq<Ask>)
    requires Matches(calls, asks) && |calls| < |asks| && Serves(c, asks[|calls|])
    ensures Matches(calls + [c], asks)
  {}

  lemma AnswersPush(calls: seq<Call>, c: Call)
    ensures AnyPoll(calls + [c]) <==> AnyPoll(calls) || c.Polled?
    ensures Responses(calls + [c]) == Responses(calls) + c.Events()
    ensures Replies(calls + [c]) == Replies(calls) + c.Answers()
    ensures Written(calls + [c]) == Written(calls) + c.Written()
  {
    assert (calls + [c])[..|calls|] == calls;
  }

  lemma AnsweredPush(calls: seq<Call>, c: Call, q: seq<Frame>, rest: seq<Frame>, user: seq<Byte>, greeted: bool,
                     asks: seq<Ask>, responses: seq<GdmEvent>, replies: seq<seq<Byte>>)
    requires Answered(calls, q, c.Taken() + rest, user, greeted, asks, responses, replies)
    requires c.Allowed(c.Taken() + rest, user, greeted || AnyPoll(calls))
    requires |calls| < |asks| && Serves(c, asks[|calls|])
    ensures Answered(calls + [c], q, rest, user, greeted, asks, responses + c.Events(), replies + c.Answers())
    ensures AnyPoll(calls + [c]) <==> AnyPoll(calls) || c.Polled?
  {
    ConversedPush(calls, c, q, rest, user, greeted);
    AnswersPush(calls, c);
    MatchesPush(calls, c, asks);
    var all := calls + [c];
    assert Conversed(all, q, rest, user, greeted) && Matches(all, asks);
    assert responses + c.Events() == Responses(all) && replies + c.Answers() == Replies(all);
  }

  /** Every poll went on for as long as poll() said yes, and no prompt has met the end of the stream: nothing yet
      depends on what is still to come. */
  predicate Open(calls: seq<Call>) {
    forall i | 0 <= i < |calls| :: (calls[i].Polled? ==> |calls[i].ready| == |calls[i].frames|) && !calls[i].Aborted?
  }

  /** So more may come. */
  lemma {:induction false} ConversedGrows(
    calls: seq<Call>, q: seq<Frame>, rest: seq<Frame>, user: seq<Byte>, greeted: bool, f: Frame)
    requires Conversed(calls, q, rest, user, greeted) && Open(calls)
    ensures Conversed(calls, q + [f], rest + [f], user, greeted)
    decreases |calls|
  {
    if calls != [] {
      var init, c := calls[..|calls| - 1], calls[|calls| - 1];
      ConversedGrows(init, q, c.Taken() + rest, user, greeted, f);
      assert c.Taken() + rest + [f] == c.Taken() + (rest + [f]);
      assert calls[|calls| - 1] == c;
    }
  }

  /** What a conversation leaves is where the next call goes on. */
  lemma ConversedPush(calls: seq<Call>, c: Call, q: seq<Frame>, rest: seq<Frame>, user: seq<Byte>, greeted: bool)
    requires Conversed(calls, q, c.Taken() + rest, user, greeted)
    requires c.Allowed(c.Taken() + rest, user, greeted || AnyPoll(calls))
    ensures Conversed(calls + [c], q, rest, user, greeted)
  {
    assert (calls + [c])[..|calls|] == calls;
  }

  /** A message of a PAM module: a poll, with what poll() will say each time, or a prompt. */
  datatype Ask = AskPoll(ready: seq<bool>) | AskPrompt

  ghost predicate Ready(state: Conversation, input: ReadEnd, output: WriteEnd)
    reads state, input, output
  {
    state.Valid() && Reliable(input.sched) && Proper(input.stream) && Reliable(output.sched)
  }

  /** One message. */
  method Answer(state: Conversation, input: ReadEnd, output: WriteEnd, ask: Ask)
    returns (ok: bool, response: seq<GdmEvent>, reply: seq<seq<Byte>>, ghost call: Call)
    requires Ready(state, input, output)
    modifies state, state.pending, input, output
    ensures Ready(state, input, output)
    ensures state.userSelectedSent == (old(state.userSelectedSent) || call.Polled?)
    ensures call.Allowed(Queue(old(input.stream)), state.username, old(state.userSelectedSent))
    ensures Queue(old(input.stream)) == call.Taken() + Queue(input.stream)
    ensures response == call.Events() && reply == call.Answers()
    ensures Serves(call, ask) && ok == !call.Aborted?
    ensures Wrote(output.written, output.room, old(output.written), old(output.room), call.Written())
  {
    ok, response, reply := true, [], [];
    match ask {
      case AskPoll(ready) =>
        ghost var fs;
        response, fs := state.Poll(input, ready);
        call := Polled(ready, fs, response);
      case AskPrompt =>
        ghost var q := Queue(input.stream);
        var r;
        ghost var dropped;
        r, dropped := Prompt(input, output);
        if r.None? {
          ok, call := false, Aborted(dropped);
        } else {
          reply := [r.value];
          ghost var p :| q == dropped + [Frame(MSG_PASSWORD, p)] + Queue(input.stream) && r.value == CString(p);
          call := Prompted(dropped, p, r.value);
        }
    }
  }

  /** Where a conversation started. */
  datatype Talk = Talk(queue: seq<Frame>, user: seq<Byte>, greeted: bool, written: seq<Byte>, room: Option<nat>)

  /** `calls` have been answered since then. */
  ghost predicate Conducted(state: Conversation, input: ReadEnd, output: WriteEnd, t: Talk, asks: seq<Ask>,
                            responses: seq<GdmEvent>, replies: seq<seq<Byte>>, calls: seq<Call>)
    reads state, input, output
  {
    && Ready(state, input, output)
    && state.username == t.user && state.userSelectedSent == (t.greeted || AnyPoll(calls))
    && Answered(calls, t.queue, Queue(input.stream), t.user, t.greeted, asks, responses, replies)
    && Wrote(output.written, output.room, t.written, t.room, Written(calls))
  }

  method AnswerNext(state: Conversation, input: ReadEnd, output: WriteEnd, asks: seq<Ask>, i: nat, ghost t: Talk,
                    ghost responses: seq<GdmEvent>, ghost replies: seq<seq<Byte>>, ghost calls: seq<Call>)
    returns (ok: bool, response: seq<GdmEvent>, reply: seq<seq<Byte>>, ghost call: Call)
    requires i == |calls| < |asks| && Conducted(state, input, output, t, asks, responses, replies, calls)
    modifies state, state.pending, input, output
    ensures Conducted(state, input, output, t, asks, responses + response, replies + reply, calls + [call])
    ensures ok == !call.Aborted?
  {
    ghost var mid, between := output.written, output.room;
    ok, response, reply, call := Answer(state, input, output, asks[i]);
    AnsweredPush(calls, call, t.queue, Queue(input.stream), t.user, t.greeted, asks, responses, replies);
    AnswersPush(calls, call);
    WroteMore(t.written, t.room, mid, between, output.written, output.room, Written(calls), call.Written());
  }

  /** handle_conversation: the messages in order, up to a prompt that cannot be answered (PAM_ABORT). Whatever
      polls and prompts are mixed, and however the pipe splits its reads, the answers are those of a
      conversation over the frames in their order. */
  method HandleConversation(state: Conversation, input: ReadEnd, output: WriteEnd, asks: seq<Ask>)
    returns (ok: bool, responses: seq<GdmEvent>, replies: seq<seq<Byte>>, ghost calls: seq<Call>)
    requires Ready(state, input, output)
    modifies state, state.pending, input, output
    ensures Ready(state, input, output)
    ensures state.userSelectedSent == (old(state.userSelectedSent) || AnyPoll(calls))
    ensures Answered(calls, Queue(old(input.stream)), Queue(input.stream), state.username, old(state.userSelectedSent),
                     asks, responses, replies)
    ensures ok ==> |calls| == |asks| && NoneAborted(calls)
    ensures !ok ==> calls != [] && calls[|calls| - 1].Aborted? && NoneAborted(calls[..|calls| - 1])
    ensures Wrote(output.written, output.room, old(output.written), old(output.room), Written(calls))
  {
    ok, responses, replies, calls := true, [], [], [];
    ghost var t := Talk(Queue(input.stream), state.username, state.userSelectedSent, output.written, output.room);
    AnsweredNone(t.queue, t.user, t.greeted, asks);
    WroteNothing(t.written, t.room);
    var i := 0;
    while i < |asks|
      invariant 0 <= i <= |asks| && |calls| == i && ok && NoneAborted(calls)
      invariant Conducted(state, input, output, t, asks, responses, replies, calls)
    {
      var response, reply;
      ghost var call;
      ok, response, reply, call := AnswerNext(state, input, output, asks, i, t, responses, replies, calls);
      NoneAbortedPush(calls, call);
      calls, responses, replies := calls + [call], responses + response, replies + reply;
      if !ok {
        return;
      }
      i := i + 1;
    }
  }

  // ----- the loop around pam_authenticate -----

  datatype PamStatus = PamOk | PamAuthErr | PamOther

  /** The results of the attempts so far: there is none after the first that is not PAM_AUTH_ERR. */
  function Attempted(statuses: seq<PamStatus>): seq<bool> {
    if statuses == [] then []
    else if statuses[0] == PamAuthErr then [false] + Attempted(statuses[1..])
    else [statuses[0] == PamOk]
  }

  /** The same without following the loop: one result per attempt, a success only as the last, and a list
      shorter than the statuses only because the attempt that ended it was not a PAM_AUTH_ERR. */
  lemma {:induction false} AttemptedOnce(statuses: seq<PamStatus>)
    ensures var vs := Attempted(statuses);
            && |vs| <= |statuses|
            && (forall i | 0 <= i < |vs| :: vs[i] == (statuses[i] == PamOk))
            && (forall i | 0 <= i < |vs| - 1 :: statuses[i] == PamAuthErr)
            && (|vs| < |statuses| ==> vs != [] && statuses[|vs| - 1] != PamAuthErr)
  {
    if statuses != [] && statuses[0] == PamAuthErr {
      AttemptedOnce(statuses[1..]);
      var rest, vs := Attempted(statuses[1..]), Attempted(statuses);
      forall i | 0 <= i < |vs| ensures vs[i] == (statuses[i] == PamOk) {
        assert i > 0 ==> vs[i] == rest[i - 1] && statuses[i] == statuses[1..][i - 1];
      }
      forall i | 0 <= i < |vs| - 1 ensures statuses[i] == PamAuthErr {
        assert i > 0 ==> statuses[i] == statuses[1..][i - 1];
      }
      assert rest != [] ==> statuses[|vs| - 1] == statuses[1..][|rest| - 1];
    }
  }

  lemma AttemptedStep(all: seq<bool>, done: seq<bool>, rest: seq<PamStatus>)
    requires rest != [] && all == done + Attempted(rest)
    ensures rest[0] == PamAuthErr ==> all == done + [false] + Attempted(rest[1..])
    ensures rest[0] != PamAuthErr ==> all == done + [rest[0] == PamOk]
  {}

  /** The loop of run_pw_backend_child, on the statuses that pam_authenticate returns one after the other: one
      verdict per attempt, written before the status decides whether there is another, and without a look at
      whether it arrived. The child exits with success after a PAM_SUCCESS if pam_end succeeds too (`closed`). The
      result is None when the statuses run out, that is, while the loop still waits for the next. */
  method Authenticate(output: WriteEnd, statuses: seq<PamStatus>, closed: bool) returns (well: Option<bool>)
    requires Reliable(output.sched)
    modifies output
    ensures output.written == old(output.written) + Through(old(output.room), VerdictBytes(Attempted(statuses)))
    ensures well.None? <==> forall i | 0 <= i < |statuses| :: statuses[i] == PamAuthErr
    ensures well.Some? ==> well.value == (closed && true in Attempted(statuses))
  {
    ghost var start, room := output.written, output.room;
    ghost var done: seq<bool> := [];
    assert VerdictBytes([]) == [] && [] + Attempted(statuses) == Attempted(statuses);
    assert statuses[0..] == statuses;
    var i := 0;
    while i < |statuses|
      invariant 0 <= i <= |statuses| && Reliable(output.sched)
      invariant Wrote(output.written, output.room, start, room, VerdictBytes(done)) && true !in done
      invariant Attempted(statuses) == done + Attempted(statuses[i..])
      invariant forall j | 0 <= j < i :: statuses[j] == PamAuthErr
    {
      AttemptedStep(Attempted(statuses), done, statuses[i..]);
      assert statuses[i..][1..] == statuses[i + 1..];
      var status := statuses[i];
      var _ := WriteVerdict(output, status == PamOk, start, room, done);
      done := done + [status == PamOk];
      if status != PamAuthErr {
        return Some(closed && status == PamOk);
      }
      i := i + 1;
    }
    assert Attempted(statuses) == done;
    return None;
  }
}
