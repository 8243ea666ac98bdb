/** What each message of the child does, in the bytes of the protocol, and what the messages of a whole run add up
    to. */
module Messages {
  import opened Bytes
  import opened Frames
  import opened Clock
  import opened Utf8
  import opened MainSpec
  import opened MainRuns
  import opened MainPasses
  import opened Typing

  /** A result grants access if and only if its payload starts with 1; any other result is a failure. */
  ghost predicate Success(f: Frame) {
    f.typ == 0x81 && |f.payload| >= 1 && f.payload[0] == 1
  }

  ghost predicate Refusal(f: Frame) {
    f.typ == 0x81 && (f.payload == [] || f.payload[0] != 1)
  }

  /** A success ends the loop and does nothing else; no other message ends it. */
  lemma ResultMeans(m: Main, f: Frame, json: Json)
    ensures Success(f) ==> HandleMessage(m, f, json) == m.(running := false)
    ensures !Success(f) ==> HandleMessage(m, f, json).running == m.running
    ensures Refusal(f) ==> var k := HandleMessage(m, f, json);
              k.auth == Invalid && k.failed == m.failed + 1 && k.hist.denied == m.hist.denied + 1
    ensures !Refusal(f) ==> HandleMessage(m, f, json).hist.denied == m.hist.denied
  {
    MessagePipe(m, f, json);
    MessageDesk(m, f, json);
    MessageCases(m, f, json);
  }

  /** The entries of a list message are stored in order, at most 256 of them. */
  ghost predicate Holds(stored: Ids, list: ListParse) {
    match list
    case Entries(ids) =>
      && |stored| == (if |ids| < 256 then |ids| else 256)
      && forall i | 0 <= i < |stored| :: stored[i] == ids[i]
    case _ => stored == []
  }

  /** A broker list opens the broker screen with the first entry selected; the auth modes are left alone. A list
      that cannot be stored leaves the screen as it was. */
  lemma BrokersOpen(m: Main, f: Frame, json: Json)
    requires f.typ == 0x82
    ensures var k := HandleMessage(m, f, json);
            && k == m.(authd := k.authd)
            && Holds(k.authd.brokers, json.list) && k.authd.selBroker == 0
            && k.authd.modes == m.authd.modes && k.authd.selMode == m.authd.selMode
            && k.authd.button == m.authd.button
            && (if json.list == NoMemory then k.authd.active == m.authd.active && k.authd.stage == m.authd.stage
                else k.authd.active && k.authd.stage == 1)
  {
    MessageCases(m, f, json);
  }

  /** The same for the auth modes. */
  lemma ModesOpen(m: Main, f: Frame, json: Json)
    requires f.typ == 0x83
    ensures var k := HandleMessage(m, f, json);
            && k == m.(authd := k.authd)
            && Holds(k.authd.modes, json.list) && k.authd.selMode == 0
            && k.authd.brokers == m.authd.brokers && k.authd.selBroker == m.authd.selBroker
            && k.authd.button == m.authd.button
            && (if json.list == NoMemory then k.authd.active == m.authd.active && k.authd.stage == m.authd.stage
                else k.authd.active && k.authd.stage == 2)
  {
    MessageCases(m, f, json);
  }

  /** A failure: a refusal, or a stage change while a password is being validated. */
  ghost predicate Charges(m: Main, f: Frame) {
    Refusal(f) || (f.typ == 0x85 && |f.payload| >= 1 && m.auth == Validating)
  }

  /** A failure restarts the timer of the indicator with its full three seconds; no message touches any other
      timer, and none but a failure touches that one. */
  lemma MessageTimers(m: Main, f: Frame, json: Json)
    ensures var k := HandleMessage(m, f, json);
            if Charges(m, f) then
              && AuthIdleTimer in k.live && k.live[AuthIdleTimer] == NewTimer(m.nextId, k.clock, 3000)
              && k.live - {AuthIdleTimer} == m.live - {AuthIdleTimer}
            else k.live == m.live
  {
    MessageCases(m, f, json);
    if f.typ == 0x81 {
      ChargeTimer(m, m.hist.denied + 1);
    } else {
      ChargeTimer(m, m.hist.denied);
    }
  }

  lemma ChargeTimer(m: Main, denied: nat)
    ensures var k := ShowInvalid(m, denied);
            && AuthIdleTimer in k.live && k.live[AuthIdleTimer] == NewTimer(m.nextId, k.clock, 3000)
            && k.live - {AuthIdleTimer} == m.live - {AuthIdleTimer}
  {}

  // ----- counting over runs -----

  /** The failures among the events of a run. */
  ghost function FailuresIn(m: Main, es: seq<Event>): nat
    requires IsRun(m, es)
    decreases |es|
  {
    if es == [] then 0
    else
      (if es[0].FromChild? && Charges(m, es[0].frame) then 1 else 0) + FailuresIn(Step(m, es[0]), es[1..])
  }

  lemma ChosenCountsNothing(d: Desk, sym: KeySym)
    ensures Chosen(d, sym).failed == d.failed && Chosen(d, sym).running == d.running
  {}

  lemma PressCountsNothing(d: Desk, sym: KeySym, cp: Codepoint)
    ensures Press(d, sym, cp).failed == d.failed && Press(d, sym, cp).running == d.running
  {
    StrokeCountsNothing(d, StrokeOf(d.authd, d.control, sym, cp), sym);
  }

  lemma StrokeCountsNothing(d: Desk, s: Stroke, sym: KeySym)
    ensures Stroked(d, s, sym).failed == d.failed && Stroked(d, s, sym).running == d.running
  {
    ChosenCountsNothing(d, sym);
  }

  lemma RingCountsNothing(d: Desk, kind: TimerKind)
    ensures Rang(d, kind).failed == d.failed && Rang(d, kind).running == d.running
  {
    match kind {
      case RepeatTimer(s) =>
        if s in d.seats {
          PressCountsNothing(d, d.seats[s].sym, d.seats[s].cp);
        }
      case _ =>
    }
  }

  lemma {:induction false} RingsCountNothing(d: Desk, kinds: seq<TimerKind>)
    ensures RangAll(d, kinds).failed == d.failed && RangAll(d, kinds).running == d.running
    decreases |kinds|
  {
    if kinds != [] {
      RingCountsNothing(d, kinds[0]);
      RingsCountNothing(Rang(d, kinds[0]), kinds[1..]);
    }
  }

  lemma StepFailures(m: Main, e: Event)
    requires Inv(m) && Enabled(m, e)
    ensures Step(m, e).failed == m.failed + if e.FromChild? && Charges(m, e.frame) then 1 else 0
  {
    StepDesk(m, e);
    if e.FromChild? {
      ToldCounts(m, e.frame, e.json);
    } else {
      DeskCounts(DeskOf(m), e, RangBetween(m, Step(m, e)));
    }
  }

  lemma ToldCounts(m: Main, f: Frame, json: Json)
    ensures Told(DeskOf(m), f, json).failed == m.failed + if Charges(m, f) then 1 else 0
  {
    if f.typ == 0x81 {
    } else if f.typ == 0x82 || f.typ == 0x83 {
    } else if f.typ == 0x84 {
    } else if f.typ == 0x85 {
    } else {
    }
  }

  lemma DeskCounts(d: Desk, e: Event, rang: seq<TimerKind>)
    requires !e.FromChild?
    ensures DeskStep(d, e, rang).failed == d.failed
  {
    match e {
      case Key(seat, pressed, sym, cp) => PressCountsNothing(d, sym, cp);
      case Timers(_) => RingsCountNothing(d, rang);
      case _ =>
    }
  }

  /** The failed attempts shown are exactly those: each refusal and each stage change while validating counts
      one, and nothing else does. */
  lemma {:induction false} FailuresCounted(m: Main, es: seq<Event>)
    requires Inv(m) && IsRun(m, es)
    ensures After(m, es).failed == m.failed + FailuresIn(m, es)
    decreases |es|
  {
    if es != [] {
      StepKeeps(m, es[0]);
      StepFailures(m, es[0]);
      FailuresCounted(Step(m, es[0]), es[1..]);
    }
  }
}
