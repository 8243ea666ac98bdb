/** Which timers run in a run, and with what delays: the three handles of the indicators and the password, and one
    repeat timer for each seat that holds a key. A held key repeats first after the delay of the seat, then once a
    period, until it is released or another one is pressed. */
module TimerRuns {
  import opened Utf8
  import opened PasswordBuffer
  import opened Bytes
  import opened Frames
  import opened Clock
  import opened MainSpec
  import opened MainRuns
  import opened MainPasses
  import opened Typing
  import opened Deadline
  import opened Messages

  // ----- the rule -----

  /** The delays in milliseconds that the running timers were set with. */
  type Delays = map<TimerKind, int>

  function DelaysOf(live: map<TimerKind, Live>): Delays {
    map k | k in live :: live[k].ms
  }

  /** A key that edits restarts the clear timer and the input timer; one that empties the stack stops the clear
      timer; Enter stops both, and starts the failure timer if the child is gone. */
  function KeyDelays(t: Delays, d: Desk, s: Stroke): Delays {
    match s
    case ToList | Button | Nothing => t
    case Enter =>
      if Ignored(d) then t
      else if Sends(d.link, Frame(0x01, EncodeAll(d.pw) + [0])) then t - {ClearTimer} - {InputIdleTimer}
      else (t - {ClearTimer} - {InputIdleTimer})[AuthIdleTimer := 3000]
    case Empty => (t - {ClearTimer})[InputIdleTimer := 1500]
    case Erase =>
      if |d.pw| > 1 then t[ClearTimer := 10000][InputIdleTimer := 1500]
      else (t - {ClearTimer})[InputIdleTimer := 1500]
    case Hold | Character(_) => t[ClearTimer := 10000][InputIdleTimer := 1500]
  }

  function PressDelays(t: Delays, d: Desk, sym: KeySym, cp: Codepoint): Delays {
    KeyDelays(t, d, StrokeOf(d.authd, d.control, sym, cp))
  }

  /** A timer that rings is gone; the clear timer starts the input timer, and a repeat starts itself again, with
      the period of the seat, before the key acts. */
  function RingDelays(t: Delays, d: Desk, kind: TimerKind): Delays {
    match kind
    case InputIdleTimer => t - {kind}
    case AuthIdleTimer => t - {kind}
    case ClearTimer => (t - {kind})[InputIdleTimer := 1500]
    case RepeatTimer(s) =>
      if s in d.seats then PressDelays((t - {kind})[kind := d.seats[s].periodMs], d, d.seats[s].sym, d.seats[s].cp)
      else t - {kind}
  }

  function RingAllDelays(t: Delays, d: Desk, kinds: seq<TimerKind>): Delays
    decreases |kinds|
  {
    if kinds == [] then t
    else RingAllDelays(RingDelays(t, d, kinds[0]), Rang(d, kinds[0]), kinds[1..])
  }

  /** A press starts the repeat timer of its seat with the delay of the seat, if it has a period; a release stops
      it. A failure that the child reports starts the failure timer. */
  function StepDelays(t: Delays, d: Desk, e: Event, rang: seq<TimerKind>): Delays {
    match e
    case Key(seat, pressed, sym, cp) =>
      if !d.keymap || seat !in d.seats then t
      else
        var acted := (if pressed then PressDelays(t, d, sym, cp) else t) - {RepeatTimer(seat)};
        if pressed && d.seats[seat].periodMs > 0 then acted[RepeatTimer(seat) := d.seats[seat].delayMs] else acted
    case FromChild(f, _) => if Fails(d, f) then t[AuthIdleTimer := 3000] else t
    case Timers(_) => RingAllDelays(t, d, rang)
    case _ => t
  }

  predicate Fails(d: Desk, f: Frame) {
    || (f.typ == 0x81 && (f.payload == [] || f.payload[0] != 1))
    || (f.typ == 0x85 && |f.payload| >= 1 && d.auth == Validating)
  }

  function DelaysAfter(t: Delays, d: Desk, es: seq<Event>, rang: seq<seq<TimerKind>>): Delays
    requires |rang| == |es|
    decreases |es|
  {
    if es == [] then t
    else DelaysAfter(StepDelays(t, d, es[0], rang[0]), DeskStep(d, es[0], rang[0]), es[1..], rang[1..])
  }

  // ----- one step -----

  lemma DelaysSet(live: map<TimerKind, Live>, kind: TimerKind, t: Live)
    ensures DelaysOf(live[kind := t]) == DelaysOf(live)[kind := t.ms]
  {}

  lemma DelaysDrop(live: map<TimerKind, Live>, kind: TimerKind)
    ensures DelaysOf(live - {kind}) == DelaysOf(live) - {kind}
  {}

  lemma ScheduleDelays(m: Main, kind: TimerKind, ms: int)
    ensures DelaysOf(Schedule(m, kind, ms).live) == DelaysOf(m.live)[kind := ms]
  {
    DelaysSet(m.live, kind, NewTimer(m.nextId, Reading(m.clock, m.ticks), ms));
  }

  lemma EditDelays(m: Main, pw: seq<Codepoint>, input: InputState)
    ensures DelaysOf(Edit(m, pw, input).live) == DelaysOf(m.live)[ClearTimer := 10000][InputIdleTimer := 1500]
  {
    var s := Schedule(m.(pw := pw), ClearTimer, CLEAR_PASSWORD_MS);
    ScheduleDelays(m.(pw := pw), ClearTimer, CLEAR_PASSWORD_MS);
    ScheduleDelays(s.(input := input), InputIdleTimer, INPUT_IDLE_MS);
  }

  lemma WipeDelays(m: Main)
    ensures DelaysOf(Wipe(m).live) == (DelaysOf(m.live) - {ClearTimer})[InputIdleTimer := 1500]
  {
    DelaysDrop(m.live, ClearTimer);
    ScheduleDelays(Cancel(m.(pw := []), ClearTimer).(input := Clear), InputIdleTimer, INPUT_IDLE_MS);
  }

  lemma SubmitDelays(m: Main)
    ensures DelaysOf(Submit(m).live) == KeyDelays(DelaysOf(m.live), DeskOf(m), Enter)
  {
    DelaysDrop(m.live, ClearTimer);
    DelaysDrop(m.live - {ClearTimer}, InputIdleTimer);
    ScheduleDelays(HandOver(m).(auth := Invalid), AuthIdleTimer, AUTH_IDLE_MS);
  }

  lemma ActDelays(m: Main, c: KeyClass, cp: Codepoint)
    ensures var t := DelaysOf(m.live);
            DelaysOf(Act(m, c, cp).live) ==
            match c
            case Submitting => KeyDelays(t, DeskOf(m), Enter)
            case Wiping => (t - {ClearTimer})[InputIdleTimer := 1500]
            case Erasing | Holding | Printing => t[ClearTimer := 10000][InputIdleTimer := 1500]
            case Dead => t
  {
    match c {
      case Submitting => SubmitDelays(m);
      case Wiping => WipeDelays(m);
      case Erasing => EditDelays(m, Popped(m.pw), Backspace);
      case Holding => EditDelays(m, m.pw, Neutral);
      case Printing => EditDelays(m, Pushed(m.pw, cp, m.cap), Letter);
      case Dead =>
    }
  }

  lemma HandleKeyDelays(m: Main, sym: KeySym, cp: Codepoint)
    ensures DelaysOf(HandleKey(m, sym, cp).live) == PressDelays(DelaysOf(m.live), DeskOf(m), sym, cp)
  {
    StrokeMeans(m, sym, cp);
    KeyCases(m, sym, cp);
    if !ForList(m.authd, sym) && !ForButton(m.authd, sym) {
      TypingDelays(m, sym, cp);
    }
  }

  lemma TypingDelays(m: Main, sym: KeySym, cp: Codepoint)
    requires var s := StrokeOf(m.authd, m.control, sym, cp); !s.ToList? && !s.Button?
    ensures DelaysOf(Act(m, ClassOf(m, sym, cp), cp).live) == PressDelays(DelaysOf(m.live), DeskOf(m), sym, cp)
  {
    StrokeMeans(m, sym, cp);
    ActDelays(m, ClassOf(m, sym, cp), cp);
  }

  lemma KeyboardKeyDelays(m: Main, seat: nat, pressed: bool, sym: KeySym, cp: Codepoint)
    requires seat in m.seats
    ensures DelaysOf(KeyboardKey(m, seat, pressed, sym, cp).live)
            == StepDelays(DelaysOf(m.live), DeskOf(m), Key(seat, pressed, sym, cp), [])
  {
    if m.keymap {
      var h := if pressed then HandleKey(m, sym, cp) else m;
      if pressed {
        HandleKeyDelays(m, sym, cp);
      }
      DelaysDrop(h.live, RepeatTimer(seat));
      if pressed && m.seats[seat].periodMs > 0 {
        PressRepeats(m, seat, sym, cp);
        var c := Cancel(h, RepeatTimer(seat)).(seats := m.seats[seat := m.seats[seat].(sym := sym, cp := cp)]);
        ScheduleDelays(c, RepeatTimer(seat), m.seats[seat].delayMs);
      } else {
        ReleaseCancels(m, seat, pressed, sym, cp);
      }
    }
  }

  lemma FireDelays(m: Main, kind: TimerKind, now: Instant)
    requires kind in m.live
    ensures DelaysOf(Fire(m, kind, now).live) == RingDelays(DelaysOf(m.live), DeskOf(m), kind)
  {
    var u := Unlinked(m, kind, now);
    DelaysDrop(m.live, kind);
    match kind {
      case InputIdleTimer =>
      case AuthIdleTimer =>
      case ClearTimer => ScheduleDelays(u.(pw := [], input := Clear), InputIdleTimer, INPUT_IDLE_MS);
      case RepeatTimer(s) =>
        if s in m.seats {
          var k := Schedule(u, kind, m.seats[s].periodMs);
          ScheduleDelays(u, kind, m.seats[s].periodMs);
          ScheduleDesk(u, kind, m.seats[s].periodMs);
          HandleKeyDelays(k, m.seats[s].sym, m.seats[s].cp);
        }
    }
  }

  lemma MessageDelays(m: Main, f: Frame, json: Json)
    ensures DelaysOf(HandleMessage(m, f, json).live)
            == if Fails(DeskOf(m), f) then DelaysOf(m.live)[AuthIdleTimer := 3000] else DelaysOf(m.live)
  {
    MessageTimers(m, f, json);
    if Charges(m, f) {
      var k := HandleMessage(m, f, json);
      DelaysDrop(m.live, AuthIdleTimer);
      DelaysDrop(k.live, AuthIdleTimer);
      SameButOne(DelaysOf(m.live), DelaysOf(k.live), AuthIdleTimer);
    }
  }

  lemma SameButOne(a: Delays, b: Delays, kind: TimerKind)
    requires a - {kind} == b - {kind} && kind in b
    ensures b == a[kind := b[kind]]
  {
    forall k ensures k in b <==> k in a[kind := b[kind]] {
      assert k != kind ==> (k in b <==> k in b - {kind});
      assert k != kind ==> (k in a <==> k in a - {kind});
    }
    forall k | k in b ensures b[k] == a[kind := b[kind]][k] {
      assert k != kind ==> b[k] == (b - {kind})[k] == (a - {kind})[k];
    }
  }

  // ----- when a held key repeats -----

  /** Both have the same repeat timers. */
  ghost predicate SameRepeats(a: map<TimerKind, Live>, b: map<TimerKind, Live>) {
    && (forall s :: RepeatTimer(s) in a <==> RepeatTimer(s) in b)
    && (forall s | RepeatTimer(s) in a && RepeatTimer(s) in b :: a[RepeatTimer(s)] == b[RepeatTimer(s)])
  }

  lemma TracksSame(m: Main, k: Main, gone: set<TimerKind>)
    requires Tracks(m, k, gone) && forall j | j in gone :: !j.RepeatTimer?
    ensures SameRepeats(m.live, k.live)
  {
    forall s ensures RepeatTimer(s) in m.live <==> RepeatTimer(s) in k.live {
      assert RepeatTimer(s) !in gone;
    }
    forall s | RepeatTimer(s) in m.live && RepeatTimer(s) in k.live
      ensures m.live[RepeatTimer(s)] == k.live[RepeatTimer(s)]
    {
      assert RepeatTimer(s) !in gone;
    }
  }

  /** A key itself leaves all repeat timers alone. */
  lemma HandleKeySame(m: Main, sym: KeySym, cp: Codepoint)
    ensures SameRepeats(m.live, HandleKey(m, sym, cp).live)
  {
    HandleKeyTracks(m, sym, cp);
    TracksSame(m, HandleKey(m, sym, cp), Renewed(DeskOf(m), sym, cp));
  }

  /** A press arms the timer of its seat with the delay, counted from the press; a release, or a press on a seat
      without a period, disarms it; all other seats are left alone. */
  lemma KeyArms(m: Main, seat: nat, pressed: bool, sym: KeySym, cp: Codepoint)
    requires seat in m.seats && m.keymap
    ensures var k := KeyboardKey(m, seat, pressed, sym, cp);
            && SameRepeats(k.live - {RepeatTimer(seat)}, m.live - {RepeatTimer(seat)})
            && (RepeatTimer(seat) in k.live <==> pressed && m.seats[seat].periodMs > 0)
            && (RepeatTimer(seat) in k.live ==> Armed(k.live[RepeatTimer(seat)], k.clock, m.seats[seat].delayMs))
  {
    var h := if pressed then HandleKey(m, sym, cp) else m;
    if pressed {
      HandleKeySame(m, sym, cp);
    }
    if pressed && m.seats[seat].periodMs > 0 {
      PressRepeats(m, seat, sym, cp);
      var c := Cancel(h, RepeatTimer(seat)).(seats := m.seats[seat := m.seats[seat].(sym := sym, cp := cp)]);
      ScheduleArms(c, RepeatTimer(seat), m.seats[seat].delayMs);
    } else {
      ReleaseCancels(m, seat, pressed, sym, cp);
    }
  }

  /** A timer that was set at `at` and is due exactly `ms` later. */
  ghost predicate Armed(t: Live, at: nat, ms: int) {
    t.at == at && t.ms == ms && Ns(t.expiry) == at + ms * NSEC_PER_MS
  }

  lemma ScheduleArms(m: Main, kind: TimerKind, ms: int)
    ensures var s := Schedule(m, kind, ms);
            && kind in s.live && Armed(s.live[kind], s.clock, ms) && s.live - {kind} == m.live - {kind}
            && s.clock == Reading(m.clock, m.ticks)
  {
    AddMsExact(FromNs(Reading(m.clock, m.ticks)), ms);
  }

  /** A repeat arms the timer again, with the period in force, counted from the firing. */
  lemma RepeatArms(m: Main, s: nat, now: Instant)
    requires RepeatTimer(s) in m.live && s in m.seats
    ensures var f := Fire(m, RepeatTimer(s), now);
            && RepeatTimer(s) in f.live
            && Armed(f.live[RepeatTimer(s)], Reading(m.clock, m.ticks), m.seats[s].periodMs)
            && SameRepeats(f.live - {RepeatTimer(s)}, m.live - {RepeatTimer(s)})
  {
    var kind := RepeatTimer(s);
    var u := Unlinked(m, kind, now);
    var k := Schedule(u, kind, m.seats[s].periodMs);
    ScheduleArms(u, kind, m.seats[s].periodMs);
    HandleKeySame(k, m.seats[s].sym, m.seats[s].cp);
    assert Fire(m, kind, now) == HandleKey(k, m.seats[s].sym, m.seats[s].cp);
    assert u.live - {kind} == m.live - {kind};
  }

  // ----- passes and runs -----

  lemma {:induction false} PassFromDelays(m: Main, todo: seq<TimerRef>, now: Instant)
    requires Inv(m)
    ensures var p := PassFrom(m, todo, now);
            DelaysOf(p.live) == RingAllDelays(DelaysOf(m.live), DeskOf(m), RangBetween(m, p))
    decreases |todo|
  {
    if todo != [] {
      var v := Visit(m, todo[0], now);
      var p := PassFrom(m, todo, now);
      VisitSince(m, todo[0], now);
      PassFromDelays(v, todo[1..], now);
      if Due(m, todo[0], now) {
        var kind := todo[0].kind;
        FireSince(m, kind, now);
        FireDelays(m, kind, now);
        FireDesk(m, kind, now);
        PassFromExact(v, todo[1..], now);
        RangFirst(m, v, p, Firing(kind, m.live[kind], now));
        assert ([kind] + RangBetween(v, p))[1..] == RangBetween(v, p);
      }
    }
  }

  lemma PassDelays(m: Main, todo: seq<TimerRef>)
    requires Inv(m)
    ensures var p := Pass(m, todo);
            DelaysOf(p.live) == RingAllDelays(DelaysOf(m.live), DeskOf(m), RangBetween(m, p))
  {
    if todo != [] {
      ReadClockSince(m);
      PassFromDelays(ReadClock(m), todo, FromNs(PassTime(m)));
    }
  }

  lemma StepDelaysAgree(m: Main, e: Event)
    requires Inv(m) && Enabled(m, e)
    ensures DelaysOf(Step(m, e).live)
            == StepDelays(DelaysOf(m.live), DeskOf(m), e, RangBetween(m, Step(m, e)))
  {
    match e {
      case Key(seat, pressed, sym, cp) => KeyboardKeyDelays(m, seat, pressed, sym, cp);
      case FromChild(f, json) => MessageDelays(m, f, json);
      case Timers(todo) => PassDelays(m, todo);
      case _ =>
    }
  }

  /** In every run the timers that run, and the delays they were set with, are those of the rule. With FiredOnce (a
      timer rings only after its delay), PassExact (it rings in the first pass after that, unless it was restarted
      or stopped), KeyArms and RepeatArms this says when everything happens. */
  lemma {:induction false} RunDelays(m: Main, es: seq<Event>)
    requires Inv(m) && IsRun(m, es)
    ensures DelaysOf(After(m, es).live) == DelaysAfter(DelaysOf(m.live), DeskOf(m), es, RangIn(m, es))
    decreases |es|
  {
    if es != [] {
      var n := Step(m, es[0]);
      StepKeeps(m, es[0]);
      StepDesk(m, es[0]);
      StepDelaysAgree(m, es[0]);
      RunDelays(n, es[1..]);
      assert RangIn(m, es)[1..] == RangIn(n, es[1..]);
    }
  }
}
