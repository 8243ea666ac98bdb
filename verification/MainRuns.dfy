/** What every step of the main process keeps, and what therefore holds in every run of it. */
module MainRuns {
  import opened Bytes
  import opened Utf8
  import opened PasswordBuffer
  import opened Frames
  import opened Pipes
  import opened Clock
  import opened MainSpec

  const CLEAR_NS: nat := CLEAR_PASSWORD_MS * NSEC_PER_MS

  // ----- the invariant, in parts -----

  /** Timer identities: every live timer is a different one, older than the next to be made, and none of
      those that fired; each fired once, and strictly after it was due. */
  ghost predicate TimersOk(live: map<TimerKind, Live>, nextId: nat, fired: seq<Firing>) {
    && (forall k | k in live :: live[k].id < nextId && AsSet(k, live[k]))
    && (forall j, k | j in live && k in live && live[j].id == live[k].id :: j == k)
    && (forall i | 0 <= i < |fired| :: FiringOk(live, nextId, fired[i]))
    && (forall i, j | 0 <= i < j < |fired| :: fired[i].timer.id != fired[j].timer.id)
  }

  /** The expiry is the one that the delay gave when the timer was set, and the delay is the one of its kind. */
  ghost predicate AsSet(kind: TimerKind, t: Live) {
    t.expiry == AddMs(FromNs(t.at), t.ms) && DelayOf(kind, t.ms)
  }

  /** Only key repeats have a delay that the compositor chooses. */
  predicate DelayOf(kind: TimerKind, ms: int) {
    match kind
    case InputIdleTimer => ms == INPUT_IDLE_MS
    case AuthIdleTimer => ms == AUTH_IDLE_MS
    case ClearTimer => ms == CLEAR_PASSWORD_MS
    case RepeatTimer(_) => true
  }

  ghost predicate FiringOk(live: map<TimerKind, Live>, nextId: nat, f: Firing) {
    && f.timer.id < nextId
    && Expired(f.timer.expiry, f.now) && AsSet(f.kind, f.timer)
    && (forall k | k in live :: live[k].id != f.timer.id)
  }

  /** The buffer has room, and a standing password has a clear timer due within ten seconds of `t`. */
  ghost predicate PasswordOk(m: Main, t: nat) {
    && NoZero(m.pw)
    && |EncodeAll(m.pw)| + 1 < m.cap
    && (m.pw != [] ==> ClearTimer in m.live && DueBy(m.live[ClearTimer], t + CLEAR_NS))
  }

  ghost predicate DueBy(timer: Live, t: int) {
    Normal(timer.expiry) && Ns(timer.expiry) <= t
  }

  /** Each indicator has a timer that will take it down. */
  ghost predicate InputOk(m: Main) {
    && (m.input != InputIdle <==> InputIdleTimer in m.live)
    && (InputIdleTimer in m.live ==> DueBy(m.live[InputIdleTimer], m.clock + INPUT_IDLE_MS * NSEC_PER_MS))
  }

  ghost predicate AuthOk(m: Main) {
    && (m.auth == Invalid ==> AuthIdleTimer in m.live)
    && (AuthIdleTimer in m.live ==> DueBy(m.live[AuthIdleTimer], m.clock + AUTH_IDLE_MS * NSEC_PER_MS))
  }

  /** Every denied result is counted, and each submission is charged at most once. */
  ghost predicate CountsOk(auth: AuthState, failed: nat, denied: nat, started: nat) {
    && denied <= failed
    && failed + (if auth == Validating then 1 else 0) <= denied + started
  }

  ghost predicate SelectionOk(sel: int, ids: Ids) {
    -1 <= sel <= Later(0, |ids| - 1) && SmallIds(ids)
  }

  ghost predicate SelectionsOk(a: Authd) {
    SelectionOk(a.selBroker, a.brokers) && SelectionOk(a.selMode, a.modes)
  }

  function PasswordsOf(fs: seq<Frame>): seq<Frame> {
    if fs == [] then []
    else
      var init := PasswordsOf(fs[..|fs| - 1]);
      if fs[|fs| - 1].typ == MSG_PASSWORD then init + [fs[|fs| - 1]] else init
  }

  function PasswordFrames(ps: seq<seq<Codepoint>>): (fs: seq<Frame>)
    ensures |fs| == |ps| && forall i | 0 <= i < |ps| :: fs[i] == PasswordFrame(ps[i])
  {
    if ps == [] then [] else PasswordFrames(ps[..|ps| - 1]) + [PasswordFrame(ps[|ps| - 1])]
  }

  ghost predicate FitsBuffer(cps: seq<Codepoint>, cap: nat) {
    NoZero(cps) && |EncodeAll(cps)| + 1 < cap
  }

  /** The stream to the child: sendable frames, cut at most once, whose password frames are the stacks that
      were submitted, in order. */
  ghost predicate LinkOk(link: Link, delivered: seq<seq<Codepoint>>, cap: nat) {
    && AllSendable(link.sent)
    && CutShort(link.cut)
    && (link.cut == [] || link.room == Some(0))
    && PasswordsOf(link.sent) == PasswordFrames(delivered)
    && (forall i | 0 <= i < |delivered| :: FitsBuffer(delivered[i], cap))
    && cap == 1024
  }

  /** The parts that concern what happened rather than what is shown. */
  ghost predicate RecordOk(m: Main) {
    && TimersOk(m.live, m.nextId, m.hist.fired)
    && m.hist.lastKey <= m.clock
    && CountsOk(m.auth, m.failed, m.hist.denied, m.hist.started)
    && SelectionsOk(m.authd)
    && LinkOk(m.link, m.hist.delivered, m.cap)
    && (forall s | RepeatTimer(s) in m.live :: s in m.seats)
  }

  ghost predicate Inv(m: Main) {
    RecordOk(m) && PasswordOk(m, m.hist.lastKey) && InputOk(m) && AuthOk(m)
  }

  /** Between the parts of one key event the password deadline counts from the present. */
  ghost predicate InvNow(m: Main) {
    RecordOk(m) && PasswordOk(m, m.clock) && InputOk(m) && AuthOk(m)
  }

  // ----- building blocks -----

  lemma ReadClockKeeps(m: Main)
    ensures ReadClock(m).clock >= m.clock
    ensures ReadClock(m) == m.(clock := ReadClock(m).clock, ticks := ReadClock(m).ticks)
  {}

  lemma AddTimers(live: map<TimerKind, Live>, nextId: nat, fired: seq<Firing>, kind: TimerKind, at: nat, ms: int)
    requires TimersOk(live, nextId, fired) && DelayOf(kind, ms)
    ensures TimersOk(live[kind := NewTimer(nextId, at, ms)], nextId + 1, fired)
  {}

  lemma DropTimers(live: map<TimerKind, Live>, nextId: nat, fired: seq<Firing>, kind: TimerKind)
    requires TimersOk(live, nextId, fired)
    ensures TimersOk(live - {kind}, nextId, fired)
  {}

  lemma SendKeeps(link: Link, f: Frame)
    requires Sendable(f) && CutShort(link.cut) && (link.cut == [] || link.room == Some(0))
    ensures Send(link, f).cut == [] || Send(link, f).room == Some(0)
    ensures CutShort(Send(link, f).cut)
    ensures Sends(link, f) ==> Send(link, f).sent == link.sent + [f] && link.cut == [] == Send(link, f).cut
    ensures !Sends(link, f) ==> Send(link, f).sent == link.sent
  {
    var n := Accepted(link.room, |EncodeFrame(f)|);
    if !Sends(link, f) && link.cut == [] {
      assert [] + EncodeFrame(f)[..n] < EncodeFrame(f);
    } else if !Sends(link, f) {
      assert link.cut + EncodeFrame(f)[..0] == link.cut;
    }
  }

  /** All the bytes that went into the pipe. */
  function Written(link: Link): seq<Byte> {
    EncodeFrames(link.sent) + link.cut
  }

  /** The pipe only ever gets more frames, and more bytes. */
  ghost predicate Grows(a: Link, b: Link) {
    a.sent <= b.sent && Written(a) <= Written(b)
  }

  lemma GrowsTransitive(a: Link, b: Link, c: Link)
    requires Grows(a, b) && Grows(b, c)
    ensures Grows(a, c)
  {}

  lemma SendGrows(link: Link, f: Frame)
    requires link.cut == [] || link.room == Some(0)
    ensures Grows(link, Send(link, f))
  {
    if Sends(link, f) {
      EncodeFramesPush(link.sent, f);
      assert Written(link) == EncodeFrames(link.sent);
      assert Written(Send(link, f)) == EncodeFrames(link.sent) + EncodeFrame(f);
    } else {
      Reassociate(EncodeFrames(link.sent), link.cut, EncodeFrame(f)[..Accepted(link.room, |EncodeFrame(f)|)]);
    }
  }

  /** `k` came from `m` by steps that fire nothing: each live timer is new, or is the one it was. */
  ghost predicate Extends(m: Main, k: Main) {
    && k.seats == m.seats && k.cap == m.cap
    && k.running == m.running && k.hist.stopped == m.hist.stopped && k.hist.denied == m.hist.denied
    && k.clock >= m.clock && k.nextId >= m.nextId
    && k.hist.fired == m.hist.fired
    && Grows(m.link, k.link)
    && (forall j | j in k.live :: k.live[j].id >= m.nextId || (j in m.live && m.live[j] == k.live[j]))
  }

  lemma ExtendsTransitive(a: Main, b: Main, c: Main)
    requires Extends(a, b) && Extends(b, c)
    ensures Extends(a, c)
  {
    GrowsTransitive(a.link, b.link, c.link);
  }

  /** `s` is `m` with a new timer behind the handle `kind`, at the same time or later. */
  ghost predicate Restarted(m: Main, s: Main, kind: TimerKind) {
    && kind in s.live
    && s == m.(live := m.live[kind := s.live[kind]], nextId := m.nextId + 1, clock := s.clock, ticks := s.ticks)
    && s.live[kind].id == m.nextId
    && s.clock >= m.clock
  }

  lemma AddTimerRestarts(m: Main, t: Main, kind: TimerKind, ms: int)
    requires TimersOk(m.live, m.nextId, m.hist.fired) && DelayOf(kind, ms)
    requires t == m.(clock := t.clock, ticks := t.ticks) && t.clock >= m.clock
    ensures var s := AddTimer(t, kind, ms);
            && Restarted(m, s, kind) && TimersOk(s.live, s.nextId, s.hist.fired)
            && s.live[kind] == NewTimer(m.nextId, t.clock, ms)
  {
    AddTimers(m.live, m.nextId, m.hist.fired, kind, t.clock, ms);
  }

  /** Restarting a timer keeps everything but the handle it replaces; the new timer is due exactly when its
      delay has passed. */
  lemma ScheduleKeeps(m: Main, kind: TimerKind, ms: int)
    requires TimersOk(m.live, m.nextId, m.hist.fired) && DelayOf(kind, ms)
    ensures var s := Schedule(m, kind, ms);
            && Restarted(m, s, kind) && TimersOk(s.live, s.nextId, s.hist.fired)
            && s.live[kind] == NewTimer(m.nextId, s.clock, ms)
            && Ns(s.live[kind].expiry) == s.clock + ms * NSEC_PER_MS
            && (ms >= 0 ==> DueBy(s.live[kind], s.clock + ms * NSEC_PER_MS))
  {
    var t := ReadClock(m);
    ReadClockKeeps(m);
    AddTimerRestarts(m, t, kind, ms);
    AddMsExact(FromNs(t.clock), ms);
  }

  lemma ShowInputKeeps(m: Main, input: InputState)
    requires RecordOk(m) && PasswordOk(m, m.clock) && AuthOk(m) && input != InputIdle
    ensures InvNow(ShowInput(m, input)) && Extends(m, ShowInput(m, input))
  {
    ScheduleKeeps(m.(input := input), InputIdleTimer, INPUT_IDLE_MS);
  }

  lemma WipeKeeps(m: Main)
    requires InvNow(m)
    ensures InvNow(Wipe(m)) && Extends(m, Wipe(m))
  {
    assert EncodeAll([]) == [];
    DropTimers(m.live, m.nextId, m.hist.fired, ClearTimer);
    ShowInputKeeps(Cancel(m.(pw := []), ClearTimer), Clear);
    ExtendsTransitive(m, Cancel(m.(pw := []), ClearTimer), Wipe(m));
  }

  lemma EditKeeps(m: Main, pw: seq<Codepoint>, input: InputState)
    requires InvNow(m) && FitsBuffer(pw, m.cap) && input != InputIdle
    ensures InvNow(Edit(m, pw, input)) && Extends(m, Edit(m, pw, input))
  {
    var s := Schedule(m.(pw := pw), ClearTimer, CLEAR_PASSWORD_MS);
    ScheduleClearKeeps(m, pw);
    ShowInputKeeps(s, input);
    ExtendsTransitive(m, s, Edit(m, pw, input));
  }

  lemma ScheduleClearKeeps(m: Main, pw: seq<Codepoint>)
    requires RecordOk(m) && AuthOk(m) && FitsBuffer(pw, m.cap)
    ensures var s := Schedule(m.(pw := pw), ClearTimer, CLEAR_PASSWORD_MS);
            RecordOk(s) && PasswordOk(s, s.clock) && AuthOk(s) && Extends(m, s)
  {
    ScheduleKeeps(m.(pw := pw), ClearTimer, CLEAR_PASSWORD_MS);
  }

  lemma PopKeepsFit(pw: seq<Codepoint>, cap: nat)
    requires FitsBuffer(pw, cap)
    ensures FitsBuffer(Popped(pw), cap)
  {}

  lemma PushKeepsFit(pw: seq<Codepoint>, cp: Codepoint, cap: nat)
    requires FitsBuffer(pw, cap) && cp != 0
    ensures FitsBuffer(Pushed(pw, cp, cap), cap)
  {}

  lemma {:induction false} PasswordsOfPush(fs: seq<Frame>, f: Frame)
    ensures PasswordsOf(fs + [f]) == if f.typ == MSG_PASSWORD then PasswordsOf(fs) + [f] else PasswordsOf(fs)
  {
    assert (fs + [f])[..|fs|] == fs;
  }

  lemma PasswordFramesPush(ps: seq<seq<Codepoint>>, p: seq<Codepoint>)
    ensures PasswordFrames(ps + [p]) == PasswordFrames(ps) + [PasswordFrame(p)]
  {
    assert (ps + [p])[..|ps|] == ps;
  }

  /** A frame other than a password leaves the submitted passwords as they are. */
  lemma SendOther(link: Link, delivered: seq<seq<Codepoint>>, cap: nat, f: Frame)
    requires LinkOk(link, delivered, cap) && Sendable(f) && f.typ != MSG_PASSWORD
    ensures LinkOk(Send(link, f), delivered, cap) && Grows(link, Send(link, f))
  {
    SendGrows(link, f);
    SendKeeps(link, f);
    PasswordsOfPush(link.sent, f);
  }

  lemma SendPassword(link: Link, delivered: seq<seq<Codepoint>>, cap: nat, pw: seq<Codepoint>)
    requires LinkOk(link, delivered, cap) && FitsBuffer(pw, cap)
    ensures LinkOk(Send(link, PasswordFrame(pw)),
                   if Sends(link, PasswordFrame(pw)) then delivered + [pw] else delivered, cap)
  {
    SendKeeps(link, PasswordFrame(pw));
    PasswordsOfPush(link.sent, PasswordFrame(pw));
    PasswordFramesPush(delivered, pw);
  }

  lemma HandOverKeeps(m: Main)
    requires InvNow(m) && m.auth != Validating
    ensures InvNow(HandOver(m)) && InvNowButAuth(HandOver(m).(auth := Invalid))
  {
    assert EncodeAll([]) == [];
    HandOverRecord(m, Validating);
    HandOverRecord(m, Invalid);
  }

  lemma HandOverRecord(m: Main, auth: AuthState)
    requires RecordOk(m) && FitsBuffer(m.pw, m.cap) && m.auth != Validating
    ensures RecordOk(HandOver(m).(auth := auth))
  {
    DropTimers(m.live, m.nextId, m.hist.fired, ClearTimer);
    DropTimers(m.live - {ClearTimer}, m.nextId, m.hist.fired, InputIdleTimer);
    SendPassword(m.link, m.hist.delivered, m.cap, m.pw);
  }

  lemma HandOverExtends(m: Main)
    requires LinkOk(m.link, m.hist.delivered, m.cap)
    ensures Extends(m, HandOver(m)) && Extends(m, HandOver(m).(auth := Invalid))
  {
    SendGrows(m.link, PasswordFrame(m.pw));
  }

  ghost predicate InvNowButAuth(m: Main) {
    RecordOk(m) && PasswordOk(m, m.clock) && InputOk(m)
  }

  lemma ScheduleAuthKeeps(m: Main)
    requires InvNowButAuth(m)
    ensures InvNow(Schedule(m, AuthIdleTimer, AUTH_IDLE_MS))
    ensures Extends(m, Schedule(m, AuthIdleTimer, AUTH_IDLE_MS))
  {
    ScheduleKeeps(m, AuthIdleTimer, AUTH_IDLE_MS);
  }

  lemma SubmitKeeps(m: Main)
    requires InvNow(m)
    ensures InvNow(Submit(m)) && Extends(m, Submit(m))
  {
    if !(m.ignoreEmpty && m.pw == []) && m.auth != Validating {
      HandOverKeeps(m);
      HandOverExtends(m);
      if !Sends(m.link, PasswordFrame(m.pw)) {
        ScheduleAuthKeeps(HandOver(m).(auth := Invalid));
        ExtendsTransitive(m, HandOver(m).(auth := Invalid), Submit(m));
      }
    }
  }

  lemma ConfirmKeeps(m: Main, ids: Ids, sel: int, typ: Byte)
    requires LinkOk(m.link, m.hist.delivered, m.cap) && SmallIds(ids) && typ != 0 && typ != MSG_PASSWORD
    ensures LinkOk(Confirm(m.link, ids, sel, typ), m.hist.delivered, m.cap)
    ensures Grows(m.link, Confirm(m.link, ids, sel, typ))
  {
    if 0 <= sel < |ids| && ids[sel].Some? {
      SendOther(m.link, m.hist.delivered, m.cap, Frame(typ, ids[sel].value + [0]));
    }
  }

  lemma LinkKeeps(m: Main, link: Link)
    requires InvNow(m) && LinkOk(link, m.hist.delivered, m.cap) && Grows(m.link, link)
    ensures InvNow(m.(link := link)) && Extends(m, m.(link := link))
  {}

  lemma AuthdKeeps(m: Main, authd: Authd)
    requires InvNow(m) && SelectionsOk(authd)
    ensures InvNow(m.(authd := authd)) && Extends(m, m.(authd := authd))
  {}

  lemma ListKeyKeeps(m: Main, sym: KeySym)
    requires InvNow(m)
    ensures InvNow(ListKey(m, sym)) && Extends(m, ListKey(m, sym))
  {
    var l := m.(link := Replied(m.link, m.authd, sym));
    RepliedKeeps(m, sym);
    LinkKeeps(m, l.link);
    MovedKeeps(m.authd, sym);
    AuthdKeeps(l, Moved(m.authd, sym));
    ExtendsTransitive(m, l, ListKey(m, sym));
  }

  lemma MovedKeeps(a: Authd, sym: KeySym)
    requires SelectionsOk(a)
    ensures SelectionsOk(Moved(a, sym))
  {}

  lemma RepliedKeeps(m: Main, sym: KeySym)
    requires LinkOk(m.link, m.hist.delivered, m.cap) && SelectionsOk(m.authd)
    ensures LinkOk(Replied(m.link, m.authd, sym), m.hist.delivered, m.cap)
    ensures Grows(m.link, Replied(m.link, m.authd, sym))
  {
    var a := m.authd;
    if sym.IsEnter() {
      ConfirmKeeps(m, a.brokers, a.selBroker, MSG_BROKER_SEL);
      ConfirmKeeps(m, a.modes, a.selMode, MSG_AUTH_MODE_SEL);
    } else if !sym.Up? && !sym.Down? {
      SendOther(m.link, m.hist.delivered, m.cap, Frame(MSG_CANCEL, []));
    }
  }

  lemma TypingKeyKeeps(m: Main, sym: KeySym, cp: Codepoint)
    requires InvNow(m)
    ensures InvNow(TypingKey(m, sym, cp)) && Extends(m, TypingKey(m, sym, cp))
  {
    PrintingPrints(m, sym, cp);
    ActKeeps(m, ClassOf(m, sym, cp), cp);
  }

  lemma PrintingPrints(m: Main, sym: KeySym, cp: Codepoint)
    ensures ClassOf(m, sym, cp).Printing? ==> cp != 0
  {}

  lemma ActKeeps(m: Main, c: KeyClass, cp: Codepoint)
    requires InvNow(m) && (c.Printing? ==> cp != 0)
    ensures InvNow(Act(m, c, cp)) && Extends(m, Act(m, c, cp))
  {
    match c {
      case Submitting => SubmitKeeps(m);
      case Wiping => WipeKeeps(m);
      case Erasing =>
        PopKeepsFit(m.pw, m.cap);
        EditKeeps(m, Popped(m.pw), Backspace);
      case Holding => EditKeeps(m, m.pw, Neutral);
      case Printing =>
        PushKeepsFit(m.pw, cp, m.cap);
        EditKeeps(m, Pushed(m.pw, cp, m.cap), Letter);
      case Dead =>
    }
  }

  /** The cases of `KeyAction`. */
  lemma KeyCases(m: Main, sym: KeySym, cp: Codepoint)
    ensures KeyAction(m, sym, cp)
            == if ForList(m.authd, sym) then ListKey(m, sym)
               else if ForButton(m.authd, sym) then m.(link := Send(m.link, Frame(MSG_BUTTON, [])))
               else Act(m, ClassOf(m, sym, cp), cp)
  {}

  lemma KeyActionKeeps(m: Main, sym: KeySym, cp: Codepoint)
    requires InvNow(m)
    ensures InvNow(KeyAction(m, sym, cp)) && Extends(m, KeyAction(m, sym, cp))
  {
    KeyCases(m, sym, cp);
    if ForList(m.authd, sym) {
      ListKeyKeeps(m, sym);
    } else if ForButton(m.authd, sym) {
      SendOther(m.link, m.hist.delivered, m.cap, Frame(MSG_BUTTON, []));
      LinkKeeps(m, Send(m.link, Frame(MSG_BUTTON, [])));
    } else {
      TypingKeyKeeps(m, sym, cp);
    }
  }

  lemma LastKeyKeeps(m: Main)
    requires InvNow(m)
    ensures Inv(m.(hist := m.hist.(lastKey := m.clock)))
  {}

  lemma HandleKeyKeeps(m: Main, sym: KeySym, cp: Codepoint)
    requires InvNow(m)
    ensures Inv(HandleKey(m, sym, cp)) && Extends(m, HandleKey(m, sym, cp))
    ensures HandleKey(m, sym, cp).hist.lastKey == HandleKey(m, sym, cp).clock
  {
    KeyActionKeeps(m, sym, cp);
    LastKeyKeeps(KeyAction(m, sym, cp));
  }

  lemma CancelRepeatKeeps(m: Main, seat: nat)
    requires Inv(m)
    ensures Inv(Cancel(m, RepeatTimer(seat)))
  {
    DropTimers(m.live, m.nextId, m.hist.fired, RepeatTimer(seat));
  }

  lemma ScheduleRepeatKeeps(m: Main, seat: nat, ms: int)
    requires Inv(m) && seat in m.seats
    ensures Inv(Schedule(m, RepeatTimer(seat), ms))
  {
    ScheduleKeeps(m, RepeatTimer(seat), ms);
  }

  lemma SeatsKeep(m: Main, seats: map<nat, Seat>)
    requires Inv(m) && m.seats.Keys <= seats.Keys
    ensures Inv(m.(seats := seats))
  {}

  lemma PressRepeats(m: Main, seat: nat, sym: KeySym, cp: Codepoint)
    requires m.keymap && seat in m.seats && m.seats[seat].periodMs > 0
    ensures KeyboardKey(m, seat, true, sym, cp)
            == Schedule(Cancel(HandleKey(m, sym, cp), RepeatTimer(seat)).(
                          seats := m.seats[seat := m.seats[seat].(sym := sym, cp := cp)]),
                        RepeatTimer(seat), m.seats[seat].delayMs)
  {}

  lemma ReleaseCancels(m: Main, seat: nat, pressed: bool, sym: KeySym, cp: Codepoint)
    requires m.keymap && seat in m.seats && (!pressed || m.seats[seat].periodMs <= 0)
    ensures KeyboardKey(m, seat, pressed, sym, cp)
            == Cancel(if pressed then HandleKey(m, sym, cp) else m, RepeatTimer(seat))
  {}

  lemma KeyboardKeyKeeps(m: Main, seat: nat, pressed: bool, sym: KeySym, cp: Codepoint)
    requires Inv(m) && seat in m.seats
    ensures Inv(KeyboardKey(m, seat, pressed, sym, cp))
  {
    if m.keymap {
      var h := if pressed then HandleKey(m, sym, cp) else m;
      if pressed {
        HandleKeyKeeps(m, sym, cp);
      }
      CancelRepeatKeeps(h, seat);
      if pressed && m.seats[seat].periodMs > 0 {
        RestartRepeatKeeps(Cancel(h, RepeatTimer(seat)), seat, m.seats[seat].(sym := sym, cp := cp));
        PressRepeats(m, seat, sym, cp);
      } else {
        ReleaseCancels(m, seat, pressed, sym, cp);
      }
    }
  }

  lemma RestartRepeatKeeps(m: Main, seat: nat, s: Seat)
    requires Inv(m)
    ensures Inv(Schedule(m.(seats := m.seats[seat := s]), RepeatTimer(seat), s.delayMs))
  {
    SeatsKeep(m, m.seats[seat := s]);
    ScheduleRepeatKeeps(m.(seats := m.seats[seat := s]), seat, s.delayMs);
  }

  // ----- timers -----

  lemma FireTimers(live: map<TimerKind, Live>, nextId: nat, fired: seq<Firing>, kind: TimerKind, now: Instant)
    requires TimersOk(live, nextId, fired) && kind in live && Expired(live[kind].expiry, now)
    ensures TimersOk(live - {kind}, nextId, fired + [Firing(kind, live[kind], now)])
  {
    var more := fired + [Firing(kind, live[kind], now)];
    forall i | 0 <= i < |more| ensures FiringOk(live - {kind}, nextId, more[i]) {
      if i < |fired| {
        assert FiringOk(live, nextId, fired[i]);
      }
    }
    forall i, j | 0 <= i < j < |more| ensures more[i].timer.id != more[j].timer.id {
      if j == |fired| {
        assert FiringOk(live, nextId, fired[i]);
      }
    }
  }

  /** The state a callback starts from. */
  ghost function Unlinked(m: Main, kind: TimerKind, now: Instant): Main
    requires kind in m.live
  {
    m.(live := m.live - {kind}, hist := m.hist.(fired := m.hist.fired + [Firing(kind, m.live[kind], now)]))
  }

  lemma UnlinkedKeeps(m: Main, kind: TimerKind, now: Instant)
    requires Inv(m) && kind in m.live && Expired(m.live[kind].expiry, now)
    ensures var u := Unlinked(m, kind, now);
            && RecordOk(u)
            && (kind != ClearTimer ==> PasswordOk(u, u.hist.lastKey))
            && (kind != InputIdleTimer ==> InputOk(u))
            && (kind != AuthIdleTimer ==> AuthOk(u))
            && kind !in u.live && u.clock == m.clock && u.seats == m.seats && u.cap == m.cap
  {
    FireTimers(m.live, m.nextId, m.hist.fired, kind, now);
  }

  lemma FireKeeps(m: Main, kind: TimerKind, now: Instant)
    requires Inv(m) && kind in m.live && Expired(m.live[kind].expiry, now)
    ensures Inv(Fire(m, kind, now))
  {
    UnlinkedKeeps(m, kind, now);
    var u := Unlinked(m, kind, now);
    match kind {
      case InputIdleTimer => InputIdleKeeps(u);
      case AuthIdleTimer => AuthIdleKeeps(u);
      case ClearTimer => ClearKeeps(u);
      case RepeatTimer(seat) => RepeatKeeps(u, seat);
    }
  }

  lemma InputIdleKeeps(u: Main)
    requires RecordOk(u) && PasswordOk(u, u.hist.lastKey) && AuthOk(u) && InputIdleTimer !in u.live
    ensures Inv(Callback(u, InputIdleTimer))
  {}

  lemma AuthIdleKeeps(u: Main)
    requires RecordOk(u) && PasswordOk(u, u.hist.lastKey) && InputOk(u) && AuthIdleTimer !in u.live
    ensures Inv(Callback(u, AuthIdleTimer))
  {}

  lemma ClearKeeps(u: Main)
    requires RecordOk(u) && InputOk(u) && AuthOk(u)
    ensures Inv(Callback(u, ClearTimer))
  {
    assert EncodeAll([]) == [];
    ShowInputKeeps(u.(pw := []), Clear);
    PasswordGone(ShowInput(u.(pw := []), Clear));
  }

  lemma PasswordGone(m: Main)
    requires InvNow(m) && m.pw == []
    ensures Inv(m)
  {}

  lemma RepeatKeeps(m: Main, seat: nat)
    requires Inv(m) && seat in m.seats
    ensures Inv(Callback(m, RepeatTimer(seat)))
  {
    ScheduleRepeatKeeps(m, seat, m.seats[seat].periodMs);
    HandleKeyKeeps(Schedule(m, RepeatTimer(seat), m.seats[seat].periodMs), m.seats[seat].sym, m.seats[seat].cp);
  }

  lemma {:induction false} PassFromKeeps(m: Main, todo: seq<TimerRef>, now: Instant)
    requires Inv(m)
    ensures Inv(PassFrom(m, todo, now))
    decreases |todo|
  {
    if todo != [] {
      if Due(m, todo[0], now) {
        FireKeeps(m, todo[0].kind, now);
      }
      PassFromKeeps(Visit(m, todo[0], now), todo[1..], now);
    }
  }

  lemma ClockKeeps(m: Main, clock: nat, ticks: seq<nat>)
    requires Inv(m) && clock >= m.clock
    ensures Inv(m.(clock := clock, ticks := ticks))
  {}

  lemma PassKeeps(m: Main, todo: seq<TimerRef>)
    requires Inv(m)
    ensures Inv(Pass(m, todo))
  {
    if todo != [] {
      ReadClockKeeps(m);
      ClockKeeps(m, ReadClock(m).clock, ReadClock(m).ticks);
      PassFromKeeps(ReadClock(m), todo, FromNs(ReadClock(m).clock));
    }
  }

  // ----- messages -----

  lemma AuthTimerKeeps(m: Main)
    requires RecordOk(m) && PasswordOk(m, m.hist.lastKey) && InputOk(m)
    ensures Inv(Schedule(m, AuthIdleTimer, AUTH_IDLE_MS))
  {
    ScheduleKeeps(m, AuthIdleTimer, AUTH_IDLE_MS);
  }

  /** Charging an attempt that was denied, or one that was under way. */
  lemma ChargeKeeps(m: Main, denied: nat)
    requires Inv(m)
    requires denied == m.hist.denied + 1 || (denied == m.hist.denied && m.auth == Validating)
    ensures var c := Charge(m, denied); RecordOk(c) && PasswordOk(c, c.hist.lastKey) && InputOk(c)
  {}

  lemma ShowInvalidKeeps(m: Main, denied: nat)
    requires Inv(m)
    requires denied == m.hist.denied + 1 || (denied == m.hist.denied && m.auth == Validating)
    ensures Inv(ShowInvalid(m, denied))
  {
    ChargeKeeps(m, denied);
    AuthTimerKeeps(Charge(m, denied));
  }

  lemma AuthdInv(m: Main, authd: Authd)
    requires Inv(m) && SelectionsOk(authd)
    ensures Inv(m.(authd := authd))
  {}

  lemma IdleKeeps(m: Main)
    requires Inv(m)
    ensures Inv(m.(auth := AuthIdle))
  {}

  lemma ListedSmall(a: Authd, json: Json)
    requires SelectionsOk(a) && (json.list.Entries? ==> SmallIds(json.list.ids))
    ensures SelectionsOk(Brokers(a, json)) && SelectionsOk(AuthModes(a, json))
  {
    assert SmallIds(Listed(json));
  }

  lemma StageKeeps(m: Main, stage: Byte)
    requires Inv(m)
    ensures Inv(Stage(m, stage))
  {
    if m.auth == Validating {
      ShowInvalidKeeps(m, m.hist.denied);
      AuthdInv(ShowInvalid(m, m.hist.denied), ShowInvalid(m, m.hist.denied).authd.(stage := stage));
    } else {
      AuthdInv(m, m.authd.(stage := stage));
    }
  }

  lemma LayoutKeeps(m: Main, button: bool)
    requires Inv(m)
    ensures Inv(Layout(m, button))
  {}

  lemma StopKeeps(m: Main, stopped: bool)
    requires Inv(m)
    ensures Inv(m.(running := false)) && Inv(m.(running := false, hist := m.hist.(stopped := stopped)))
  {}

  lemma ListMessageKeeps(m: Main, f: Frame, json: Json)
    requires Inv(m) && (json.list.Entries? ==> SmallIds(json.list.ids))
    requires f.typ == MSG_BROKERS || f.typ == MSG_AUTH_MODES
    ensures Inv(HandleMessage(m, f, json))
  {
    ListedSmall(m.authd, json);
    var a := if f.typ == MSG_BROKERS then Brokers(m.authd, json) else AuthModes(m.authd, json);
    AuthdInv(m, a);
    assert HandleMessage(m, f, json) == m.(authd := a);
  }

  lemma ResultMessage(m: Main, f: Frame, json: Json)
    requires f.typ == MSG_AUTH_RESULT
    ensures HandleMessage(m, f, json)
            == if Granted(f) then m.(running := false) else ShowInvalid(m, m.hist.denied + 1)
  {}

  lemma ResultMessageKeeps(m: Main, f: Frame, json: Json)
    requires Inv(m) && f.typ == MSG_AUTH_RESULT
    ensures Inv(HandleMessage(m, f, json))
  {
    StopKeeps(m, false);
    ShowInvalidKeeps(m, m.hist.denied + 1);
    ResultMessage(m, f, json);
  }

  lemma MessageCases(m: Main, f: Frame, json: Json)
    ensures f.typ == MSG_AUTH_RESULT ==>
              HandleMessage(m, f, json) == if Granted(f) then m.(running := false)
                                           else ShowInvalid(m, m.hist.denied + 1)
    ensures f.typ == MSG_BROKERS ==> HandleMessage(m, f, json) == m.(authd := Brokers(m.authd, json))
    ensures f.typ == MSG_AUTH_MODES ==> HandleMessage(m, f, json) == m.(authd := AuthModes(m.authd, json))
    ensures f.typ == MSG_UI_LAYOUT ==> HandleMessage(m, f, json) == Layout(m, json.button)
    ensures f.typ == MSG_STAGE ==>
              HandleMessage(m, f, json) == if |f.payload| >= 1 then Stage(m, f.payload[0]) else m
    ensures f.typ == MSG_AUTH_EVENT ==> HandleMessage(m, f, json) == m.(auth := AuthIdle)
    ensures !(MSG_AUTH_RESULT <= f.typ <= MSG_AUTH_EVENT) ==> HandleMessage(m, f, json) == m
  {}

  lemma MessageKeeps(m: Main, f: Frame, json: Json)
    requires Inv(m) && (json.list.Entries? ==> SmallIds(json.list.ids))
    ensures Inv(HandleMessage(m, f, json))
  {
    if f.typ == MSG_AUTH_RESULT {
      ResultMessageKeeps(m, f, json);
    } else if f.typ == MSG_BROKERS || f.typ == MSG_AUTH_MODES {
      ListMessageKeeps(m, f, json);
    } else if f.typ == MSG_UI_LAYOUT {
      LayoutKeeps(m, json.button);
    } else if f.typ == MSG_STAGE && |f.payload| >= 1 {
      StageKeeps(m, f.payload[0]);
    } else if f.typ == MSG_AUTH_EVENT {
      IdleKeeps(m);
      assert HandleMessage(m, f, json) == m.(auth := AuthIdle);
    }
  }

  lemma KeyboardKeeps(m: Main, control: bool, loaded: bool)
    requires Inv(m)
    ensures Inv(m.(control := control)) && Inv(m.(keymap := loaded))
  {}

  // ----- runs -----

  lemma StepKeeps(m: Main, e: Event)
    requires Inv(m) && Enabled(m, e)
    ensures Inv(Step(m, e))
  {
    match e {
      case Elapse(d, ticks) => ClockKeeps(m, m.clock + d, ticks);
      case Key(seat, pressed, sym, cp) => KeyboardKeyKeeps(m, seat, pressed, sym, cp);
      case Modifiers(control) => KeyboardKeeps(m, control, false);
      case Keymap(loaded) => KeyboardKeeps(m, false, loaded);
      case NewSeat(seat) => SeatsKeep(m, m.seats[seat := Seat(0, 0, Other, 0)]);
      case RepeatRate(seat, rate, delay) => SeatsKeep(m, RepeatInfo(m, seat, rate, delay).seats);
      case FromChild(frame, json) => MessageKeeps(m, frame, json);
      case Timers(todo) => PassKeeps(m, todo);
      case Stop => StopKeeps(m, true);
    }
  }

  ghost predicate IsRun(m: Main, es: seq<Event>)
    decreases |es|
  {
    es == [] || (Enabled(m, es[0]) && IsRun(Step(m, es[0]), es[1..]))
  }

  ghost function After(m: Main, es: seq<Event>): Main
    requires IsRun(m, es)
    decreases |es|
  {
    if es == [] then m else After(Step(m, es[0]), es[1..])
  }

  lemma {:induction false} AfterPush(m: Main, es: seq<Event>, e: Event)
    requires IsRun(m, es) && Enabled(After(m, es), e)
    ensures IsRun(m, es + [e]) && After(m, es + [e]) == Step(After(m, es), e)
    decreases |es|
  {
    var all := es + [e];
    if es == [] {
      assert all[0] == e && all[1..] == [];
    } else {
      AfterPush(Step(m, es[0]), es[1..], e);
      assert all[0] == es[0] && all[1..] == es[1..] + [e];
    }
  }

  lemma InitialInv(m: Main)
    requires Initial(m)
    ensures Inv(m)
  {
    assert [] < EncodeFrame(Frame(1, []));
    assert EncodeAll([]) == [];
    assert PasswordsOf([]) == [] == PasswordFrames([]);
  }

  lemma {:induction false} RunKeeps(m: Main, es: seq<Event>)
    requires Inv(m) && IsRun(m, es)
    ensures Inv(After(m, es))
    decreases |es|
  {
    if es != [] {
      StepKeeps(m, es[0]);
      RunKeeps(Step(m, es[0]), es[1..]);
    }
  }
}
