/** What a whole dispatch pass achieves, although its callbacks add and remove timers while it runs. */
module MainPasses {
  import opened Bytes
  import opened Utf8
  import opened Frames
  import opened Clock
  import opened MainSpec
  import opened MainRuns

  /** `k` came later in the same run: each live timer is new, or is the one it was. */
  ghost predicate Since(m: Main, k: Main) {
    && k.seats == m.seats
    && k.running == m.running && k.hist.stopped == m.hist.stopped && k.hist.denied == m.hist.denied
    && k.clock >= m.clock && k.nextId >= m.nextId && k.hist.lastKey >= m.hist.lastKey
    && m.hist.fired <= k.hist.fired
    && Grows(m.link, k.link)
    && (forall j | j in k.live :: k.live[j].id >= m.nextId || (j in m.live && m.live[j] == k.live[j]))
  }

  lemma SinceTransitive(a: Main, b: Main, c: Main)
    requires Since(a, b) && Since(b, c)
    ensures Since(a, c)
  {
    GrowsTransitive(a.link, b.link, c.link);
  }

  /** After a timer has fired its handle names nothing or a new timer. */
  ghost predicate FiredOff(m: Main, k: Main, kind: TimerKind) {
    && Since(m, k)
    && (kind in k.live ==> k.live[kind].id >= m.nextId)
  }

  lemma ExtendsIsSince(m: Main, k: Main)
    requires Extends(m, k) && k.hist.lastKey >= m.hist.lastKey
    ensures Since(m, k)
  {}

  lemma RestartedSince(m: Main, s: Main, kind: TimerKind)
    requires Restarted(m, s, kind)
    ensures Since(m, s) && s.live[kind].id >= m.nextId
  {}

  lemma RepeatSince(u: Main, seat: nat)
    requires Inv(u) && seat in u.seats
    ensures var f := Callback(u, RepeatTimer(seat));
            Since(u, f) && f.hist.lastKey == f.clock && f.hist.fired == u.hist.fired
    ensures RepeatTimer(seat) !in u.live ==> FiredOff(u, Callback(u, RepeatTimer(seat)), RepeatTimer(seat))
  {
    var s := u.seats[seat];
    var r := Schedule(u, RepeatTimer(seat), s.periodMs);
    ScheduleRepeatKeeps(u, seat, s.periodMs);
    ScheduleKeeps(u, RepeatTimer(seat), s.periodMs);
    RestartedSince(u, r, RepeatTimer(seat));
    HandleKeyKeeps(r, s.sym, s.cp);
    ExtendsIsSince(r, HandleKey(r, s.sym, s.cp));
    SinceTransitive(u, r, HandleKey(r, s.sym, s.cp));
  }

  lemma ClearSince(u: Main)
    requires RecordOk(u) && AuthOk(u) && ClearTimer !in u.live
    ensures var f := Callback(u, ClearTimer);
            FiredOff(u, f, ClearTimer) && OthersKept(u, f) && f.hist == u.hist
  {
    ScheduleKeeps(u.(pw := [], input := Clear), InputIdleTimer, INPUT_IDLE_MS);
  }

  lemma FireSince(m: Main, kind: TimerKind, now: Instant)
    requires Inv(m) && kind in m.live && Expired(m.live[kind].expiry, now)
    ensures FiredOff(m, Fire(m, kind, now), kind)
    ensures Fire(m, kind, now).hist.fired == m.hist.fired + [Firing(kind, m.live[kind], now)]
    ensures kind.RepeatTimer? ==> Fire(m, kind, now).hist.lastKey >= m.clock
    ensures !kind.RepeatTimer? ==> Fire(m, kind, now).hist.lastKey == m.hist.lastKey
    ensures !kind.RepeatTimer? ==> OthersKept(m, Fire(m, kind, now))
  {
    var u, f := Unlinked(m, kind, now), Fire(m, kind, now);
    UnlinkedKeeps(m, kind, now);
    match kind {
      case InputIdleTimer | AuthIdleTimer => IdleSince(u, kind);
      case ClearTimer => ClearSince(u);
      case RepeatTimer(seat) => RepeatSince(u, seat);
    }
    UnlinkedSince(m, f, kind, now);
  }

  /** From the state a callback starts in back to the one before. */
  lemma UnlinkedSince(m: Main, f: Main, kind: TimerKind, now: Instant)
    requires kind in m.live && FiredOff(Unlinked(m, kind, now), f, kind)
    ensures FiredOff(m, f, kind)
    ensures OthersKept(Unlinked(m, kind, now), f) ==> OthersKept(m, f)
  {}

  /** The clear timer and the repeat timers are those of before, or gone. */
  ghost predicate OthersKept(m: Main, f: Main) {
    forall j | j in f.live :: (j.RepeatTimer? || j == ClearTimer) ==> j in m.live && f.live[j] == m.live[j]
  }

  lemma IdleSince(u: Main, kind: TimerKind)
    requires (kind == InputIdleTimer || kind == AuthIdleTimer) && kind !in u.live
    ensures var f := Callback(u, kind); FiredOff(u, f, kind) && OthersKept(u, f) && f.hist == u.hist
  {}

  lemma VisitSince(m: Main, ref: TimerRef, now: Instant)
    requires Inv(m)
    ensures Inv(Visit(m, ref, now)) && Since(m, Visit(m, ref, now))
    ensures var v := Visit(m, ref, now);
            ref.kind in v.live && v.live[ref.kind].id == ref.id < m.nextId ==> !Expired(v.live[ref.kind].expiry, now)
  {
    if Due(m, ref, now) {
      FireKeeps(m, ref.kind, now);
      FireSince(m, ref.kind, now);
    }
  }

  /** No timer that was listed when the pass began is still live and past its time when the pass ends: each
      was met, and fired unless an earlier callback had removed it. What is live besides is new, and new
      timers never run in the pass that added them. */
  lemma {:induction false} PassFromExact(m: Main, todo: seq<TimerRef>, now: Instant)
    requires Inv(m)
    ensures var p := PassFrom(m, todo, now);
            && Inv(p) && Since(m, p)
            && forall j | j in p.live :: p.live[j].id < m.nextId && TimerRef(j, p.live[j].id) in todo
                                         ==> !Expired(p.live[j].expiry, now)
    decreases |todo|
  {
    if todo != [] {
      var v := Visit(m, todo[0], now);
      var p := PassFrom(m, todo, now);
      VisitSince(m, todo[0], now);
      PassFromExact(v, todo[1..], now);
      SinceTransitive(m, v, p);
      forall j | j in p.live && p.live[j].id < m.nextId && TimerRef(j, p.live[j].id) in todo
        ensures !Expired(p.live[j].expiry, now)
      {
        assert j in v.live && v.live[j] == p.live[j];
        assert TimerRef(j, p.live[j].id) == todo[0] || TimerRef(j, p.live[j].id) in todo[1..];
      }
    }
  }

  /** The firings of `k` since `m` were all of timers in `todo`, at the time `now`. */
  ghost predicate FiredFrom(todo: seq<TimerRef>, m: Main, k: Main, now: Instant) {
    forall i | |m.hist.fired| <= i < |k.hist.fired| ::
      TimerRef(k.hist.fired[i].kind, k.hist.fired[i].timer.id) in todo && k.hist.fired[i].now == now
  }

  /** A pass fires nothing but what was listed when it began. */
  lemma {:induction false} PassFromListed(m: Main, todo: seq<TimerRef>, now: Instant)
    requires Inv(m)
    ensures FiredFrom(todo, m, PassFrom(m, todo, now), now)
    decreases |todo|
  {
    if todo != [] {
      var v := Visit(m, todo[0], now);
      VisitSince(m, todo[0], now);
      if Due(m, todo[0], now) {
        FireSince(m, todo[0].kind, now);
      }
      PassFromListed(v, todo[1..], now);
      PassFromExact(v, todo[1..], now);
      FiredStep(m, v, PassFrom(m, todo, now), todo, now);
    }
  }

  lemma FiredStep(m: Main, v: Main, p: Main, todo: seq<TimerRef>, now: Instant)
    requires todo != [] && v.hist.fired <= p.hist.fired && FiredFrom(todo[1..], v, p, now)
    requires v.hist.fired == m.hist.fired
             || exists t :: v.hist.fired == m.hist.fired + [Firing(todo[0].kind, t, now)] && t.id == todo[0].id
    ensures FiredFrom(todo, m, p, now)
  {
    forall i | |m.hist.fired| <= i < |p.hist.fired|
      ensures TimerRef(p.hist.fired[i].kind, p.hist.fired[i].timer.id) in todo && p.hist.fired[i].now == now
    {
      if i < |v.hist.fired| {
        assert p.hist.fired[i] == v.hist.fired[i];
      }
    }
  }

  /** No firing of `p` since `m` was of a timer made since `m`. */
  ghost predicate NoneNew(m: Main, p: Main) {
    forall i | |m.hist.fired| <= i < |p.hist.fired| :: p.hist.fired[i].timer.id < m.nextId
  }

  /** The clock reading that a pass works with. */
  function PassTime(m: Main): nat {
    ReadClock(m).clock
  }

  lemma ReadClockSince(m: Main)
    requires Inv(m)
    ensures Inv(ReadClock(m)) && Since(m, ReadClock(m)) && ReadClock(m).live == m.live
    ensures ReadClock(m).hist == m.hist && ReadClock(m).pw == m.pw
  {
    ReadClockKeeps(m);
    ClockKeeps(m, ReadClock(m).clock, ReadClock(m).ticks);
  }

  lemma NothingToCover(m: Main)
    requires Covers([], m)
    ensures m.live.Keys == {}
  {}

  /** The same for a pass that meets every live timer. Only timers made before it began fire in it: one that a
      callback adds has to wait for the next pass, even if it is already due. */
  lemma PassExact(m: Main, todo: seq<TimerRef>)
    requires Inv(m) && Covers(todo, m)
    ensures var p := Pass(m, todo);
            && Inv(p) && Since(m, p)
            && (forall j | j in p.live :: p.live[j].id >= m.nextId || !Expired(p.live[j].expiry, FromNs(PassTime(m))))
            && FiredFrom(todo, m, p, FromNs(PassTime(m)))
            && (Existing(todo, m.nextId) ==> NoneNew(m, p))
  {
    var p := Pass(m, todo);
    if todo == [] {
      NothingToCover(m);
    } else {
      var t := ReadClock(m);
      ReadClockSince(m);
      PassFromExact(t, todo, FromNs(t.clock));
      PassFromListed(t, todo, FromNs(t.clock));
      SinceTransitive(m, t, p);
      forall j | j in p.live && p.live[j].id < m.nextId ensures !Expired(p.live[j].expiry, FromNs(t.clock)) {
        assert TimerRef(j, m.live[j].id) in todo;
      }
    }
  }

  // ----- what events do to the pipe and to the loop -----

  lemma SchedulePipe(m: Main, kind: TimerKind, ms: int)
    ensures var s := Schedule(m, kind, ms); s.link == m.link && s.running == m.running && s.hist == m.hist
  {}

  lemma KeyboardKeyPipe(m: Main, seat: nat, pressed: bool, sym: KeySym, cp: Codepoint)
    requires Inv(m) && seat in m.seats
    ensures var k := KeyboardKey(m, seat, pressed, sym, cp);
            && Grows(m.link, k.link) && k.running == m.running
            && k.hist.stopped == m.hist.stopped && k.hist.denied == m.hist.denied
  {
    if m.keymap && pressed {
      HandleKeyKeeps(m, sym, cp);
      if m.seats[seat].periodMs > 0 {
        PressRepeats(m, seat, sym, cp);
        var seats := m.seats[seat := m.seats[seat].(sym := sym, cp := cp)];
        var c := Cancel(HandleKey(m, sym, cp), RepeatTimer(seat));
        SchedulePipe(c.(seats := seats), RepeatTimer(seat), m.seats[seat].delayMs);
      }
    }
  }

  lemma ShowInvalidPipe(m: Main, denied: nat)
    ensures var s := ShowInvalid(m, denied);
            s.link == m.link && s.running == m.running && s.hist.stopped == m.hist.stopped && s.hist.denied == denied
  {
    SchedulePipe(Charge(m, denied), AuthIdleTimer, AUTH_IDLE_MS);
  }

  lemma StagePipe(m: Main, stage: Byte)
    ensures var s := Stage(m, stage);
            && s.link == m.link && s.running == m.running
            && s.hist.stopped == m.hist.stopped && s.hist.denied == m.hist.denied
  {
    ShowInvalidPipe(m, m.hist.denied);
  }

  lemma MessagePipe(m: Main, f: Frame, json: Json)
    ensures HandleMessage(m, f, json).link == m.link && HandleMessage(m, f, json).hist.stopped == m.hist.stopped
    ensures HandleMessage(m, f, json).running
            == (m.running && !(f.typ == 0x81 && |f.payload| >= 1 && f.payload[0] == 1))
    ensures HandleMessage(m, f, json).hist.denied
            == m.hist.denied + if f.typ == 0x81 && (f.payload == [] || f.payload[0] != 1) then 1 else 0
  {
    MessageCases(m, f, json);
    if f.typ == MSG_AUTH_RESULT {
      ShowInvalidPipe(m, m.hist.denied + 1);
    } else if f.typ == MSG_STAGE && |f.payload| >= 1 {
      StagePipe(m, f.payload[0]);
    }
  }

  /** Events only ever add bytes to the pipe, and none but a stop request ends the loop. */
  lemma EventPipe(m: Main, e: Event)
    requires Inv(m) && Enabled(m, e) && !e.FromChild?
    ensures Grows(m.link, Step(m, e).link)
    ensures !e.Stop? ==> Step(m, e).running == m.running && Step(m, e).hist.stopped == m.hist.stopped
    ensures e.Stop? ==> Step(m, e).hist.stopped
    ensures Step(m, e).hist.denied == m.hist.denied
  {
    match e {
      case Key(seat, pressed, sym, cp) => KeyboardKeyPipe(m, seat, pressed, sym, cp);
      case Timers(todo) => PassExact(m, todo);
      case _ =>
    }
  }

  // ----- the password deadline -----

  /** A clear timer that was set during the pass was set by a key. */
  ghost predicate NewClearMeansKey(m: Main, firstId: nat, start: nat) {
    ClearTimer in m.live && m.live[ClearTimer].id >= firstId ==> m.hist.lastKey >= start
  }

  lemma {:induction false} PassFromKeys(m: Main, todo: seq<TimerRef>, now: Instant, firstId: nat, start: nat)
    requires Inv(m) && start <= m.clock && NewClearMeansKey(m, firstId, start)
    ensures NewClearMeansKey(PassFrom(m, todo, now), firstId, start)
    decreases |todo|
  {
    if todo != [] {
      var v := Visit(m, todo[0], now);
      VisitSince(m, todo[0], now);
      if Due(m, todo[0], now) {
        FireSince(m, todo[0].kind, now);
      }
      PassFromKeys(v, todo[1..], now, firstId, start);
    }
  }

  /** After every dispatch pass a password that still stands has seen a key within the ten seconds before
      the clock reading of the pass; the key may be a repeat that fired in the pass itself. */
  lemma PasswordDeadline(m: Main, todo: seq<TimerRef>)
    requires Inv(m) && Covers(todo, m)
    ensures Pass(m, todo).pw != [] ==> PassTime(m) <= Pass(m, todo).hist.lastKey + CLEAR_NS
  {
    var p := Pass(m, todo);
    PassExact(m, todo);
    if todo == [] {
      NothingToCover(m);
    } else if p.pw != [] {
      var t := ReadClock(m);
      ReadClockSince(m);
      PassFromKeys(t, todo, FromNs(t.clock), m.nextId, t.clock);
      ExpiredIsPast(p.live[ClearTimer].expiry, FromNs(t.clock));
    }
  }

  ghost predicate NoRepeatDue(m: Main, now: Instant) {
    forall s | RepeatTimer(s) in m.live :: !Expired(m.live[RepeatTimer(s)].expiry, now)
  }

  lemma {:induction false} QuietPassFrom(m: Main, todo: seq<TimerRef>, now: Instant)
    requires Inv(m) && NoRepeatDue(m, now)
    ensures PassFrom(m, todo, now).hist.lastKey == m.hist.lastKey
    decreases |todo|
  {
    if todo != [] {
      QuietStep(m, todo[0], now);
      QuietPassFrom(Visit(m, todo[0], now), todo[1..], now);
    }
  }

  lemma QuietStep(m: Main, ref: TimerRef, now: Instant)
    requires Inv(m) && NoRepeatDue(m, now)
    ensures var v := Visit(m, ref, now); Inv(v) && NoRepeatDue(v, now) && v.hist.lastKey == m.hist.lastKey
  {
    VisitSince(m, ref, now);
    NoRepeatMet(m, ref, now);
    if Due(m, ref, now) {
      FireSince(m, ref.kind, now);
      StillNoneDue(m, Visit(m, ref, now), now);
    }
  }

  lemma NoRepeatMet(m: Main, ref: TimerRef, now: Instant)
    requires NoRepeatDue(m, now)
    ensures Due(m, ref, now) ==> !ref.kind.RepeatTimer?
  {
    match ref.kind {
      case RepeatTimer(s) => assert RepeatTimer(s) in m.live ==> !Expired(m.live[RepeatTimer(s)].expiry, now);
      case _ =>
    }
  }

  lemma StillNoneDue(m: Main, v: Main, now: Instant)
    requires NoRepeatDue(m, now) && OthersKept(m, v)
    ensures NoRepeatDue(v, now)
  {}

  /** With no key repeat due, a pass more than ten seconds after the last key leaves no password. */
  lemma QuietPassClears(m: Main, todo: seq<TimerRef>)
    requires Inv(m) && Covers(todo, m)
    requires PassTime(m) > m.hist.lastKey + CLEAR_NS && NoRepeatDue(m, FromNs(PassTime(m)))
    ensures Pass(m, todo).pw == []
  {
    PasswordDeadline(m, todo);
    if todo != [] {
      ReadClockSince(m);
      QuietPassFrom(ReadClock(m), todo, FromNs(PassTime(m)));
    }
  }

  // ----- why the deadline has to count repeats -----

  ghost function Idle(seats: map<nat, Seat>): Main {
    Main([], 1024, AuthIdle, InputIdle, map[], 0, 0, [], false, true, false, seats,
         Authd(false, STAGE_NONE, [], -1, [], -1, false), 0, true,
         Link([], [], None), History(0, 0, [], 0, [], false))
  }

  /** A letter that fits, when no authd list is shown and the clock stands still. */
  lemma Typed(m: Main, cp: Codepoint)
    requires !m.control && !m.authd.active && m.ticks == [] && cp != 0
    requires |EncodeAll(m.pw)| + ChSize(cp) + 1 < m.cap
    ensures HandleKey(m, Other, cp)
            == m.(pw := m.pw + [cp], input := Letter, nextId := m.nextId + 2, hist := m.hist.(lastKey := m.clock),
                  live := m.live[ClearTimer := NewTimer(m.nextId, m.clock, CLEAR_PASSWORD_MS)]
                                [InputIdleTimer := NewTimer(m.nextId + 1, m.clock, INPUT_IDLE_MS)])
  {
    var pw := m.pw + [cp];
    assert KeyAction(m, Other, cp) == Edit(m, pw, Letter);
    Edited(m, pw, Letter);
  }

  lemma Edited(m: Main, pw: seq<Codepoint>, input: InputState)
    requires m.ticks == []
    ensures Edit(m, pw, input)
            == m.(pw := pw, input := input, nextId := m.nextId + 2,
                  live := m.live[ClearTimer := NewTimer(m.nextId, m.clock, CLEAR_PASSWORD_MS)]
                                [InputIdleTimer := NewTimer(m.nextId + 1, m.clock, INPUT_IDLE_MS)])
  {
    assert ReadClock(m.(pw := pw)) == m.(pw := pw);
  }

  lemma FirstTyped(m: Main)
    requires m == Idle(map[0 := Seat(40, 600, Other, 0)])
    ensures var h := HandleKey(m, Other, 97);
            && Inv(h) && h.live.Keys == {ClearTimer, InputIdleTimer} && h.clock == 0 && h.hist.lastKey == 0
            && h.live[ClearTimer].id == 0 && h.live[InputIdleTimer].id == 1 && h.nextId == 2
            && h.pw == [97] && h.cap == 1024 && !h.control && !h.authd.active && h.ticks == []
  {
    assert EncodeAll([]) == [];
    Typed(m, 97);
    FirstTypedInv(m);
  }

  lemma FirstTypedInv(m: Main)
    requires m == Idle(map[0 := Seat(40, 600, Other, 0)])
    ensures Inv(HandleKey(m, Other, 97))
  {
    InitialInv(m);
    HandleKeyKeeps(m, Other, 97);
  }

  /** A letter typed on a fresh screen, its key held down. */
  lemma FirstLetter(m: Main)
    requires m == Idle(map[0 := Seat(40, 600, Other, 0)])
    ensures KeyHeld(KeyboardKey(m, 0, true, Other, 97))
    ensures KeyboardKey(m, 0, true, Other, 97).hist.lastKey == 0
  {
    FirstTyped(m);
    FirstPress(m);
    StartRepeat(HandleKey(m, Other, 97));
  }

  lemma FirstPress(m: Main)
    requires m.keymap && m.seats == map[0 := Seat(40, 600, Other, 0)]
    ensures var c := Cancel(HandleKey(m, Other, 97), RepeatTimer(0)).(seats := map[0 := Seat(40, 600, Other, 97)]);
            KeyboardKey(m, 0, true, Other, 97) == Schedule(c, RepeatTimer(0), 600)
  {
    assert m.seats[0 := m.seats[0].(sym := Other, cp := 97)] == map[0 := Seat(40, 600, Other, 97)];
    PressRepeats(m, 0, Other, 97);
  }

  lemma StartRepeat(h: Main)
    requires Inv(h) && h.live.Keys == {ClearTimer, InputIdleTimer} && h.clock == 0
    requires h.live[ClearTimer].id == 0 && h.live[InputIdleTimer].id == 1 && h.nextId == 2
    requires h.pw == [97] && h.cap == 1024 && !h.control && !h.authd.active && h.ticks == []
    ensures var c := Cancel(h, RepeatTimer(0)).(seats := map[0 := Seat(40, 600, Other, 97)]);
            var k := Schedule(c, RepeatTimer(0), 600);
            KeyHeld(k) && k.hist.lastKey == h.hist.lastKey
  {
    CancelRepeatKeeps(h, 0);
    ScheduleKeeps(Cancel(h, RepeatTimer(0)).(seats := map[0 := Seat(40, 600, Other, 97)]), RepeatTimer(0), 600);
  }

  /** The same letter again, when it comes from a repeat. */
  lemma SecondLetter(r: Main)
    requires r.pw == [97] && r.cap == 1024 && !r.control && !r.authd.active && r.ticks == []
    ensures var h := HandleKey(r, Other, 97);
            && h.pw == [97, 97] && ClearTimer in h.live && InputIdleTimer in h.live
            && h.live[ClearTimer].id == r.nextId && h.live[InputIdleTimer].id == r.nextId + 1
  {
    EncodeAllPush([], 97);
    assert [] + [97] == [97];
    Typed(r, 97);
  }

  /** Entries of the list that are no longer behind their handle are passed over. */
  lemma {:induction false} StaleRefs(m: Main, refs: seq<TimerRef>, now: Instant)
    requires forall i | 0 <= i < |refs| :: refs[i].kind in m.live && m.live[refs[i].kind].id != refs[i].id
    ensures PassFrom(m, refs, now) == m
    decreases |refs|
  {
    if refs != [] {
      assert Visit(m, refs[0], now) == m;
      StaleRefs(m, refs[1..], now);
    }
  }

  /** The list as it stands while the key is held: newest first. */
  ghost function HeldRefs(): seq<TimerRef> {
    [TimerRef(RepeatTimer(0), 2), TimerRef(InputIdleTimer, 1), TimerRef(ClearTimer, 0)]
  }

  ghost predicate KeyHeld(m: Main) {
    && m.live.Keys == {ClearTimer, InputIdleTimer, RepeatTimer(0)}
    && m.live[ClearTimer].id == 0 && m.live[InputIdleTimer].id == 1 && m.live[RepeatTimer(0)].id == 2
    && DueBy(m.live[RepeatTimer(0)], 600 * NSEC_PER_MS)
    && m.nextId == 3 && m.pw == [97] && m.cap == 1024 && !m.control && !m.authd.active && m.ticks == []
    && m.seats == map[0 := Seat(40, 600, Other, 97)]
  }

  /** The held key repeats in a pass twenty seconds later: it replaces the clear timer before the pass
      reaches it. */
  lemma RepeatReplacesClear(m: Main, now: Instant)
    requires KeyHeld(m) && Normal(now) && Ns(now) == 20 * NSEC_PER_SEC
    ensures PassFrom(m, HeldRefs(), now).pw == [97, 97]
  {
    var r := Schedule(Unlinked(m, RepeatTimer(0), now), RepeatTimer(0), 40);
    var v := HandleKey(r, Other, 97);
    SecondLetter(r);
    ExpiredIsPast(m.live[RepeatTimer(0)].expiry, now);
    assert Due(m, HeldRefs()[0], now);
    assert Visit(m, HeldRefs()[0], now) == v;
    StaleRefs(v, HeldRefs()[1..], now);
  }

  lemma HeldPass(m: Main)
    requires KeyHeld(m) && m.clock == 20 * NSEC_PER_SEC
    ensures Enabled(m, Timers(HeldRefs())) && PassTime(m) == m.clock && Pass(m, HeldRefs()).pw == [97, 97]
  {
    assert HeldRefs()[0] in HeldRefs() && HeldRefs()[1] in HeldRefs() && HeldRefs()[2] in HeldRefs();
    RepeatReplacesClear(m, FromNs(m.clock));
  }

  lemma HeldRun(m0: Main, es: seq<Event>)
    requires m0 == Idle(map[0 := Seat(40, 600, Other, 0)])
    requires es == [Key(0, true, Other, 97), Elapse(20 * NSEC_PER_SEC, [])]
    ensures IsRun(m0, es)
    ensures var m := After(m0, es); KeyHeld(m) && m.clock == 20 * NSEC_PER_SEC && m.hist.lastKey == 0
  {
    FirstLetter(m0);
    var k := KeyboardKey(m0, 0, true, Other, 97);
    assert Step(m0, es[0]) == k;
    assert es[1..] == [es[1]] && es[1..][1..] == [];
    assert IsRun(k, es[1..]);
    assert After(k, es[1..]) == Step(k, es[1]);
  }

  /** So the plain claim is false: there is a run, and a pass in it more than ten seconds after the last
      key, that leaves a password standing. */
  lemma RepeatOutlivesDeadline() returns (m0: Main, es: seq<Event>, todo: seq<TimerRef>)
    ensures Initial(m0) && IsRun(m0, es)
    ensures var m := After(m0, es);
            Enabled(m, Timers(todo)) && PassTime(m) > m.hist.lastKey + CLEAR_NS && Pass(m, todo).pw != []
  {
    m0 := Idle(map[0 := Seat(40, 600, Other, 0)]);
    es := [Key(0, true, Other, 97), Elapse(20 * NSEC_PER_SEC, [])];
    todo := HeldRefs();
    HeldRun(m0, es);
    HeldPass(After(m0, es));
  }
}
