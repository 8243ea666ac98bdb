/** Which timers ring in a dispatch pass, and so what it leaves of the password. A late pass can leave one standing:
    keys that repeat in the pass itself decide. */
module Deadline {
  import opened Utf8
  import opened PasswordBuffer
  import opened Clock
  import opened MainSpec
  import opened MainRuns
  import opened MainPasses
  import opened Typing

  // ----- any pass -----

  /** The timers that are due when the pass begins, in the order in which it meets them. */
  function DueKinds(m: Main, todo: seq<TimerRef>, now: Instant): seq<TimerKind>
    decreases |todo|
  {
    if todo == [] then []
    else if Due(m, todo[0], now) then [todo[0].kind] + DueKinds(m, todo[1..], now)
    else DueKinds(m, todo[1..], now)
  }

  /** The timers that a key restarts or cancels. */
  function Renewed(d: Desk, sym: KeySym, cp: Codepoint): set<TimerKind> {
    match StrokeOf(d.authd, d.control, sym, cp)
    case ToList | Button | Nothing => {}
    case Enter => RenewedByEnter(d)
    case _ => {ClearTimer, InputIdleTimer}
  }

  function RenewedByEnter(d: Desk): set<TimerKind> {
    if Ignored(d) then {}
    else if Sends(d.link, PasswordFrame(d.pw)) then {ClearTimer, InputIdleTimer}
    else {ClearTimer, InputIdleTimer, AuthIdleTimer}
  }

  function RenewedBy(d: Desk, kind: TimerKind): set<TimerKind> {
    match kind
    case ClearTimer => {InputIdleTimer}
    case RepeatTimer(s) => if s in d.seats then Renewed(d, d.seats[s].sym, d.seats[s].cp) else {}
    case _ => {}
  }

  /** Of the timers that were due, those ring that no earlier one has renewed; `gone` are the timers that rang
      or were renewed so far. */
  function Ringing(d: Desk, gone: set<TimerKind>, due: seq<TimerKind>): seq<TimerKind>
    decreases |due|
  {
    if due == [] then []
    else if due[0] in gone then Ringing(d, gone, due[1..])
    else [due[0]] + Ringing(Rang(d, due[0]), gone + {due[0]} + RenewedBy(d, due[0]), due[1..])
  }

  /** The desk when all have been met, and the timers that have gone. */
  function Outcome(d: Desk, gone: set<TimerKind>, due: seq<TimerKind>): (Desk, set<TimerKind>)
    decreases |due|
  {
    if due == [] then (d, gone)
    else if due[0] in gone then Outcome(d, gone, due[1..])
    else Outcome(Rang(d, due[0]), gone + {due[0]} + RenewedBy(d, due[0]), due[1..])
  }

  lemma {:induction false} OutcomeRings(d: Desk, gone: set<TimerKind>, due: seq<TimerKind>)
    ensures RangAll(d, Ringing(d, gone, due)) == Outcome(d, gone, due).0
    decreases |due|
  {
    if due != [] {
      if due[0] in gone {
        OutcomeRings(d, gone, due[1..]);
      } else {
        var e, more := Rang(d, due[0]), gone + {due[0]} + RenewedBy(d, due[0]);
        OutcomeRings(e, more, due[1..]);
        assert ([due[0]] + Ringing(e, more, due[1..]))[1..] == Ringing(e, more, due[1..]);
      }
    }
  }

  /** The handles in `gone` are NULL or name a new timer; all others are as they were. */
  ghost predicate Tracks(m: Main, k: Main, gone: set<TimerKind>) {
    && k.nextId >= m.nextId
    && (forall j | j in gone && j in k.live :: k.live[j].id >= m.nextId)
    && (forall j | j !in gone :: j in k.live <==> j in m.live)
    && (forall j | j !in gone && j in m.live && j in k.live :: k.live[j] == m.live[j])
  }

  lemma TracksTransitive(a: Main, b: Main, c: Main, g: set<TimerKind>, h: set<TimerKind>)
    requires Tracks(a, b, g) && Tracks(b, c, h)
    ensures Tracks(a, c, g + h)
  {}

  lemma ScheduleTracks(m: Main, kind: TimerKind, ms: int)
    ensures Tracks(m, Schedule(m, kind, ms), {kind})
  {}

  lemma EditTracks(m: Main, pw: seq<Codepoint>, input: InputState)
    ensures Tracks(m, Edit(m, pw, input), {ClearTimer, InputIdleTimer})
  {
    var s := Schedule(m.(pw := pw), ClearTimer, CLEAR_PASSWORD_MS);
    ScheduleTracks(m.(pw := pw), ClearTimer, CLEAR_PASSWORD_MS);
    ScheduleTracks(s.(input := input), InputIdleTimer, INPUT_IDLE_MS);
    TracksTransitive(m, s, Edit(m, pw, input), {ClearTimer}, {InputIdleTimer});
    assert {ClearTimer} + {InputIdleTimer} == {ClearTimer, InputIdleTimer};
  }

  lemma WipeTracks(m: Main)
    ensures Tracks(m, Wipe(m), {ClearTimer, InputIdleTimer})
  {
    var c := Cancel(m.(pw := []), ClearTimer);
    ScheduleTracks(c.(input := Clear), InputIdleTimer, INPUT_IDLE_MS);
    TracksTransitive(m, c, Wipe(m), {ClearTimer}, {InputIdleTimer});
    assert {ClearTimer} + {InputIdleTimer} == {ClearTimer, InputIdleTimer};
  }

  lemma SubmitTracks(m: Main)
    ensures Tracks(m, Submit(m), RenewedByEnter(DeskOf(m)))
  {
    var h := HandOver(m).(auth := Invalid);
    assert Tracks(m, h, {ClearTimer, InputIdleTimer});
    ScheduleTracks(h, AuthIdleTimer, AUTH_IDLE_MS);
    TracksTransitive(m, h, Schedule(h, AuthIdleTimer, AUTH_IDLE_MS), {ClearTimer, InputIdleTimer}, {AuthIdleTimer});
    assert {ClearTimer, InputIdleTimer} + {AuthIdleTimer} == {ClearTimer, InputIdleTimer, AuthIdleTimer};
  }

  lemma TypingKeyTracks(m: Main, sym: KeySym, cp: Codepoint)
    requires var s := StrokeOf(m.authd, m.control, sym, cp); !s.ToList? && !s.Button?
    ensures Tracks(m, Act(m, ClassOf(m, sym, cp), cp), Renewed(DeskOf(m), sym, cp))
  {
    StrokeMeans(m, sym, cp);
    ActTracks(m, ClassOf(m, sym, cp), cp);
  }

  lemma ActTracks(m: Main, c: KeyClass, cp: Codepoint)
    ensures Tracks(m, Act(m, c, cp),
                   if c.Dead? then {} else if c.Submitting? then RenewedByEnter(DeskOf(m))
                   else {ClearTimer, InputIdleTimer})
  {
    match c {
      case Submitting => SubmitTracks(m);
      case Wiping => WipeTracks(m);
      case Erasing => EditTracks(m, Popped(m.pw), Backspace);
      case Holding => EditTracks(m, m.pw, Neutral);
      case Printing => EditTracks(m, Pushed(m.pw, cp, m.cap), Letter);
      case Dead =>
    }
  }

  lemma HandleKeyTracks(m: Main, sym: KeySym, cp: Codepoint)
    ensures Tracks(m, HandleKey(m, sym, cp), Renewed(DeskOf(m), sym, cp))
  {
    StrokeMeans(m, sym, cp);
    KeyCases(m, sym, cp);
    if !ForList(m.authd, sym) && !ForButton(m.authd, sym) {
      TypingKeyTracks(m, sym, cp);
    }
  }

  lemma FireTracks(m: Main, kind: TimerKind, now: Instant)
    requires kind in m.live
    ensures Tracks(m, Fire(m, kind, now), {kind} + RenewedBy(DeskOf(m), kind))
  {
    var u := Unlinked(m, kind, now);
    assert Tracks(m, u, {kind});
    match kind {
      case InputIdleTimer =>
      case AuthIdleTimer =>
      case ClearTimer =>
        ScheduleTracks(u.(pw := [], input := Clear), InputIdleTimer, INPUT_IDLE_MS);
        TracksTransitive(m, u, Fire(m, kind, now), {kind}, {InputIdleTimer});
      case RepeatTimer(s) =>
        if s in m.seats {
          RepeatTracks(m, u, s);
        }
    }
  }

  lemma RepeatTracks(m: Main, u: Main, s: nat)
    requires Tracks(m, u, {RepeatTimer(s)}) && DeskOf(u) == DeskOf(m) && s in m.seats
    ensures Tracks(m, Callback(u, RepeatTimer(s)), {RepeatTimer(s)} + RenewedBy(DeskOf(m), RepeatTimer(s)))
  {
    var kind := RepeatTimer(s);
    var k := Schedule(u, kind, m.seats[s].periodMs);
    ScheduleTracks(u, kind, m.seats[s].periodMs);
    ScheduleDesk(u, kind, m.seats[s].periodMs);
    HandleKeyTracks(k, m.seats[s].sym, m.seats[s].cp);
    TracksTransitive(m, u, k, {kind}, {kind});
    assert {kind} + {kind} == {kind};
    TracksTransitive(m, k, HandleKey(k, m.seats[s].sym, m.seats[s].cp), {kind}, RenewedBy(DeskOf(m), kind));
  }

  /** A timer that was there at the start is due now if it was due then and has not gone. */
  lemma StillDue(m: Main, k: Main, gone: set<TimerKind>, ref: TimerRef, now: Instant)
    requires Tracks(m, k, gone) && ref.id < m.nextId
    ensures Due(k, ref, now) <==> ref.kind !in gone && Due(m, ref, now)
  {}

  lemma FiredTracks(m: Main, k: Main, gone: set<TimerKind>, kind: TimerKind, now: Instant)
    requires Tracks(m, k, gone) && kind in k.live
    ensures Tracks(m, Fire(k, kind, now), gone + {kind} + RenewedBy(DeskOf(k), kind))
  {
    FireTracks(k, kind, now);
    TracksTransitive(m, k, Fire(k, kind, now), gone, {kind} + RenewedBy(DeskOf(k), kind));
    assert gone + ({kind} + RenewedBy(DeskOf(k), kind)) == gone + {kind} + RenewedBy(DeskOf(k), kind);
  }

  /** All that the rest of the pass needs to know of a firing. */
  lemma FiredState(m: Main, k: Main, gone: set<TimerKind>, kind: TimerKind, now: Instant)
    requires Inv(k) && Tracks(m, k, gone) && kind in k.live && Expired(k.live[kind].expiry, now)
    ensures var v := Fire(k, kind, now);
            && Inv(v) && v.hist.fired == k.hist.fired + [Firing(kind, k.live[kind], now)]
            && DeskOf(v) == Rang(DeskOf(k), kind)
            && Tracks(m, v, gone + {kind} + RenewedBy(DeskOf(k), kind))
  {
    FireKeeps(k, kind, now);
    FireSince(k, kind, now);
    FireDesk(k, kind, now);
    FiredTracks(m, k, gone, kind, now);
  }

  lemma {:induction false} RestRings(m: Main, k: Main, gone: set<TimerKind>, todo: seq<TimerRef>, now: Instant)
    requires Inv(k) && Tracks(m, k, gone) && Existing(todo, m.nextId)
    ensures RangBetween(k, PassFrom(k, todo, now)) == Ringing(DeskOf(k), gone, DueKinds(m, todo, now))
    decreases |todo|
  {
    if todo != [] {
      var ref, rest := todo[0], todo[1..];
      StillDue(m, k, gone, ref, now);
      if Due(k, ref, now) {
        OneRings(m, k, gone, todo, now);
      } else {
        RestRings(m, k, gone, rest, now);
        SkipRings(DeskOf(k), gone, m, todo, now);
      }
    }
  }

  lemma SkipRings(d: Desk, gone: set<TimerKind>, m: Main, todo: seq<TimerRef>, now: Instant)
    requires todo != [] && (todo[0].kind in gone || !Due(m, todo[0], now))
    ensures Ringing(d, gone, DueKinds(m, todo, now)) == Ringing(d, gone, DueKinds(m, todo[1..], now))
  {
    var due := DueKinds(m, todo[1..], now);
    assert ([todo[0].kind] + due)[1..] == due;
  }

  lemma {:induction false} OneRings(m: Main, k: Main, gone: set<TimerKind>, todo: seq<TimerRef>, now: Instant)
    requires Inv(k) && Tracks(m, k, gone) && Existing(todo, m.nextId)
    requires todo != [] && Due(k, todo[0], now) && Due(m, todo[0], now) && todo[0].kind !in gone
    ensures RangBetween(k, PassFrom(k, todo, now)) == Ringing(DeskOf(k), gone, DueKinds(m, todo, now))
    decreases |todo|, 0
  {
    var kind, rest := todo[0].kind, todo[1..];
    var v := Fire(k, kind, now);
    var more := gone + {kind} + RenewedBy(DeskOf(k), kind);
    FiredState(m, k, gone, kind, now);
    RestRings(m, v, more, rest, now);
    PassFromExact(v, rest, now);
    RangFirst(k, v, PassFrom(v, rest, now), Firing(kind, k.live[kind], now));
    FirstRings(DeskOf(k), gone, kind, DueKinds(m, rest, now));
  }

  lemma FirstRings(d: Desk, gone: set<TimerKind>, kind: TimerKind, due: seq<TimerKind>)
    requires kind !in gone
    ensures Ringing(d, gone, [kind] + due)
            == [kind] + Ringing(Rang(d, kind), gone + {kind} + RenewedBy(d, kind), due)
  {
    assert ([kind] + due)[1..] == due;
  }

  /** The timers that ring in a pass, and what it leaves, follow from what was due when it began. */
  lemma PassRings(m: Main, todo: seq<TimerRef>)
    requires Inv(m) && Existing(todo, m.nextId)
    ensures var p := Pass(m, todo);
            var due := DueKinds(m, todo, FromNs(PassTime(m)));
            RangBetween(m, p) == Ringing(DeskOf(m), {}, due) && DeskOf(p) == Outcome(DeskOf(m), {}, due).0
  {
    OutcomeRings(DeskOf(m), {}, DueKinds(m, todo, FromNs(PassTime(m))));
    if todo != [] {
      var t, now := ReadClock(m), FromNs(PassTime(m));
      ReadClockSince(m);
      RestRings(t, t, {}, todo, now);
      DueSame(m, t, todo, now);
    }
    PassDesk(m, todo);
  }

  lemma {:induction false} DueSame(m: Main, t: Main, todo: seq<TimerRef>, now: Instant)
    requires t.live == m.live
    ensures DueKinds(t, todo, now) == DueKinds(m, todo, now)
    decreases |todo|
  {
    if todo != [] {
      DueSame(m, t, todo[1..], now);
    }
  }

  // ----- a late pass -----

  lemma {:induction false} ClearIsDue(m: Main, todo: seq<TimerRef>, now: Instant)
    requires ClearTimer in m.live && Expired(m.live[ClearTimer].expiry, now)
    requires TimerRef(ClearTimer, m.live[ClearTimer].id) in todo
    ensures ClearTimer in DueKinds(m, todo, now)
    decreases |todo|
  {
    if todo[0] != TimerRef(ClearTimer, m.live[ClearTimer].id) {
      ClearIsDue(m, todo[1..], now);
    }
  }

  /** In a pass more than ten seconds after the last key the clear timer of a standing password is due, and what
      is left is decided by the keys, of any number of seats, that repeat in it: a password is left standing if
      and only if the timers that were due, each unless an earlier one renewed it, leave one on the desk. */
  lemma LatePassExactly(m: Main, todo: seq<TimerRef>)
    requires Inv(m) && Enabled(m, Timers(todo)) && PassTime(m) > m.hist.lastKey + CLEAR_NS
    ensures var due := DueKinds(m, todo, FromNs(PassTime(m)));
            && (m.pw != [] ==> ClearTimer in due)
            && (Pass(m, todo).pw != [] <==> Outcome(DeskOf(m), {}, due).0.pw != [])
  {
    var now := FromNs(PassTime(m));
    PassRings(m, todo);
    if m.pw != [] {
      ExpiredIsPast(m.live[ClearTimer].expiry, now);
      ClearIsDue(m, todo, now);
    }
  }

  // ----- the same in closed form, for the key of one seat -----

  predicate NoRepeat(kinds: seq<TimerKind>) {
    forall i | 0 <= i < |kinds| :: !kinds[i].RepeatTimer?
  }

  /** The stroke turns `pw` into a password that stands: it types, or it erases or holds part of what is there. */
  predicate LeavesPassword(s: Stroke, pw: seq<Codepoint>) {
    match s
    case Character(_) => true
    case Erase => |pw| > 1
    case Hold => pw != []
    case _ => false
  }

  lemma {:induction false} OutcomeConcat(d: Desk, gone: set<TimerKind>, a: seq<TimerKind>, b: seq<TimerKind>)
    ensures var (e, more) := Outcome(d, gone, a); Outcome(d, gone, a + b) == Outcome(e, more, b)
    decreases |a|
  {
    if a == [] {
      assert a + b == b;
    } else {
      assert (a + b)[0] == a[0] && (a + b)[1..] == a[1..] + b;
      if a[0] in gone {
        OutcomeConcat(d, gone, a[1..], b);
      } else {
        OutcomeConcat(Rang(d, a[0]), gone + {a[0]} + RenewedBy(d, a[0]), a[1..], b);
      }
    }
  }

  /** Where no key repeats, the password goes if and only if the clear timer rings, and only the three other
      timers go. */
  lemma {:induction false} QuietOutcome(d: Desk, gone: set<TimerKind>, kinds: seq<TimerKind>)
    requires NoRepeat(kinds)
    ensures var (e, more) := Outcome(d, gone, kinds);
            && e == d.(pw := if ClearTimer in kinds && ClearTimer !in gone then [] else d.pw,
                       auth := e.auth, input := e.input)
            && (ClearTimer in more <==> ClearTimer in gone || ClearTimer in kinds)
            && (forall s :: RepeatTimer(s) in more <==> RepeatTimer(s) in gone)
    decreases |kinds|
  {
    if kinds != [] {
      var k, rest := kinds[0], kinds[1..];
      assert ClearTimer in kinds <==> k == ClearTimer || ClearTimer in rest;
      if k in gone {
        QuietOutcome(d, gone, rest);
      } else {
        QuietRing(d, k);
        QuietOutcome(Rang(d, k), gone + {k} + RenewedBy(d, k), rest);
      }
    }
  }

  lemma QuietRing(d: Desk, kind: TimerKind)
    requires !kind.RepeatTimer?
    ensures var e := Rang(d, kind);
            e == d.(pw := if kind == ClearTimer then [] else d.pw, auth := e.auth, input := e.input)
  {}

  lemma StrokeOutcome(d: Desk, sym: KeySym, cp: Codepoint, later: bool)
    requires d.pw != [] ==> later
    ensures var e := Press(d, sym, cp);
            (if later && ClearTimer !in Renewed(d, sym, cp) then [] else e.pw) != []
            <==> LeavesPassword(StrokeOf(d.authd, d.control, sym, cp), d.pw)
  {
    var s := StrokeOf(d.authd, d.control, sym, cp);
    PressStack(d, sym, cp);
    if s.Character? {
      CharacterStands(d, s);
    } else if s.Erase? {
      assert d.pw != [] ==> |StackAfter(d, s)| == |d.pw| - 1;
    }
  }

  lemma PressStack(d: Desk, sym: KeySym, cp: Codepoint)
    ensures Press(d, sym, cp).pw == StackAfter(d, StrokeOf(d.authd, d.control, sym, cp))
  {
    StrokedStack(d, StrokeOf(d.authd, d.control, sym, cp), sym);
  }

  lemma StrokedStack(d: Desk, s: Stroke, sym: KeySym)
    ensures Stroked(d, s, sym).pw == StackAfter(d, s)
  {
    ChosenStack(d, sym);
  }

  lemma ChosenStack(d: Desk, sym: KeySym)
    ensures Chosen(d, sym).pw == d.pw
  {}

  lemma CharacterStands(d: Desk, s: Stroke)
    requires s.Character?
    ensures StackAfter(d, s) != []
  {
    assert EncodeAll([]) == [];
  }

  lemma OneRepeatOutcome(d: Desk, before: seq<TimerKind>, s: nat, after: seq<TimerKind>)
    requires NoRepeat(before) && NoRepeat(after) && s in d.seats
    requires d.pw != [] ==> ClearTimer in before || ClearTimer in after
    ensures Outcome(d, {}, before + [RepeatTimer(s)] + after).0.pw != []
            <==> LeavesPassword(StrokeOf(d.authd, d.control, d.seats[s].sym, d.seats[s].cp),
                                if ClearTimer in before then [] else d.pw)
  {
    var k := RepeatTimer(s);
    var (e, gone) := Outcome(d, {}, before);
    QuietOutcome(d, {}, before);
    assert before + [k] + after == before + ([k] + after);
    OutcomeConcat(d, {}, before, [k] + after);
    assert ([k] + after)[1..] == after;
    QuietOutcome(Rang(e, k), gone + {k} + RenewedBy(e, k), after);
    if ClearTimer in before {
      StrokeOutcome(e, d.seats[s].sym, d.seats[s].cp, false);
    } else {
      StrokeOutcome(e, d.seats[s].sym, d.seats[s].cp, ClearTimer in after);
    }
  }

  /** In a late pass in which the held key of one seat repeats, a password is left standing if and only if that
      key leaves one of what then remains: nothing, if the clear timer rang before it. */
  lemma OneRepeatExactly(m: Main, todo: seq<TimerRef>, before: seq<TimerKind>, s: nat, after: seq<TimerKind>)
    requires Inv(m) && Enabled(m, Timers(todo)) && PassTime(m) > m.hist.lastKey + CLEAR_NS
    requires DueKinds(m, todo, FromNs(PassTime(m))) == before + [RepeatTimer(s)] + after
    requires NoRepeat(before) && NoRepeat(after) && s in m.seats
    ensures Pass(m, todo).pw != []
            <==> LeavesPassword(StrokeOf(m.authd, m.control, m.seats[s].sym, m.seats[s].cp),
                                if ClearTimer in before then [] else m.pw)
  {
    LatePassExactly(m, todo);
    OneRepeatOutcome(DeskOf(m), before, s, after);
  }
}
