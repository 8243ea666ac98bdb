/** What the user types is what the child is sent. `Desk` is the main process without its timers and clock: the
    password as a stack of characters, what was handed to the child, the indicators, the counters, and what decides
    how a key is read. Given which timers rang, it is a function of the events alone, written out here in plain
    terms and with the bytes of the protocol, and every run of the main process agrees with it. */
module Typing {
  import opened Bytes
  import opened Utf8
  import opened PasswordBuffer
  import opened Frames
  import opened Clock
  import opened MainSpec
  import opened MainRuns
  import opened MainPasses

  datatype Desk = Desk(
    pw: seq<Codepoint>, tried: nat, delivered: seq<seq<Codepoint>>, auth: AuthState, input: InputState,
    failed: nat, running: bool, authd: Authd, link: Link,
    control: bool, keymap: bool, ignoreEmpty: bool, seats: map<nat, Seat>)

  function DeskOf(m: Main): Desk {
    Desk(m.pw, m.hist.started, m.hist.delivered, m.auth, m.input, m.failed, m.running, m.authd, m.link,
         m.control, m.keymap, m.ignoreEmpty, m.seats)
  }

  // ----- keys -----

  /** What a key means on a given screen. */
  datatype Stroke = ToList | Button | Enter | Empty | Erase | Hold | Character(cp: Codepoint) | Nothing

  function StrokeOf(a: Authd, control: bool, sym: KeySym, cp: Codepoint): Stroke {
    if a.active && (a.stage == 1 || a.stage == 2)
       && (sym.Up? || sym.Down? || sym.Return? || sym.KpEnter? || sym.Escape?) then ToList
    else if a.active && a.stage == 3 && a.button && sym.Tab? then Button
    else
      match sym
      case Return | KpEnter => Enter
      case KeyM | KeyD | KeyJ => if control then Enter else Printed(cp)
      case Escape => Empty
      case KeyC | KeyU => if control then Empty else Printed(cp)
      case Delete | BackSpace => if control then Empty else Erase
      case CapsLock | ShiftL | ShiftR | ControlL | ControlR | MetaL | MetaR | AltL | AltR | SuperL | SuperR => Hold
      case Tab | Up | Down | Other => Printed(cp)
  }

  function Printed(cp: Codepoint): Stroke {
    if cp == 0 then Nothing else Character(cp)
  }

  /** The stack after a stroke: a character that fits goes on top, erasing takes the top one off, and the stack
      is emptied on request or when it is handed over. */
  function StackAfter(d: Desk, s: Stroke): seq<Codepoint> {
    match s
    case Enter => if Ignored(d) then d.pw else []
    case Empty => []
    case Erase => if d.pw == [] then [] else d.pw[..|d.pw| - 1]
    case Character(cp) => if |EncodeAll(d.pw)| + ChSize(cp) + 1 < 1024 then d.pw + [cp] else d.pw
    case _ => d.pw
  }

  /** Enter has no effect while a password is being validated, or on an empty one if so configured. */
  predicate Ignored(d: Desk) {
    d.auth == Validating || (d.ignoreEmpty && d.pw == [])
  }

  function Press(d: Desk, sym: KeySym, cp: Codepoint): Desk {
    Stroked(d, StrokeOf(d.authd, d.control, sym, cp), sym)
  }

  function Stroked(d: Desk, s: Stroke, sym: KeySym): Desk {
    match s
    case ToList => Chosen(d, sym)
    case Button => d.(link := Send(d.link, Frame(0x04, [])))
    case Enter => if Ignored(d) then d else Handed(d)
    case Empty => d.(pw := [], input := Clear)
    case Erase => d.(pw := StackAfter(d, s), input := if |d.pw| > 1 then Backspace else Clear)
    case Hold => d.(input := Neutral)
    case Character(_) => d.(pw := StackAfter(d, s), input := Letter)
    case Nothing => d
  }

  /** The stack leaves the desk as one frame; if the child is gone it is lost. */
  function Handed(d: Desk): Desk {
    var f := Frame(0x01, EncodeAll(d.pw) + [0]);
    var taken := Sends(d.link, f);
    d.(pw := [], input := InputIdle, link := Send(d.link, f), tried := d.tried + 1,
       delivered := if taken then d.delivered + [d.pw] else d.delivered,
       auth := if taken then Validating else Invalid)
  }

  /** A key in a list moves the selection by one, within the list, or answers the child: with the identifier at the
      selection, or with a cancellation. The password is left alone. */
  function Chosen(d: Desk, sym: KeySym): Desk {
    var a := d.authd;
    if a.stage == 1 then
      if sym.Up? then d.(authd := a.(selBroker := Above(a.selBroker)))
      else if sym.Down? then d.(authd := a.(selBroker := Below(a.selBroker, |a.brokers|)))
      else if sym.Escape? then d.(link := Send(d.link, Frame(0x05, [])))
      else d.(link := Answer(d.link, 0x02, a.brokers, a.selBroker))
    else
      if sym.Up? then d.(authd := a.(selMode := Above(a.selMode)))
      else if sym.Down? then d.(authd := a.(selMode := Below(a.selMode, |a.modes|)))
      else if sym.Escape? then d.(link := Send(d.link, Frame(0x05, [])))
      else d.(link := Answer(d.link, 0x03, a.modes, a.selMode))
  }

  function Above(sel: int): int {
    if sel <= 0 then sel else sel - 1
  }

  function Below(sel: int, count: nat): int {
    if sel + 1 >= count then sel else sel + 1
  }

  function Answer(link: Link, typ: Byte, ids: Ids, sel: int): Link {
    if sel < 0 || sel >= |ids| then link
    else
      match ids[sel]
      case None => link
      case Some(id) => Send(link, Frame(typ, id + [0]))
  }

  // ----- the other events -----

  function Rang(d: Desk, kind: TimerKind): Desk {
    match kind
    case InputIdleTimer => d.(input := InputIdle)
    case AuthIdleTimer => d.(auth := AuthIdle)
    case ClearTimer => d.(pw := [], input := Clear)
    case RepeatTimer(s) => if s in d.seats then Press(d, d.seats[s].sym, d.seats[s].cp) else d
  }

  function RangAll(d: Desk, kinds: seq<TimerKind>): Desk
    decreases |kinds|
  {
    if kinds == [] then d else RangAll(Rang(d, kinds[0]), kinds[1..])
  }

  /** The entries of a list message that are kept. */
  function Stored(l: ListParse): Ids {
    match l
    case Entries(ids) => if |ids| <= 256 then ids else ids[..256]
    case _ => []
  }

  /** A message never touches the stack. */
  function Told(d: Desk, f: Frame, json: Json): Desk {
    var p := f.payload;
    if f.typ == 0x81 then
      if |p| > 0 && p[0] == 1 then d.(running := false) else d.(auth := Invalid, failed := d.failed + 1)
    else if f.typ == 0x82 then
      var a := d.authd.(brokers := Stored(json.list), selBroker := 0);
      d.(authd := if json.list.NoMemory? then a else a.(active := true, stage := 1))
    else if f.typ == 0x83 then
      var a := d.authd.(modes := Stored(json.list), selMode := 0);
      d.(authd := if json.list.NoMemory? then a else a.(active := true, stage := 2))
    else if f.typ == 0x84 then d.(auth := AuthIdle, authd := d.authd.(button := json.button, stage := 3))
    else if f.typ == 0x85 && |p| > 0 then
      var s := d.(authd := d.authd.(stage := p[0]));
      if d.auth == Validating then s.(auth := Invalid, failed := d.failed + 1) else s
    else if f.typ == 0x86 then d.(auth := AuthIdle)
    else d
  }

  function DeskStep(d: Desk, e: Event, rang: seq<TimerKind>): Desk {
    match e
    case Elapse(_, _) => d
    case Key(seat, pressed, sym, cp) =>
      if !d.keymap || !pressed || seat !in d.seats then d
      else if d.seats[seat].periodMs > 0 then
        Press(d, sym, cp).(seats := d.seats[seat := d.seats[seat].(sym := sym, cp := cp)])
      else Press(d, sym, cp)
    case Modifiers(control) => if d.keymap then d.(control := control) else d
    case Keymap(loaded) => d.(keymap := loaded)
    case NewSeat(seat) => d.(seats := d.seats[seat := Seat(0, 0, Other, 0)])
    case RepeatRate(seat, rate, delay) =>
      if seat !in d.seats then d
      else
        var period := if rate <= 0 then -1 else 1000 / rate;
        d.(seats := d.seats[seat := d.seats[seat].(periodMs := period, delayMs := delay)])
    case FromChild(f, json) => Told(d, f, json)
    case Timers(_) => RangAll(d, rang)
    case Stop => d.(running := false)
  }

  /** The desk after a run, given what rang in each of its events. */
  function DeskAfter(d: Desk, es: seq<Event>, rang: seq<seq<TimerKind>>): Desk
    requires |rang| == |es|
    decreases |es|
  {
    if es == [] then d else DeskAfter(DeskStep(d, es[0], rang[0]), es[1..], rang[1..])
  }

  /** The timers that rang between two states of a run. */
  function Kinds(fired: seq<Firing>): (ks: seq<TimerKind>)
    ensures |ks| == |fired|
    decreases |fired|
  {
    if fired == [] then [] else [fired[0].kind] + Kinds(fired[1..])
  }

  ghost function RangBetween(m: Main, k: Main): seq<TimerKind> {
    if m.hist.fired <= k.hist.fired then Kinds(k.hist.fired[|m.hist.fired|..]) else []
  }

  ghost function RangIn(m: Main, es: seq<Event>): (rang: seq<seq<TimerKind>>)
    requires IsRun(m, es)
    ensures |rang| == |es|
    decreases |es|
  {
    if es == [] then [] else [RangBetween(m, Step(m, es[0]))] + RangIn(Step(m, es[0]), es[1..])
  }

  // ----- the main process agrees, key by key -----

  lemma ScheduleDesk(m: Main, kind: TimerKind, ms: int)
    ensures DeskOf(Schedule(m, kind, ms)) == DeskOf(m) && Schedule(m, kind, ms).cap == m.cap
  {}

  lemma EditDesk(m: Main, pw: seq<Codepoint>, input: InputState)
    ensures DeskOf(Edit(m, pw, input)) == DeskOf(m).(pw := pw, input := input)
  {
    var s := Schedule(m.(pw := pw), ClearTimer, CLEAR_PASSWORD_MS);
    ScheduleDesk(m.(pw := pw), ClearTimer, CLEAR_PASSWORD_MS);
    ScheduleDesk(s.(input := input), InputIdleTimer, INPUT_IDLE_MS);
  }

  lemma WipeDesk(m: Main)
    ensures DeskOf(Wipe(m)) == DeskOf(m).(pw := [], input := Clear)
  {
    ScheduleDesk(Cancel(m.(pw := []), ClearTimer).(input := Clear), InputIdleTimer, INPUT_IDLE_MS);
  }

  lemma SubmitDesk(m: Main)
    ensures DeskOf(Submit(m)) == if Ignored(DeskOf(m)) then DeskOf(m) else Handed(DeskOf(m))
  {
    ScheduleDesk(HandOver(m).(auth := Invalid), AuthIdleTimer, AUTH_IDLE_MS);
  }

  lemma ListKeyDesk(m: Main, sym: KeySym)
    requires sym.Up? || sym.Down? || sym.IsEnter() || sym.Escape?
    ensures DeskOf(ListKey(m, sym)) == Chosen(DeskOf(m), sym)
  {}

  /** The two readings of a key agree. */
  lemma StrokeMeans(m: Main, sym: KeySym, cp: Codepoint)
    ensures var s := StrokeOf(m.authd, m.control, sym, cp);
            && (s.ToList? <==> ForList(m.authd, sym))
            && (s.Button? <==> ForButton(m.authd, sym))
            && (!s.ToList? && !s.Button? ==>
                  ClassOf(m, sym, cp) ==
                  match s
                  case Enter => Submitting
                  case Empty => Wiping
                  case Erase => if |m.pw| > 1 then Erasing else Wiping
                  case Hold => Holding
                  case Character(_) => Printing
                  case _ => Dead)
            && (s.Character? ==> s.cp == cp)
  {}

  lemma TypingKeyDesk(m: Main, sym: KeySym, cp: Codepoint)
    requires m.cap == 1024
    requires var s := StrokeOf(m.authd, m.control, sym, cp); !s.ToList? && !s.Button?
    ensures DeskOf(Act(m, ClassOf(m, sym, cp), cp)) == Press(DeskOf(m), sym, cp)
  {
    StrokeMeans(m, sym, cp);
    ActDesk(m, ClassOf(m, sym, cp), cp);
    PressMeans(DeskOf(m), sym, cp);
  }

  lemma ActDesk(m: Main, c: KeyClass, cp: Codepoint)
    ensures var d := DeskOf(m);
            DeskOf(Act(m, c, cp)) ==
            match c
            case Submitting => if Ignored(d) then d else Handed(d)
            case Wiping => d.(pw := [], input := Clear)
            case Erasing => d.(pw := Popped(d.pw), input := Backspace)
            case Holding => d.(input := Neutral)
            case Printing => d.(pw := Pushed(d.pw, cp, m.cap), input := Letter)
            case Dead => d
  {
    match c {
      case Submitting => SubmitDesk(m);
      case Wiping => WipeDesk(m);
      case Erasing => EditDesk(m, Popped(m.pw), Backspace);
      case Holding => EditDesk(m, m.pw, Neutral);
      case Printing => EditDesk(m, Pushed(m.pw, cp, m.cap), Letter);
      case Dead =>
    }
  }

  lemma PressMeans(d: Desk, sym: KeySym, cp: Codepoint)
    ensures var s := StrokeOf(d.authd, d.control, sym, cp);
            !s.ToList? && !s.Button? ==>
              Press(d, sym, cp) ==
              match s
              case Enter => if Ignored(d) then d else Handed(d)
              case Empty => d.(pw := [], input := Clear)
              case Erase => d.(pw := Popped(d.pw), input := if |d.pw| > 1 then Backspace else Clear)
              case Hold => d.(input := Neutral)
              case Character(c) => d.(pw := Pushed(d.pw, c, 1024), input := Letter)
              case _ => d
  {}

  lemma HandleKeyDesk(m: Main, sym: KeySym, cp: Codepoint)
    requires m.cap == 1024
    ensures DeskOf(HandleKey(m, sym, cp)) == Press(DeskOf(m), sym, cp)
  {
    StrokeMeans(m, sym, cp);
    KeyCases(m, sym, cp);
    if ForList(m.authd, sym) {
      ListKeyDesk(m, sym);
    } else if !ForButton(m.authd, sym) {
      TypingKeyDesk(m, sym, cp);
    }
  }

  lemma KeyboardKeyDesk(m: Main, seat: nat, pressed: bool, sym: KeySym, cp: Codepoint)
    requires m.cap == 1024 && seat in m.seats
    ensures DeskOf(KeyboardKey(m, seat, pressed, sym, cp)) == DeskStep(DeskOf(m), Key(seat, pressed, sym, cp), [])
  {
    if m.keymap {
      HandleKeyDesk(m, sym, cp);
      if pressed && m.seats[seat].periodMs > 0 {
        PressRepeats(m, seat, sym, cp);
        var c := Cancel(HandleKey(m, sym, cp), RepeatTimer(seat));
        var seats := m.seats[seat := m.seats[seat].(sym := sym, cp := cp)];
        ScheduleDesk(c.(seats := seats), RepeatTimer(seat), m.seats[seat].delayMs);
      } else {
        ReleaseCancels(m, seat, pressed, sym, cp);
      }
    }
  }

  lemma MessageDesk(m: Main, f: Frame, json: Json)
    ensures DeskOf(HandleMessage(m, f, json)) == Told(DeskOf(m), f, json)
  {
    MessageCases(m, f, json);
    if f.typ == MSG_AUTH_RESULT {
      InvalidDesk(m, m.hist.denied + 1);
    } else if f.typ == MSG_STAGE && |f.payload| >= 1 {
      StageDesk(m, f.payload[0]);
    } else if f.typ == MSG_BROKERS || f.typ == MSG_AUTH_MODES {
      ListsDesk(m.authd, json);
    }
  }

  lemma StageDesk(m: Main, stage: Byte)
    ensures var s := DeskOf(m).(authd := m.authd.(stage := stage));
            DeskOf(Stage(m, stage)) == if m.auth == Validating then s.(auth := Invalid, failed := m.failed + 1) else s
  {
    InvalidDesk(m, m.hist.denied);
  }

  lemma ListsDesk(a: Authd, json: Json)
    ensures var b := a.(brokers := Stored(json.list), selBroker := 0);
            Brokers(a, json) == if json.list.NoMemory? then b else b.(active := true, stage := 1)
    ensures var b := a.(modes := Stored(json.list), selMode := 0);
            AuthModes(a, json) == if json.list.NoMemory? then b else b.(active := true, stage := 2)
  {}

  lemma InvalidDesk(m: Main, denied: nat)
    ensures DeskOf(ShowInvalid(m, denied)) == DeskOf(m).(auth := Invalid, failed := m.failed + 1)
  {
    ScheduleDesk(Charge(m, denied), AuthIdleTimer, AUTH_IDLE_MS);
  }

  // ----- timers -----

  lemma FireDesk(m: Main, kind: TimerKind, now: Instant)
    requires m.cap == 1024 && kind in m.live
    ensures DeskOf(Fire(m, kind, now)) == Rang(DeskOf(m), kind)
  {
    var u := Unlinked(m, kind, now);
    match kind {
      case InputIdleTimer =>
      case AuthIdleTimer =>
      case ClearTimer => ScheduleDesk(u.(pw := [], input := Clear), InputIdleTimer, INPUT_IDLE_MS);
      case RepeatTimer(s) =>
        if s in m.seats {
          ScheduleDesk(u, kind, m.seats[s].periodMs);
          HandleKeyDesk(Schedule(u, kind, m.seats[s].periodMs), m.seats[s].sym, m.seats[s].cp);
        }
    }
  }

  lemma RangFirst(m: Main, v: Main, p: Main, f: Firing)
    requires v.hist.fired == m.hist.fired + [f] && v.hist.fired <= p.hist.fired
    ensures RangBetween(m, p) == [f.kind] + RangBetween(v, p)
  {
    assert p.hist.fired[|m.hist.fired|..][1..] == p.hist.fired[|v.hist.fired|..];
  }

  lemma {:induction false} PassFromDesk(m: Main, todo: seq<TimerRef>, now: Instant)
    requires Inv(m)
    ensures var p := PassFrom(m, todo, now); DeskOf(p) == RangAll(DeskOf(m), RangBetween(m, p))
    decreases |todo|
  {
    if todo != [] {
      var v := Visit(m, todo[0], now);
      var p := PassFrom(m, todo, now);
      VisitSince(m, todo[0], now);
      PassFromDesk(v, todo[1..], now);
      if Due(m, todo[0], now) {
        var kind := todo[0].kind;
        FireDesk(m, kind, now);
        FireSince(m, kind, now);
        PassFromExact(v, todo[1..], now);
        RangFirst(m, v, p, Firing(kind, m.live[kind], now));
        assert ([kind] + RangBetween(v, p))[1..] == RangBetween(v, p);
      }
    }
  }

  lemma PassDesk(m: Main, todo: seq<TimerRef>)
    requires Inv(m)
    ensures var p := Pass(m, todo); DeskOf(p) == RangAll(DeskOf(m), RangBetween(m, p))
  {
    if todo != [] {
      ReadClockSince(m);
      PassFromDesk(ReadClock(m), todo, FromNs(PassTime(m)));
    }
  }

  // ----- runs -----

  lemma StepDesk(m: Main, e: Event)
    requires Inv(m) && Enabled(m, e)
    ensures DeskOf(Step(m, e)) == DeskStep(DeskOf(m), e, RangBetween(m, Step(m, e)))
  {
    match e {
      case Key(seat, pressed, sym, cp) => KeyboardKeyDesk(m, seat, pressed, sym, cp);
      case FromChild(f, json) => MessageDesk(m, f, json);
      case Timers(todo) => PassDesk(m, todo);
      case _ =>
    }
  }

  /** In every run, the main process is that of the desk: the password is the characters typed since the stack
      was last emptied and not erased, the deliveries are those stacks, and indicators, counters, lists and pipe
      are as written out above, whatever keys, repeats, messages and timers there were. */
  lemma {:induction false} RunTyped(m: Main, es: seq<Event>)
    requires Inv(m) && IsRun(m, es)
    ensures DeskOf(After(m, es)) == DeskAfter(DeskOf(m), es, RangIn(m, es))
    decreases |es|
  {
    if es != [] {
      var n := Step(m, es[0]);
      StepKeeps(m, es[0]);
      StepDesk(m, es[0]);
      RunTyped(n, es[1..]);
      assert RangIn(m, es)[1..] == RangIn(n, es[1..]);
    }
  }

  /** An Enter that counts, after any run, hands over exactly that stack: as one frame with its encoding and a
      NUL, if the child takes it. */
  lemma TypedIsSent(m: Main, es: seq<Event>, seat: nat, sym: KeySym, cp: Codepoint)
    requires Inv(m) && IsRun(m, es) && seat in After(m, es).seats && After(m, es).keymap
    requires var d := DeskAfter(DeskOf(m), es, RangIn(m, es));
             StrokeOf(d.authd, d.control, sym, cp).Enter? && !Ignored(d)
    ensures var d := DeskAfter(DeskOf(m), es, RangIn(m, es));
            var k := Step(After(m, es), Key(seat, true, sym, cp));
            && k.pw == []
            && (if Sends(d.link, Frame(0x01, EncodeAll(d.pw) + [0])) then
                  && k.link.sent == After(m, es).link.sent + [Frame(0x01, EncodeAll(d.pw) + [0])]
                  && k.hist.delivered == After(m, es).hist.delivered + [d.pw] && k.auth == Validating
                else
                  && k.link.sent == After(m, es).link.sent
                  && k.hist.delivered == After(m, es).hist.delivered && k.auth == Invalid)
  {
    RunTyped(m, es);
    RunKeeps(m, es);
    EnterSends(After(m, es), seat, sym, cp);
  }

  lemma EnterSends(m: Main, seat: nat, sym: KeySym, cp: Codepoint)
    requires Inv(m) && seat in m.seats && m.keymap
    requires StrokeOf(m.authd, m.control, sym, cp).Enter? && !Ignored(DeskOf(m))
    ensures var k := DeskOf(Step(m, Key(seat, true, sym, cp)));
            k == Handed(DeskOf(m)).(seats := k.seats)
  {
    KeyboardKeyDesk(m, seat, true, sym, cp);
    DeskEnters(DeskOf(m), seat, sym, cp);
  }

  lemma DeskEnters(d: Desk, seat: nat, sym: KeySym, cp: Codepoint)
    requires seat in d.seats && d.keymap && StrokeOf(d.authd, d.control, sym, cp).Enter? && !Ignored(d)
    ensures var k := DeskStep(d, Key(seat, true, sym, cp), []); k == Handed(d).(seats := k.seats)
  {
    assert Press(d, sym, cp) == Handed(d);
  }
}
