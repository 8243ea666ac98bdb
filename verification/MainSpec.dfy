/** The main process as a state machine over key, timer and child events: what password.c, seat.c and comm_in
    of main.c do, on abstract data. The password is a stack of code points, a timer handle together with the
    timer it names is one entry of a map, and removed timers are simply gone. The class in Locker.dfy
    carries out the same steps on the byte buffer, the timer list, the flags and the handles. */
module MainSpec {
  import opened Bytes
  import opened Utf8
  import opened PasswordBuffer
  import opened Frames
  import opened Pipes
  import opened Clock

  datatype AuthState = AuthIdle | Validating | Invalid

  datatype InputState = InputIdle | Clear | Letter | Backspace | Neutral

  datatype KeySym =
    | Return | KpEnter | Delete | BackSpace | Escape | Tab | Up | Down
    | CapsLock | ShiftL | ShiftR | ControlL | ControlR | MetaL | MetaR | AltL | AltR | SuperL | SuperR
    | KeyM | KeyD | KeyJ | KeyC | KeyU
    | Other
  {
    predicate IsEnter() {
      Return? || KpEnter?
    }

    predicate IsModifier() {
      CapsLock? || ShiftL? || ShiftR? || ControlL? || ControlR? || MetaL? || MetaR? || AltL? || AltR?
      || SuperL? || SuperR?
    }
  }

  // ----- timers -----

  datatype TimerKind = InputIdleTimer | AuthIdleTimer | ClearTimer | RepeatTimer(seat: nat)

  /** A timer that its handle names: the identity of the timer object, when it is due, and for the record when
      and with what delay it was set. */
  datatype Live = Live(id: nat, expiry: Timespec, at: nat, ms: int)

  function NewTimer(id: nat, at: nat, ms: int): Live {
    Live(id, AddMs(FromNs(at), ms), at, ms)
  }

  /** One entry of the timer list, flagged or not, as a dispatch pass meets it. */
  datatype TimerRef = TimerRef(kind: TimerKind, id: nat)

  datatype Firing = Firing(kind: TimerKind, timer: Live, now: Instant)

  const INPUT_IDLE_MS := 1500
  const AUTH_IDLE_MS := 3000
  const CLEAR_PASSWORD_MS := 10000

  // ----- authd -----

  /** Identifiers of list entries; an entry without a string "id" has none. */
  type Ids = seq<Option<seq<Byte>>>

  datatype Authd = Authd(
    active: bool, stage: Byte, brokers: Ids, selBroker: int, modes: Ids, selMode: int, button: bool)

  /** What cJSON makes of a payload: a list message is no array, cannot be stored, or has entries; a layout
      has a button or not. */
  datatype ListParse = NoArray | NoMemory | Entries(ids: Ids)

  datatype Json = Json(list: ListParse, button: bool)

  const MAX_ENTRIES := 256

  function Kept(ids: Ids): Ids {
    if |ids| > MAX_ENTRIES then ids[..MAX_ENTRIES] else ids
  }

  // ----- state -----

  datatype Seat = Seat(periodMs: int, delayMs: int, sym: KeySym, cp: Codepoint)

  /** The pipe to the child: frames written in full, the part of one more frame that went out before the
      child closed its end, and how many bytes it will still take (None: it never closes). */
  datatype Link = Link(sent: seq<Frame>, cut: seq<Byte>, room: Option<nat>)

  /** What happened so far; no step depends on it. */
  datatype History = History(
    lastKey: nat, started: nat, delivered: seq<seq<Codepoint>>, denied: nat, fired: seq<Firing>, stopped: bool)

  datatype Main = Main(
    pw: seq<Codepoint>, cap: nat,
    auth: AuthState, input: InputState,
    live: map<TimerKind, Live>, nextId: nat,
    clock: nat, ticks: seq<nat>,
    control: bool, keymap: bool, ignoreEmpty: bool, seats: map<nat, Seat>,
    authd: Authd, failed: nat, running: bool,
    link: Link, hist: History)

  // ----- time -----

  /** clock_gettime: each reading may come later than the one before, by the next entry of `ticks`. */
  function ReadClock(m: Main): Main {
    m.(clock := Reading(m.clock, m.ticks), ticks := TicksLeft(m.ticks))
  }

  function Reading(clock: nat, ticks: seq<nat>): nat {
    if ticks == [] then clock else clock + ticks[0]
  }

  function TicksLeft(ticks: seq<nat>): seq<nat> {
    if ticks == [] then [] else ticks[1..]
  }

  /** loop_add_timer, with the handle overwritten. */
  function AddTimer(m: Main, kind: TimerKind, ms: int): Main {
    m.(live := m.live[kind := NewTimer(m.nextId, m.clock, ms)], nextId := m.nextId + 1)
  }

  /** Removes the timer that the handle names, if any, and adds one due in `ms`. */
  function Schedule(m: Main, kind: TimerKind, ms: int): Main {
    AddTimer(ReadClock(m), kind, ms)
  }

  function Cancel(m: Main, kind: TimerKind): Main {
    m.(live := m.live - {kind})
  }

  // ----- messages to the child -----

  function Sends(link: Link, f: Frame): bool {
    Accepted(link.room, |EncodeFrame(f)|) == |EncodeFrame(f)|
  }

  function Send(link: Link, f: Frame): Link {
    var n := |EncodeFrame(f)|;
    if Sends(link, f) then
      Link(link.sent + [f], link.cut, RoomAfter(link.room, n))
    else
      Link(link.sent, link.cut + EncodeFrame(f)[..Accepted(link.room, n)], RoomAfter(link.room, n))
  }

  function PasswordFrame(cps: seq<Codepoint>): Frame {
    Frame(MSG_PASSWORD, EncodeAll(cps) + [0])
  }

  // ----- keys -----

  /** The password goes out and is cleared, whether or not the child takes it. */
  function HandOver(m: Main): Main {
    var f := PasswordFrame(m.pw);
    Cancel(Cancel(m, ClearTimer), InputIdleTimer).(
      pw := [], input := InputIdle, auth := Validating, link := Send(m.link, f),
      hist := m.hist.(started := m.hist.started + 1,
                      delivered := if Sends(m.link, f) then m.hist.delivered + [m.pw] else m.hist.delivered))
  }

  function Submit(m: Main): Main {
    if (m.ignoreEmpty && m.pw == []) || m.auth == Validating then m
    else if Sends(m.link, PasswordFrame(m.pw)) then HandOver(m)
    else Schedule(HandOver(m).(auth := Invalid), AuthIdleTimer, AUTH_IDLE_MS)
  }

  function ShowInput(m: Main, input: InputState): Main {
    Schedule(m.(input := input), InputIdleTimer, INPUT_IDLE_MS)
  }

  function Wipe(m: Main): Main {
    ShowInput(Cancel(m.(pw := []), ClearTimer), Clear)
  }

  /** A change that leaves the password standing restarts the clear timer. */
  function Edit(m: Main, pw: seq<Codepoint>, input: InputState): Main {
    ShowInput(Schedule(m.(pw := pw), ClearTimer, CLEAR_PASSWORD_MS), input)
  }

  predicate Submits(m: Main, sym: KeySym) {
    sym.IsEnter() || (m.control && (sym.KeyM? || sym.KeyD? || sym.KeyJ?))
  }

  /** A Backspace that would leave nothing counts as a wipe. */
  predicate Wipes(m: Main, sym: KeySym) {
    || sym.Escape?
    || (m.control && (sym.KeyC? || sym.KeyU?))
    || ((sym.Delete? || sym.BackSpace?) && (m.control || Popped(m.pw) == []))
  }

  /** The keys by what they do to the password. */
  datatype KeyClass = Submitting | Wiping | Erasing | Holding | Printing | Dead

  function ClassOf(m: Main, sym: KeySym, cp: Codepoint): KeyClass {
    if Submits(m, sym) then Submitting
    else if Wipes(m, sym) then Wiping
    else if sym.Delete? || sym.BackSpace? then Erasing
    else if sym.IsModifier() then Holding
    else if cp != 0 then Printing
    else Dead
  }

  function Act(m: Main, c: KeyClass, cp: Codepoint): Main {
    match c
    case Submitting => Submit(m)
    case Wiping => Wipe(m)
    case Erasing => Edit(m, Popped(m.pw), Backspace)
    case Holding => Edit(m, m.pw, Neutral)
    case Printing => Edit(m, Pushed(m.pw, cp, m.cap), Letter)
    case Dead => m
  }

  function TypingKey(m: Main, sym: KeySym, cp: Codepoint): Main {
    Act(m, ClassOf(m, sym, cp), cp)
  }

  function Confirm(link: Link, ids: Ids, sel: int, typ: Byte): Link {
    if 0 <= sel < |ids| && ids[sel].Some? then Send(link, Frame(typ, ids[sel].value + [0])) else link
  }

  predicate Choosing(a: Authd) {
    a.active && (a.stage == STAGE_BROKER || a.stage == STAGE_AUTH_MODE)
  }

  function MoveUp(sel: int): int {
    if sel > 0 then sel - 1 else sel
  }

  function MoveDown(sel: int, count: int): int {
    if sel < count - 1 then sel + 1 else sel
  }

  function Moved(a: Authd, sym: KeySym): Authd {
    if a.stage == STAGE_BROKER then
      if sym.Up? then a.(selBroker := MoveUp(a.selBroker))
      else if sym.Down? then a.(selBroker := MoveDown(a.selBroker, |a.brokers|))
      else a
    else
      if sym.Up? then a.(selMode := MoveUp(a.selMode))
      else if sym.Down? then a.(selMode := MoveDown(a.selMode, |a.modes|))
      else a
  }

  function Replied(link: Link, a: Authd, sym: KeySym): Link {
    if sym.Up? || sym.Down? then link
    else if !sym.IsEnter() then Send(link, Frame(MSG_CANCEL, []))
    else if a.stage == STAGE_BROKER then Confirm(link, a.brokers, a.selBroker, MSG_BROKER_SEL)
    else Confirm(link, a.modes, a.selMode, MSG_AUTH_MODE_SEL)
  }

  function ListKey(m: Main, sym: KeySym): Main {
    m.(authd := Moved(m.authd, sym), link := Replied(m.link, m.authd, sym))
  }

  predicate ForList(a: Authd, sym: KeySym) {
    Choosing(a) && (sym.Up? || sym.Down? || sym.IsEnter() || sym.Escape?)
  }

  predicate ForButton(a: Authd, sym: KeySym) {
    a.active && a.stage == STAGE_CHALLENGE && sym.Tab? && a.button
  }

  function KeyAction(m: Main, sym: KeySym, cp: Codepoint): Main {
    if ForList(m.authd, sym) then ListKey(m, sym)
    else if ForButton(m.authd, sym) then m.(link := Send(m.link, Frame(MSG_BUTTON, [])))
    else TypingKey(m, sym, cp)
  }

  /** swaylock_handle_key */
  function HandleKey(m: Main, sym: KeySym, cp: Codepoint): Main {
    var k := KeyAction(m, sym, cp);
    k.(hist := k.hist.(lastKey := k.clock))
  }

  /** keyboard_key: a press is handled first, then the repeat timer of the seat is replaced or removed. */
  function KeyboardKey(m: Main, seat: nat, pressed: bool, sym: KeySym, cp: Codepoint): Main
    requires seat in m.seats
  {
    if !m.keymap then m
    else
      var h := if pressed then HandleKey(m, sym, cp) else m;
      var c := Cancel(h, RepeatTimer(seat));
      var s := m.seats[seat];
      if pressed && s.periodMs > 0 then
        Schedule(c.(seats := m.seats[seat := s.(sym := sym, cp := cp)]), RepeatTimer(seat), s.delayMs)
      else c
  }

  function RepeatInfo(m: Main, seat: nat, rate: int, delay: int): Main
    requires seat in m.seats
  {
    var period := if rate <= 0 then -1 else 1000 / rate;
    m.(seats := m.seats[seat := m.seats[seat].(periodMs := period, delayMs := delay)])
  }

  // ----- timer callbacks and the dispatch pass -----

  /** What a callback does, its own timer already gone. */
  function Callback(m: Main, kind: TimerKind): Main {
    match kind
    case InputIdleTimer => m.(input := InputIdle)
    case AuthIdleTimer => m.(auth := AuthIdle)
    case ClearTimer => ShowInput(m.(pw := []), Clear)
    case RepeatTimer(seat) =>
      if seat !in m.seats then m
      else HandleKey(Schedule(m, kind, m.seats[seat].periodMs), m.seats[seat].sym, m.seats[seat].cp)
  }

  function Fire(m: Main, kind: TimerKind, now: Instant): Main
    requires kind in m.live
  {
    Callback(m.(live := m.live - {kind},
                hist := m.hist.(fired := m.hist.fired + [Firing(kind, m.live[kind], now)])), kind)
  }

  predicate Due(m: Main, ref: TimerRef, now: Instant) {
    ref.kind in m.live && m.live[ref.kind].id == ref.id && Expired(m.live[ref.kind].expiry, now)
  }

  function Visit(m: Main, ref: TimerRef, now: Instant): Main {
    if Due(m, ref, now) then Fire(m, ref.kind, now) else m
  }

  function PassFrom(m: Main, todo: seq<TimerRef>, now: Instant): Main
    decreases |todo|
  {
    if todo == [] then m else PassFrom(Visit(m, todo[0], now), todo[1..], now)
  }

  /** One dispatch pass over the timers that are listed when it starts. */
  function Pass(m: Main, todo: seq<TimerRef>): Main {
    if todo == [] then m else PassFrom(ReadClock(m), todo, FromNs(ReadClock(m).clock))
  }

  /** A pass meets every live timer. */
  ghost predicate Covers(todo: seq<TimerRef>, m: Main) {
    forall k | k in m.live :: TimerRef(k, m.live[k].id) in todo
  }

  /** It meets only timers that were there before it began. */
  ghost predicate Existing(todo: seq<TimerRef>, nextId: nat) {
    forall i | 0 <= i < |todo| :: todo[i].id < nextId
  }

  // ----- messages from the child -----

  predicate Granted(f: Frame) {
    f.typ == MSG_AUTH_RESULT && |f.payload| >= 1 && f.payload[0] == 1
  }

  predicate Denied(f: Frame) {
    f.typ == MSG_AUTH_RESULT && !Granted(f)
  }

  /** One more failed attempt; `denied` counts those that an explicit result reported. */
  function Charge(m: Main, denied: nat): Main {
    m.(auth := Invalid, failed := m.failed + 1, hist := m.hist.(denied := denied))
  }

  function ShowInvalid(m: Main, denied: nat): Main {
    Schedule(Charge(m, denied), AuthIdleTimer, AUTH_IDLE_MS)
  }

  function Listed(json: Json): Ids {
    if json.list.Entries? then Kept(json.list.ids) else []
  }

  /** A list that cannot be stored leaves the stage as it was. */
  function Brokers(a: Authd, json: Json): Authd {
    var b := a.(brokers := Listed(json), selBroker := 0);
    if json.list.NoMemory? then b else b.(active := true, stage := STAGE_BROKER)
  }

  function AuthModes(a: Authd, json: Json): Authd {
    var b := a.(modes := Listed(json), selMode := 0);
    if json.list.NoMemory? then b else b.(active := true, stage := STAGE_AUTH_MODE)
  }

  function Layout(m: Main, button: bool): Main {
    m.(auth := AuthIdle, authd := m.authd.(button := button, stage := STAGE_CHALLENGE))
  }

  /** A stage change while a password is being validated means that it was wrong. */
  function Stage(m: Main, stage: Byte): Main {
    var s := if m.auth == Validating then ShowInvalid(m, m.hist.denied) else m;
    s.(authd := s.authd.(stage := stage))
  }

  /** comm_in on a frame that was read. */
  function HandleMessage(m: Main, f: Frame, json: Json): Main {
    if Granted(f) then m.(running := false)
    else if Denied(f) then ShowInvalid(m, m.hist.denied + 1)
    else if f.typ == MSG_BROKERS then m.(authd := Brokers(m.authd, json))
    else if f.typ == MSG_AUTH_MODES then m.(authd := AuthModes(m.authd, json))
    else if f.typ == MSG_UI_LAYOUT then Layout(m, json.button)
    else if f.typ == MSG_STAGE && |f.payload| >= 1 then Stage(m, f.payload[0])
    else if f.typ == MSG_AUTH_EVENT then m.(auth := AuthIdle)
    else m
  }

  // ----- runs -----

  datatype Event =
    | Elapse(d: nat, ticks: seq<nat>)
    | Key(seat: nat, pressed: bool, sym: KeySym, cp: Codepoint)
    | Modifiers(control: bool)
    | Keymap(loaded: bool)
    | NewSeat(seat: nat)
    | RepeatRate(seat: nat, rate: int, delay: int)
    | FromChild(frame: Frame, json: Json)
    | Timers(todo: seq<TimerRef>)
    | Stop  // SIGUSR1, or the display connection failed

  /** The identifiers in a list are C strings cut from a payload of at most 2^20 bytes. */
  ghost predicate SmallIds(ids: Ids) {
    forall i | 0 <= i < |ids| && ids[i].Some? :: |ids[i].value| < MAX_PAYLOAD && NoNul(ids[i].value)
  }

  ghost predicate Enabled(m: Main, e: Event) {
    match e
    case Key(seat, _, _, _) => seat in m.seats
    case RepeatRate(seat, _, _) => seat in m.seats
    case NewSeat(seat) => seat !in m.seats
    case FromChild(_, json) => json.list.Entries? ==> SmallIds(json.list.ids)
    case Timers(todo) => Covers(todo, m) && Existing(todo, m.nextId)
    case _ => true
  }

  ghost function Step(m: Main, e: Event): Main
    requires Enabled(m, e)
  {
    match e
    case Elapse(d, ticks) => m.(clock := m.clock + d, ticks := ticks)
    case Key(seat, pressed, sym, cp) => KeyboardKey(m, seat, pressed, sym, cp)
    case Modifiers(control) => if m.keymap then m.(control := control) else m
    case Keymap(loaded) => m.(keymap := loaded)
    case NewSeat(seat) => m.(seats := m.seats[seat := Seat(0, 0, Other, 0)])
    case RepeatRate(seat, rate, delay) => RepeatInfo(m, seat, rate, delay)
    case FromChild(frame, json) => HandleMessage(m, frame, json)
    case Timers(todo) => Pass(m, todo)
    case Stop => m.(running := false, hist := m.hist.(stopped := true))
  }

  /** The state main() enters its loop with. */
  predicate Initial(m: Main) {
    && m.pw == [] && m.cap == 1024 && m.auth == AuthIdle && m.input == InputIdle
    && m.live == map[] && m.nextId == 0
    && m.authd == Authd(false, STAGE_NONE, [], -1, [], -1, false)
    && m.failed == 0 && m.running
    && m.link.sent == [] && m.link.cut == []
    && m.hist == History(m.clock, 0, [], 0, [], false)
  }
}
