/** The main process as the C code keeps it: a byte buffer for the password, an event loop with a list of
    timer objects that are removed by flag, and handles that point into it. Every method is proved to do on
    this state what MainSpec does on the abstract one, and to keep every handle alive. */
module Locker {
  import opened Bytes
  import opened Utf8
  import opened PasswordBuffer
  import opened Frames
  import opened Pipes
  import opened Clock
  import opened MainSpec
  import opened MainRuns
  import opened MainPasses
  import Typing

  /** A timer object; its address is its key in the memory map. When and with what delay it was set is only for
      the record. */
  datatype TimerObject = TimerObject(kind: TimerKind, expiry: Timespec, removed: bool, ghost at: nat, ghost ms: int)

  type Memory = map<nat, TimerObject>
  type Handles = map<TimerKind, nat>

  /** The list links exactly the allocated timers, newest first; all are older than `bound`. */
  ghost predicate ListOk(timers: seq<nat>, mem: Memory, bound: nat) {
    if timers == [] then mem == map[]
    else timers[0] < bound && timers[0] in mem && ListOk(timers[1..], mem - {timers[0]}, timers[0])
  }

  /** Every handle names a timer that is allocated, not flagged, and has the handle's callback and data; and
      it is the only such timer. While a callback runs, its own timer is the one exception. */
  ghost predicate HandlesOk(handle: Handles, mem: Memory, current: Option<nat>) {
    && (forall k | k in handle :: handle[k] in mem && !mem[handle[k]].removed && mem[handle[k]].kind == k)
    && (forall id | id in mem && !mem[id].removed ::
          Some(id) == current || (mem[id].kind in handle && handle[mem[id].kind] == id))
    && (current.Some? ==> current.value in mem && !mem[current.value].removed)
  }

  /** The entries that a running pass has still to meet are the end of the list, in order. */
  ghost predicate TodoOk(todo: seq<TimerRef>, timers: seq<nat>, mem: Memory) {
    && |todo| <= |timers|
    && (forall j | 0 <= j < |todo| ::
          && timers[|timers| - |todo| + j] == todo[j].id
          && todo[j].id in mem && mem[todo[j].id].kind == todo[j].kind)
  }

  /** The timer that is being fired stands just before them. */
  ghost predicate CurrentPlaced(current: Option<nat>, todo: seq<TimerRef>, timers: seq<nat>) {
    current.Some? ==> |todo| < |timers| && timers[|timers| - |todo| - 1] == current.value
  }

  ghost predicate NoneCurrent(handle: Handles, current: Option<nat>) {
    forall k | k in handle :: Some(handle[k]) != current
  }

  /** What the handles amount to. */
  ghost function LiveOf(handle: Handles, mem: Memory, current: Option<nat>): map<TimerKind, Live> {
    map k | k in handle && handle[k] in mem && Some(handle[k]) != current :: LiveAt(handle[k], mem[handle[k]])
  }

  ghost function LiveAt(id: nat, t: TimerObject): Live {
    Live(id, t.expiry, t.at, t.ms)
  }

  ghost predicate LoopFine(timers: seq<nat>, mem: Memory, nextId: nat, handle: Handles, current: Option<nat>,
                           todo: seq<TimerRef>, fired: nat, reaped: nat) {
    && ListOk(timers, mem, nextId)
    && HandlesOk(handle, mem, current)
    && TodoOk(todo, timers, mem)
    && CurrentPlaced(current, todo, timers)
    && Conserved(nextId, current, fired, reaped, |timers|)
  }

  /** Timers are conserved: all that were ever added have fired, were reaped after a removal, or are still
      listed. One whose callback runs counts as fired and is still listed. */
  ghost predicate Conserved(added: nat, current: Option<nat>, fired: nat, reaped: nat, listed: nat) {
    added + (if current.Some? then 1 else 0) == fired + reaped + listed
  }

  ghost predicate PipeFine(sched: seq<Answer>, written: seq<Byte>, room: Option<nat>, link: Link) {
    && Reliable(sched)
    && written == Written(link)
    && room == link.room
    && (link.cut == [] || link.room == Some(0))
  }

  // ----- list and handle surgery -----

  lemma {:induction false} ListedIffAllocated(timers: seq<nat>, mem: Memory, bound: nat, id: nat)
    requires ListOk(timers, mem, bound)
    ensures id in timers <==> id in mem
    ensures id in mem ==> id < bound
  {
    if timers != [] {
      ListedIffAllocated(timers[1..], mem - {timers[0]}, timers[0], id);
      assert id in timers <==> id == timers[0] || id in timers[1..];
    }
  }

  lemma AddKeepsList(timers: seq<nat>, mem: Memory, nextId: nat, t: TimerObject)
    requires ListOk(timers, mem, nextId)
    ensures ListOk([nextId] + timers, mem[nextId := t], nextId + 1) && nextId !in mem
  {
    ListedIffAllocated(timers, mem, nextId, nextId);
    assert mem[nextId := t] - {nextId} == mem;
    assert ([nextId] + timers)[1..] == timers;
  }

  lemma {:induction false} FlagKeepsList(timers: seq<nat>, mem: Memory, bound: nat, id: nat)
    requires ListOk(timers, mem, bound) && id in mem
    ensures ListOk(timers, mem[id := mem[id].(removed := true)], bound)
  {
    var flagged := mem[id := mem[id].(removed := true)];
    if timers[0] == id {
      assert flagged - {id} == mem - {id};
    } else {
      FlagKeepsList(timers[1..], mem - {timers[0]}, timers[0], id);
      assert flagged - {timers[0]} == (mem - {timers[0]})[id := mem[id].(removed := true)];
    }
  }

  lemma {:induction false} LooserBound(timers: seq<nat>, mem: Memory, bound: nat, more: nat)
    requires ListOk(timers, mem, bound) && bound <= more
    ensures ListOk(timers, mem, more)
  {}

  lemma {:induction false} UnlinkKeepsList(timers: seq<nat>, mem: Memory, bound: nat, i: nat)
    requires ListOk(timers, mem, bound) && i < |timers|
    ensures ListOk(timers[..i] + timers[i + 1..], mem - {timers[i]}, bound)
  {
    var rest := timers[..i] + timers[i + 1..];
    if i == 0 {
      assert rest == timers[1..];
      LooserBound(rest, mem - {timers[0]}, timers[0], bound);
    } else {
      UnlinkKeepsList(timers[1..], mem - {timers[0]}, timers[0], i - 1);
      NewestDiffers(timers, mem, bound, i);
      assert rest[1..] == timers[1..][..i - 1] + timers[1..][i..];
      assert mem - {timers[0]} - {timers[i]} == mem - {timers[i]} - {timers[0]};
    }
  }

  lemma NewestDiffers(timers: seq<nat>, mem: Memory, bound: nat, i: nat)
    requires ListOk(timers, mem, bound) && 0 < i < |timers|
    ensures timers[i] != timers[0] && timers[i] in mem
  {
    assert timers[i] == timers[1..][i - 1];
    ListedIffAllocated(timers[1..], mem - {timers[0]}, timers[0], timers[i]);
  }

  lemma AddKeepsTodo(todo: seq<TimerRef>, timers: seq<nat>, mem: Memory, id: nat, t: TimerObject)
    requires TodoOk(todo, timers, mem) && id !in mem
    ensures TodoOk(todo, [id] + timers, mem[id := t])
  {}

  lemma FlagKeepsTodo(todo: seq<TimerRef>, timers: seq<nat>, mem: Memory, id: nat)
    requires TodoOk(todo, timers, mem) && id in mem
    ensures TodoOk(todo, timers, mem[id := mem[id].(removed := true)])
  {}

  lemma UnlinkKeepsTodo(todo: seq<TimerRef>, timers: seq<nat>, mem: Memory, bound: nat, i: nat)
    requires TodoOk(todo, timers, mem) && ListOk(timers, mem, bound) && i < |timers| - |todo|
    ensures TodoOk(todo, timers[..i] + timers[i + 1..], mem - {timers[i]})
  {
    var rest := timers[..i] + timers[i + 1..];
    forall j | 0 <= j < |todo|
      ensures rest[|rest| - |todo| + j] == todo[j].id && todo[j].id != timers[i]
    {
      assert rest[|rest| - |todo| + j] == timers[|timers| - |todo| + j];
      Distinct(timers, mem, bound, i, |timers| - |todo| + j);
    }
  }

  lemma {:induction false} Distinct(timers: seq<nat>, mem: Memory, bound: nat, i: nat, j: nat)
    requires ListOk(timers, mem, bound) && i < j < |timers|
    ensures timers[i] != timers[j]
  {
    if i == 0 {
      NewestDiffers(timers, mem, bound, j);
    } else {
      Distinct(timers[1..], mem - {timers[0]}, timers[0], i - 1, j - 1);
    }
  }

  lemma LinkKeepsHandles(handle: Handles, mem: Memory, current: Option<nat>, kind: TimerKind, id: nat, t: TimerObject)
    requires HandlesOk(handle, mem, current) && NoneCurrent(handle, current) && kind !in handle
    requires id !in mem && t.kind == kind && !t.removed
    ensures HandlesOk(handle[kind := id], mem[id := t], current) && NoneCurrent(handle[kind := id], current)
  {}

  ghost predicate InMemory(handle: Handles, mem: Memory) {
    forall k | k in handle :: handle[k] in mem
  }

  lemma LinkKeepsLive(handle: Handles, mem: Memory, current: Option<nat>, kind: TimerKind, id: nat, t: TimerObject)
    requires InMemory(handle, mem) && id !in mem && current != Some(id)
    ensures LiveOf(handle[kind := id], mem[id := t], current) == LiveOf(handle, mem, current)[kind := LiveAt(id, t)]
  {}

  lemma CancelKeepsHandles(handle: Handles, mem: Memory, current: Option<nat>, kind: TimerKind)
    requires HandlesOk(handle, mem, current) && NoneCurrent(handle, current) && kind in handle
    ensures var flagged := mem[handle[kind] := mem[handle[kind]].(removed := true)];
            && HandlesOk(handle - {kind}, flagged, current)
            && NoneCurrent(handle - {kind}, current)
            && LiveOf(handle - {kind}, flagged, current) == LiveOf(handle, mem, current) - {kind}
  {}

  /** The callback of a timer that is being fired forgets its handle. */
  lemma ForgetKeepsHandles(handle: Handles, mem: Memory, current: Option<nat>, kind: TimerKind)
    requires HandlesOk(handle, mem, current) && kind in handle && current == Some(handle[kind])
    ensures HandlesOk(handle - {kind}, mem, current) && NoneCurrent(handle - {kind}, current)
    ensures LiveOf(handle - {kind}, mem, current) == LiveOf(handle, mem, current)
  {}

  /** A timer that is flagged, or whose callback has returned, can be freed. */
  lemma FreeKeepsHandles(handle: Handles, mem: Memory, current: Option<nat>, id: nat)
    requires HandlesOk(handle, mem, current) && NoneCurrent(handle, current) && id in mem
    requires if current.Some? then current == Some(id) else mem[id].removed
    ensures HandlesOk(handle, mem - {id}, None) && NoneCurrent(handle, None)
    ensures LiveOf(handle, mem - {id}, None) == LiveOf(handle, mem, current)
  {}

  /** Starting a callback takes its timer out of the live ones. */
  lemma EnterKeepsHandles(handle: Handles, mem: Memory, kind: TimerKind)
    requires HandlesOk(handle, mem, None) && kind in handle
    ensures HandlesOk(handle, mem, Some(handle[kind]))
    ensures LiveOf(handle, mem, Some(handle[kind])) == LiveOf(handle, mem, None) - {kind}
  {}

  // ----- the process -----

  class Process {
    const password: Password
    const out: WriteEnd

    // struct loop
    var mem: Memory
    var timers: seq<nat>
    var nextId: nat
    var clock: nat
    var ticks: seq<nat>

    // struct swaylock_state and the seats; an absent handle is NULL
    var handle: Handles
    var authState: AuthState
    var inputState: InputState
    var control: bool
    var keymap: bool
    var ignoreEmpty: bool
    var seats: map<nat, Seat>
    var authd: Authd
    var failedAttempts: nat
    var runDisplay: bool

    // the pass that is running: the timer whose callback runs, the entries still to be met, timers reaped
    ghost var current: Option<nat>
    ghost var todo: seq<TimerRef>
    ghost var reaped: nat
    ghost var link: Link
    ghost var hist: History

    ghost function Model(): Main
      reads this, password
    {
      Main(password.cps, password.buffer.Length, authState, inputState, LiveOf(handle, mem, current), nextId,
           clock, ticks, control, keymap, ignoreEmpty, seats, authd, failedAttempts, runDisplay, link, hist)
    }

    ghost predicate PipeOk()
      reads this, out
    {
      PipeFine(out.sched, out.written, out.room, link)
    }

    ghost predicate LoopOk()
      reads this
    {
      LoopFine(timers, mem, nextId, handle, current, todo, |hist.fired|, reaped)
    }

    /** Holds at the start of the callback of `kind`, whose handle still names the timer being fired. */
    ghost predicate Entered(kind: TimerKind)
      reads this, password, password.buffer, out
    {
      && password.Valid() && PipeOk() && LoopOk()
      && kind in handle && current == Some(handle[kind])
    }

    /** Holds between callbacks, and inside one as soon as it has dropped its own handle. */
    ghost predicate Valid()
      reads this, password, password.buffer, out
    {
      && password.Valid() && PipeOk() && LoopOk()
      && NoneCurrent(handle, current)
    }

    /** Where a running pass stands; only the pass itself moves it. */
    ghost function PassState(): (Option<nat>, seq<TimerRef>, nat)
      reads this
    {
      (current, todo, reaped)
    }

    constructor (ignoreEmpty: bool, clock: nat, room: Option<nat>, sched: seq<Answer>)
      requires Reliable(sched)
      ensures Valid() && current.None? && todo == [] && Initial(Model())
      ensures fresh(password) && fresh(password.buffer) && fresh(out)
    {
      password := new Password(1024);
      out := new WriteEnd(room, sched);
      mem, timers, nextId, this.clock, ticks := map[], [], 0, clock, [];
      handle, authState, inputState := map[], AuthIdle, InputIdle;
      control, keymap, seats, failedAttempts, runDisplay := false, false, map[], 0, true;
      authd := Authd(false, STAGE_NONE, [], -1, [], -1, false);
      this.ignoreEmpty := ignoreEmpty;
      current, todo, reaped := None, [], 0;
      link, hist := Link([], [], room), History(clock, 0, [], 0, [], false);
    }

    lemma StartsResting()
      requires Valid() && current.None? && todo == [] && Initial(Model())
      ensures Resting()
    {
      InitialInv(Model());
    }

    /** clock_gettime */
    method ReadClock()
      modifies this`clock, this`ticks
      ensures clock == Reading(old(clock), old(ticks)) && ticks == TicksLeft(old(ticks))
    {
      if ticks != [] {
        clock, ticks := clock + ticks[0], ticks[1..];
      }
    }

    /** loop_add_timer */
    method AddTimer(kind: TimerKind, ms: int) returns (id: nat)
      requires ListOk(timers, mem, nextId) && TodoOk(todo, timers, mem)
      modifies this`clock, this`ticks, this`mem, this`timers, this`nextId
      ensures id == old(nextId) && nextId == old(nextId) + 1 && id !in old(mem)
      ensures timers == [id] + old(timers) && ListOk(timers, mem, nextId) && TodoOk(todo, timers, mem)
      ensures mem == old(mem)[id := TimerObject(kind, AddMs(FromNs(clock), ms), false, clock, ms)]
      ensures clock == Reading(old(clock), old(ticks)) && ticks == TicksLeft(old(ticks))
    {
      ReadClock();
      id := nextId;
      var t := TimerObject(kind, AddMs(FromNs(clock), ms), false, clock, ms);
      AddKeepsList(timers, mem, nextId, t);
      AddKeepsTodo(todo, timers, mem, id, t);
      mem, timers, nextId := mem[id := t], [id] + timers, nextId + 1;
    }

    /** loop_remove_timer: the timer stays linked until the next pass meets it. */
    method RemoveTimer(id: nat) returns (found: bool)
      requires ListOk(timers, mem, nextId) && TodoOk(todo, timers, mem)
      modifies this`mem
      ensures found == (id in old(mem))
      ensures mem == if found then old(mem)[id := old(mem)[id].(removed := true)] else old(mem)
      ensures ListOk(timers, mem, nextId) && TodoOk(todo, timers, mem)
    {
      ListedIffAllocated(timers, mem, nextId, id);
      for i := 0 to |timers|
        invariant mem == old(mem)
        invariant forall j | 0 <= j < i :: timers[j] != id
      {
        if timers[i] == id {
          FlagKeepsList(timers, mem, nextId, id);
          FlagKeepsTodo(todo, timers, mem, id);
          mem := mem[id := mem[id].(removed := true)];
          return true;
        }
      }
      return false;
    }

    /** The live timers, as the handles give them. */
    ghost function Lives(): map<TimerKind, Live>
      reads this
    {
      LiveOf(handle, mem, current)
    }

    /** The part of `Valid` that concerns the loop. */
    ghost predicate TimersValid()
      reads this
    {
      LoopOk() && NoneCurrent(handle, current)
    }

    /** cancel_input_idle, cancel_password_clear, and the same for a seat's repeat timer. */
    method Cancel(kind: TimerKind)
      requires TimersValid()
      modifies this`mem, this`handle
      ensures TimersValid()
      ensures Lives() == old(Lives()) - {kind} && kind !in handle
    {
      if kind in handle {
        CancelKeepsHandles(handle, mem, current, kind);
        var _ := RemoveTimer(handle[kind]);
        handle := handle - {kind};
      }
    }

    /** `handle = loop_add_timer(...)` for a handle that is NULL. */
    method AddHandle(kind: TimerKind, ms: int)
      requires TimersValid() && kind !in handle
      modifies this`mem, this`handle, this`timers, this`nextId, this`clock, this`ticks
      ensures TimersValid()
      ensures clock == Reading(old(clock), old(ticks)) && ticks == TicksLeft(old(ticks))
      ensures nextId == old(nextId) + 1
      ensures Lives() == old(Lives())[kind := NewTimer(old(nextId), clock, ms)]
    {
      var id := AddTimer(kind, ms);
      LinkKeepsHandles(handle, old(mem), current, kind, id, mem[id]);
      LinkKeepsLive(handle, old(mem), current, kind, id, mem[id]);
      handle := handle[kind := id];
    }

    /** schedule_input_idle, schedule_auth_idle and schedule_password_clear. */
    method Schedule(kind: TimerKind, ms: int)
      requires TimersValid()
      modifies this`mem, this`handle, this`timers, this`nextId, this`clock, this`ticks
      ensures TimersValid()
      ensures clock == Reading(old(clock), old(ticks)) && ticks == TicksLeft(old(ticks))
      ensures nextId == old(nextId) + 1
      ensures Lives() == old(Lives())[kind := NewTimer(old(nextId), clock, ms)]
    {
      Cancel(kind);
      AddHandle(kind, ms);
      RemoveThenAdd(old(Lives()), kind, NewTimer(old(nextId), clock, ms));
    }

    // ----- the same, on the whole state -----

    method SetTimer(kind: TimerKind, ms: int)
      requires Valid()
      modifies this
      ensures Valid() && PassState() == old(PassState())
      ensures Model() == MainSpec.Schedule(old(Model()), kind, ms)
    {
      ScheduleIs(Model(), kind, ms);
      Schedule(kind, ms);
    }

    method DropTimer(kind: TimerKind)
      requires Valid()
      modifies this
      ensures Valid() && PassState() == old(PassState())
      ensures Model() == MainSpec.Cancel(old(Model()), kind)
    {
      Cancel(kind);
    }

    method Show(input: InputState)
      requires Valid()
      modifies this
      ensures Valid() && PassState() == old(PassState())
      ensures Model() == old(Model()).(input := input)
    {
      inputState := input;
    }

    method ClearPassword()
      requires Valid()
      modifies password, password.buffer
      ensures Valid() && PassState() == old(PassState())
      ensures Model() == old(Model()).(pw := [])
      ensures forall i | 0 <= i < password.buffer.Length :: password.buffer[i] == 0
    {
      password.Clear();
    }

    // ----- keys -----

    /** Escape, Ctrl-U, Ctrl-C, Ctrl-Backspace. */
    method Wipe()
      requires Valid()
      modifies this, password, password.buffer
      ensures Valid() && PassState() == old(PassState())
      ensures Model() == MainSpec.Wipe(old(Model()))
    {
      ClearPassword();
      Show(Clear);
      DropTimer(ClearTimer);
      SetTimer(InputIdleTimer, INPUT_IDLE_MS);
    }

    method BackspaceKey()
      requires Valid()
      modifies this, password, password.buffer
      ensures Valid() && PassState() == old(PassState())
      ensures Model() == if old(control) || Popped(old(password.cps)) == [] then MainSpec.Wipe(old(Model()))
                         else MainSpec.Edit(old(Model()), Popped(old(password.cps)), Backspace)
    {
      if control {
        Wipe();
      } else {
        var removed := Erase();
        password.LenIsZeroIffEmpty();
        if removed && password.len != 0 {
          Touch(Backspace);
        } else {
          Cleared();
        }
      }
    }

    /** The end of a Backspace that leaves nothing. */
    method Cleared()
      requires Valid()
      modifies this
      ensures Valid() && PassState() == old(PassState())
      ensures Model() == MainSpec.ShowInput(MainSpec.Cancel(old(Model()), ClearTimer), Clear)
    {
      Show(Clear);
      DropTimer(ClearTimer);
      SetTimer(InputIdleTimer, INPUT_IDLE_MS);
    }

    method Erase() returns (removed: bool)
      requires Valid()
      modifies password, password.buffer
      ensures Valid() && PassState() == old(PassState())
      ensures Model() == old(Model()).(pw := Popped(old(password.cps)))
      ensures removed == (old(password.cps) != [])
    {
      removed := password.Backspace();
    }

    method Type(cp: Codepoint)
      requires Valid() && cp != 0
      modifies password, password.buffer
      ensures Valid() && PassState() == old(PassState())
      ensures Model() == old(Model()).(pw := Pushed(old(password.cps), cp, password.buffer.Length))
    {
      password.Append(cp);
    }

    /** A modifier key, or a letter once it is in the buffer. */
    method Touch(input: InputState)
      requires Valid()
      modifies this
      ensures Valid() && PassState() == old(PassState())
      ensures Model() == MainSpec.Edit(old(Model()), old(password.cps), input)
    {
      ShownFirst(Model(), input);
      Show(input);
      SetTimer(ClearTimer, CLEAR_PASSWORD_MS);
      SetTimer(InputIdleTimer, INPUT_IDLE_MS);
    }

    method LetterKey(cp: Codepoint)
      requires Valid() && cp != 0
      modifies this, password, password.buffer
      ensures Valid() && PassState() == old(PassState())
      ensures Model() == MainSpec.Edit(old(Model()), Pushed(old(password.cps), cp, password.buffer.Length), Letter)
    {
      Type(cp);
      Touch(Letter);
    }

    // ----- writing to the child -----

    method SetAuth(auth: AuthState)
      requires Valid()
      modifies this
      ensures Valid() && PassState() == old(PassState())
      ensures Model() == old(Model()).(auth := auth)
    {
      authState := auth;
    }

    /** comm_main_write */
    method Write(f: Frame) returns (ok: bool)
      requires Valid()
      modifies this, out
      ensures Valid() && PassState() == old(PassState())
      ensures ok == Sends(old(link), f)
      ensures Model() == old(Model()).(link := Send(old(link), f))
    {
      ok := CommWrite(out, f);
      WrittenAfterSend(link, f);
      link := Send(link, f);
    }

    /** write_comm_password: the copy goes out after the buffer has been wiped. */
    method WriteCommPassword() returns (ok: bool)
      requires Valid()
      modifies this, password, password.buffer, out
      ensures Valid() && PassState() == old(PassState())
      ensures ok == Sends(old(link), PasswordFrame(old(password.cps)))
      ensures forall i | 0 <= i < password.buffer.Length :: password.buffer[i] == 0
      ensures Model() == old(Model()).(pw := [], link := Send(old(link), PasswordFrame(old(password.cps))))
    {
      var copy := password.buffer[..password.len + 1];
      assert copy == EncodeAll(password.cps) + [0];
      ClearPassword();
      ok := Write(Frame(MSG_PASSWORD, copy));
    }

    method StartValidating()
      requires Valid()
      modifies this
      ensures Valid() && PassState() == old(PassState())
      ensures Model() == MainSpec.Cancel(MainSpec.Cancel(old(Model()), ClearTimer), InputIdleTimer).(
                           input := InputIdle, auth := Validating)
    {
      Show(InputIdle);
      SetAuth(Validating);
      DropTimer(ClearTimer);
      DropTimer(InputIdleTimer);
    }

    method HandOverPassword() returns (ok: bool)
      requires Valid()
      modifies this, password, password.buffer, out
      ensures Valid() && PassState() == old(PassState())
      ensures ok == Sends(old(link), PasswordFrame(old(password.cps)))
      ensures Model() == MainSpec.HandOver(old(Model()))
    {
      ghost var pw := password.cps;
      StartValidating();
      ok := WriteCommPassword();
      RecordSubmission(pw, ok);
    }

    /** submit_password */
    method SubmitPassword()
      requires Valid()
      modifies this, password, password.buffer, out
      ensures Valid() && PassState() == old(PassState())
      ensures Model() == MainSpec.Submit(old(Model()))
    {
      password.LenIsZeroIffEmpty();
      if ignoreEmpty && password.len == 0 {
        return;
      }
      if authState == Validating {
        return;
      }
      var ok := HandOverPassword();
      if !ok {
        SetAuth(Invalid);
        SetTimer(AuthIdleTimer, AUTH_IDLE_MS);
      }
    }

    ghost method RecordSubmission(pw: seq<Codepoint>, ok: bool)
      requires Valid()
      modifies this`hist
      ensures Valid() && PassState() == old(PassState())
      ensures Model() == old(Model()).(
                hist := old(hist).(started := old(hist).started + 1,
                                   delivered := if ok then old(hist).delivered + [pw] else old(hist).delivered))
    {
      hist := hist.(started := hist.started + 1, delivered := if ok then hist.delivered + [pw] else hist.delivered);
    }

    // ----- swaylock_handle_key -----

    method SetAuthd(a: Authd)
      requires Valid()
      modifies this
      ensures Valid() && PassState() == old(PassState())
      ensures Model() == old(Model()).(authd := a)
    {
      authd := a;
    }

    /** Enter in a list: the index is checked before the list is read. */
    method ConfirmSelection(ids: Ids, sel: int, typ: Byte)
      requires Valid()
      modifies this, out
      ensures Valid() && PassState() == old(PassState())
      ensures Model() == old(Model()).(link := Confirm(old(link), ids, sel, typ))
    {
      if sel >= 0 && sel < |ids| {
        var id := ids[sel];
        if id.Some? {
          var _ := Write(Frame(typ, id.value + [0]));
        }
      }
    }

    method ListKey(sym: KeySym)
      requires Valid() && (sym.Up? || sym.Down? || sym.IsEnter() || sym.Escape?)
      modifies this, out
      ensures Valid() && PassState() == old(PassState())
      ensures Model() == MainSpec.ListKey(old(Model()), sym)
    {
      if sym.Up? || sym.Down? {
        MoveSelection(sym);
      } else if sym.IsEnter() {
        if authd.stage == STAGE_BROKER {
          ConfirmSelection(authd.brokers, authd.selBroker, MSG_BROKER_SEL);
        } else {
          ConfirmSelection(authd.modes, authd.selMode, MSG_AUTH_MODE_SEL);
        }
      } else {
        var _ := Write(Frame(MSG_CANCEL, []));
      }
    }

    method MoveSelection(sym: KeySym)
      requires Valid() && (sym.Up? || sym.Down?)
      modifies this
      ensures Valid() && PassState() == old(PassState())
      ensures Model() == old(Model()).(authd := Moved(old(authd), sym))
    {
      var isBroker := authd.stage == STAGE_BROKER;
      var sel := if isBroker then authd.selBroker else authd.selMode;
      var count := if isBroker then |authd.brokers| else |authd.modes|;
      if sym.Up? && sel > 0 {
        sel := sel - 1;
      } else if sym.Down? && sel < count - 1 {
        sel := sel + 1;
      }
      var a := if isBroker then authd.(selBroker := sel) else authd.(selMode := sel);
      assert a == Moved(authd, sym);
      SetAuthd(a);
    }

    /** The switch at the end of swaylock_handle_key, with its fall-throughs. */
    method TypingKey(sym: KeySym, cp: Codepoint)
      requires Valid()
      modifies this, password, password.buffer, out
      ensures Valid() && PassState() == old(PassState())
      ensures Model() == Act(old(Model()), ClassOf(old(Model()), sym, cp), cp)
    {
      ghost var m := Model();
      SwitchClass(m, sym, cp);
      ActIs(m, ClassOf(m, sym, cp), cp);
      if sym.KpEnter? || sym.Return? {
        SubmitPassword();
      } else if sym.Delete? || sym.BackSpace? {
        BackspaceKey();
      } else if sym.Escape? {
        Wipe();
      } else if sym.IsModifier() {
        Touch(Neutral);
      } else if (sym.KeyM? || sym.KeyD? || sym.KeyJ?) && control {
        SubmitPassword();
      } else if (sym.KeyC? || sym.KeyU?) && control {
        Wipe();
      } else if cp != 0 {
        LetterKey(cp);
      }
    }

    ghost method RecordKey()
      requires Valid()
      modifies this`hist
      ensures Valid() && PassState() == old(PassState())
      ensures Model() == old(Model()).(hist := old(hist).(lastKey := clock))
    {
      hist := hist.(lastKey := clock);
    }

    method KeyAction(sym: KeySym, cp: Codepoint)
      requires Valid()
      modifies this, password, password.buffer, out
      ensures Valid() && PassState() == old(PassState())
      ensures Model() == MainSpec.KeyAction(old(Model()), sym, cp)
    {
      KeyCases(Model(), sym, cp);
      if authd.active && (authd.stage == STAGE_BROKER || authd.stage == STAGE_AUTH_MODE)
         && (sym.Up? || sym.Down? || sym.IsEnter() || sym.Escape?) {
        ListKey(sym);
      } else if authd.active && authd.stage == STAGE_CHALLENGE && sym.Tab? && authd.button {
        var _ := Write(Frame(MSG_BUTTON, []));
      } else {
        TypingKey(sym, cp);
      }
    }

    /** swaylock_handle_key */
    method HandleKey(sym: KeySym, cp: Codepoint)
      requires Valid()
      modifies this, password, password.buffer, out
      ensures Valid() && PassState() == old(PassState())
      ensures Model() == MainSpec.HandleKey(old(Model()), sym, cp)
    {
      KeyAction(sym, cp);
      RecordKey();
    }

    // ----- seat.c -----

    method SetSeat(seat: nat, s: Seat)
      requires Valid()
      modifies this
      ensures Valid() && PassState() == old(PassState())
      ensures Model() == old(Model()).(seats := old(seats)[seat := s])
    {
      seats := seats[seat := s];
    }

    /** keyboard_repeat_info */
    method RepeatInfo(seat: nat, rate: int, delay: int)
      requires Valid() && seat in seats
      modifies this
      ensures Valid() && PassState() == old(PassState())
      ensures Model() == MainSpec.RepeatInfo(old(Model()), seat, rate, delay)
    {
      var period := -1;
      if rate > 0 {
        period := 1000 / rate;
      }
      SetSeat(seat, seats[seat].(periodMs := period, delayMs := delay));
    }

    /** keyboard_key */
    method KeyboardKey(seat: nat, pressed: bool, sym: KeySym, cp: Codepoint)
      requires Valid() && seat in seats
      modifies this, password, password.buffer, out
      ensures Valid() && PassState() == old(PassState())
      ensures Model() == MainSpec.KeyboardKey(old(Model()), seat, pressed, sym, cp)
    {
      if !keymap {
        return;
      }
      ghost var m := Model();
      if pressed {
        HandleKeySeats(m, sym, cp);
        HandleKey(sym, cp);
      }
      DropTimer(RepeatTimer(seat));
      if pressed && seats[seat].periodMs > 0 {
        PressRepeats(m, seat, sym, cp);
        SetSeat(seat, seats[seat].(sym := sym, cp := cp));
        SetTimer(RepeatTimer(seat), seats[seat].delayMs);
      } else {
        ReleaseCancels(m, seat, pressed, sym, cp);
      }
    }

    // ----- comm_in -----

    method CountFailure()
      requires Valid()
      modifies this
      ensures Valid() && PassState() == old(PassState())
      ensures Model() == old(Model()).(failed := old(failedAttempts) + 1)
    {
      failedAttempts := failedAttempts + 1;
    }

    ghost method RecordDenied(denied: nat)
      requires Valid()
      modifies this
      ensures Valid() && PassState() == old(PassState())
      ensures Model() == old(Model()).(hist := old(hist).(denied := denied))
    {
      hist := hist.(denied := denied);
    }

    method ChargeAttempt(ghost denied: nat)
      requires Valid()
      modifies this
      ensures Valid() && PassState() == old(PassState())
      ensures Model() == Charge(old(Model()), denied)
    {
      SetAuth(Invalid);
      CountFailure();
      RecordDenied(denied);
    }

    method ShowInvalid(ghost denied: nat)
      requires Valid()
      modifies this
      ensures Valid() && PassState() == old(PassState())
      ensures Model() == MainSpec.ShowInvalid(old(Model()), denied)
    {
      ChargeAttempt(denied);
      SetTimer(AuthIdleTimer, AUTH_IDLE_MS);
    }

    method EndLoop()
      requires Valid()
      modifies this
      ensures Valid() && PassState() == old(PassState())
      ensures Model() == old(Model()).(running := false)
    {
      runDisplay := false;
    }

    method Stage(stage: Byte)
      requires Valid()
      modifies this
      ensures Valid() && PassState() == old(PassState())
      ensures Model() == MainSpec.Stage(old(Model()), stage)
    {
      if authState == Validating {
        ShowInvalid(hist.denied);
      }
      SetAuthd(authd.(stage := stage));
    }

    /** comm_in, once a frame has been read; `json` is what cJSON makes of its payload. */
    method CommIn(f: Frame, json: Json)
      requires Valid()
      modifies this
      ensures Valid() && PassState() == old(PassState())
      ensures Model() == HandleMessage(old(Model()), f, json)
    {
      MessageCases(Model(), f, json);
      if f.typ == MSG_AUTH_RESULT {
        Result(f);
      } else if f.typ == MSG_BROKERS || f.typ == MSG_AUTH_MODES {
        ListMessage(f.typ, json);
      } else if f.typ == MSG_UI_LAYOUT {
        UiLayout(json.button);
      } else if f.typ == MSG_STAGE {
        if |f.payload| >= 1 {
          Stage(f.payload[0]);
        }
      } else if f.typ == MSG_AUTH_EVENT {
        SetAuth(AuthIdle);
      }
    }

    method Result(f: Frame)
      requires Valid() && f.typ == MSG_AUTH_RESULT
      modifies this
      ensures Valid() && PassState() == old(PassState())
      ensures Model() == if Granted(f) then old(Model()).(running := false)
                         else MainSpec.ShowInvalid(old(Model()), old(hist).denied + 1)
    {
      if |f.payload| >= 1 && f.payload[0] == 0x01 {
        EndLoop();
      } else {
        ShowInvalid(hist.denied + 1);
      }
    }

    method UiLayout(button: bool)
      requires Valid()
      modifies this
      ensures Valid() && PassState() == old(PassState())
      ensures Model() == Layout(old(Model()), button)
    {
      SetAuth(AuthIdle);
      SetAuthd(authd.(button := button, stage := STAGE_CHALLENGE));
    }

    method ListMessage(typ: Byte, json: Json)
      requires Valid() && (typ == MSG_BROKERS || typ == MSG_AUTH_MODES)
      modifies this
      ensures Valid() && PassState() == old(PassState())
      ensures Model() == old(Model()).(authd := if typ == MSG_BROKERS then Brokers(old(authd), json)
                                                else AuthModes(old(authd), json))
    {
      var a := if typ == MSG_BROKERS then authd.(brokers := [], selBroker := 0) else authd.(modes := [], selMode := 0);
      if json.list.Entries? {
        var ids: Ids := if |json.list.ids| > MAX_ENTRIES then json.list.ids[..MAX_ENTRIES] else json.list.ids;
        a := if typ == MSG_BROKERS then a.(brokers := ids) else a.(modes := ids);
      }
      if !json.list.NoMemory? {
        a := a.(active := true, stage := if typ == MSG_BROKERS then STAGE_BROKER else STAGE_AUTH_MODE);
      }
      SetAuthd(a);
    }

    // ----- callbacks -----

    /** A callback sets the handle of its own timer to NULL. */
    method ForgetHandle(kind: TimerKind)
      requires Entered(kind)
      modifies this
      ensures Valid() && PassState() == old(PassState()) && kind !in handle
      ensures Model() == old(Model())
    {
      ForgetKeepsHandles(handle, mem, current, kind);
      handle := handle - {kind};
    }

    /** keyboard_repeat stores a new timer over it instead; nothing is removed, for the handle counts as NULL. */
    method OverwriteHandle(kind: TimerKind, ms: int)
      requires Entered(kind)
      modifies this
      ensures Valid() && PassState() == old(PassState())
      ensures Model() == MainSpec.Schedule(old(Model()), kind, ms)
    {
      ForgetHandle(kind);
      SetTimer(kind, ms);
    }

    method SetInputIdle()
      requires Entered(InputIdleTimer)
      modifies this
      ensures Valid() && PassState() == old(PassState())
      ensures Model() == Callback(old(Model()), InputIdleTimer)
    {
      ForgetHandle(InputIdleTimer);
      Show(InputIdle);
    }

    method SetAuthIdle()
      requires Entered(AuthIdleTimer)
      modifies this
      ensures Valid() && PassState() == old(PassState())
      ensures Model() == Callback(old(Model()), AuthIdleTimer)
    {
      ForgetHandle(AuthIdleTimer);
      SetAuth(AuthIdle);
    }

    /** clear_password */
    method ClearPasswordTimer()
      requires Entered(ClearTimer)
      modifies this, password, password.buffer
      ensures Valid() && PassState() == old(PassState())
      ensures Model() == Callback(old(Model()), ClearTimer)
    {
      ForgetHandle(ClearTimer);
      ShowCleared();
    }

    method ShowCleared()
      requires Valid()
      modifies this, password, password.buffer
      ensures Valid() && PassState() == old(PassState())
      ensures Model() == ShowInput(old(Model()).(pw := []), Clear)
    {
      Show(Clear);
      SetTimer(InputIdleTimer, INPUT_IDLE_MS);
      ClearPassword();
    }

    method KeyboardRepeat(seat: nat)
      requires Entered(RepeatTimer(seat)) && seat in seats
      modifies this, password, password.buffer, out
      ensures Valid() && PassState() == old(PassState())
      ensures Model() == Callback(old(Model()), RepeatTimer(seat))
    {
      var s := seats[seat];
      OverwriteHandle(RepeatTimer(seat), s.periodMs);
      HandleKey(s.sym, s.cp);
    }

    method RunCallback(kind: TimerKind)
      requires Entered(kind) && (kind.RepeatTimer? ==> kind.seat in seats)
      modifies this, password, password.buffer, out
      ensures Valid() && PassState() == old(PassState())
      ensures Model() == Callback(old(Model()), kind)
    {
      match kind {
        case InputIdleTimer => SetInputIdle();
        case AuthIdleTimer => SetAuthIdle();
        case ClearTimer => ClearPasswordTimer();
        case RepeatTimer(seat) => KeyboardRepeat(seat);
      }
    }

    // ----- the dispatch pass of loop_poll -----

    method Unlink(i: nat)
      requires TimersValid() && i < |timers| && i == |timers| - |todo| - 1
      requires if current.Some? then current.value == timers[i] else timers[i] in mem && mem[timers[i]].removed
      modifies this`mem, this`timers, this`current, this`reaped
      ensures TimersValid() && current == None && |timers| == old(|timers|) - 1
      ensures reaped == old(reaped) + if old(current).Some? then 0 else 1
      ensures Lives() == old(Lives())
    {
      UnlinkKeepsList(timers, mem, nextId, i);
      UnlinkKeepsTodo(todo, timers, mem, nextId, i);
      FreeKeepsHandles(handle, mem, current, timers[i]);
      if current.None? {
        reaped := reaped + 1;
      }
      mem, timers, current := mem - {timers[i]}, timers[..i] + timers[i + 1..], None;
    }

    /** Unlinks and frees the timer just before the entries still to be met. */
    method FreeTimer(i: nat)
      requires Valid() && i < |timers| && i == |timers| - |todo| - 1
      requires if current.Some? then current.value == timers[i] else timers[i] in mem && mem[timers[i]].removed
      modifies this
      ensures Valid() && current == None && todo == old(todo) && |timers| == old(|timers|) - 1
      ensures Model() == old(Model())
    {
      Unlink(i);
    }

    /** The pass moves its cursor to the next entry. */
    ghost method Advance()
      requires Valid() && todo != [] && current.None?
      modifies this`todo
      ensures Valid() && todo == old(todo)[1..] && current.None? && reaped == old(reaped)
      ensures Model() == old(Model())
    {
      todo := todo[1..];
    }

    /** The timer that the cursor has just passed is about to be called. */
    ghost method Enter(kind: TimerKind, now: Instant)
      requires Valid() && current.None? && kind in handle && |todo| < |timers|
      requires timers[|timers| - |todo| - 1] == handle[kind]
      modifies this`current, this`hist
      ensures Entered(kind) && todo == old(todo) && reaped == old(reaped)
      ensures kind in old(Model()).live && Model() == Unlinked(old(Model()), kind, now)
    {
      EnterKeepsHandles(handle, mem, kind);
      hist := hist.(fired := hist.fired + [Firing(kind, Model().live[kind], now)]);
      current := Some(handle[kind]);
    }

    /** One timer that is due: call it, then unlink it wherever the callback's additions have pushed it. */
    method FireTimer(i: nat, now: Instant)
      requires Valid() && Inv(Model()) && current.None? && i < |timers| && i == |timers| - |todo| - 1
      requires timers[i] in mem && !mem[timers[i]].removed && Expired(mem[timers[i]].expiry, now)
      modifies this, password, password.buffer, out
      ensures Valid() && Inv(Model()) && current.None? && todo == old(todo)
      ensures var ref := TimerRef(old(mem)[old(timers)[i]].kind, old(timers)[i]);
              Due(old(Model()), ref, now) && Model() == Fire(old(Model()), ref.kind, now)
    {
      var kind := mem[timers[i]].kind;
      ghost var m := Model();
      assert m.live[kind] == LiveAt(timers[i], mem[timers[i]]);
      FireKeeps(m, kind, now);
      var left := |timers| - i;  // this entry and those behind it, which no callback unlinks
      Enter(kind, now);
      RunCallback(kind);
      FreeTimer(|timers| - left);
    }

    ghost method StartPass(refs: seq<TimerRef>)
      requires Valid() && current.None? && TodoOk(refs, timers, mem)
      modifies this`todo
      ensures Valid() && todo == refs && current.None? && Model() == old(Model())
    {
      todo := refs;
    }

    method Tick()
      requires Valid()
      modifies this
      ensures Valid() && PassState() == old(PassState()) && timers == old(timers) && mem == old(mem)
      ensures Model() == MainSpec.ReadClock(old(Model()))
    {
      ReadClock();
    }

    /** One round of the dispatch loop at list position `i`; the result is the next position. */
    method MeetTimer(i: nat, now: Instant) returns (next: nat)
      requires Valid() && Inv(Model()) && current.None? && i < |timers| && |timers| - i == |todo|
      modifies this, password, password.buffer, out
      ensures Valid() && Inv(Model()) && current.None?
      ensures todo == old(todo)[1..] && next <= |timers| && |timers| - next == |todo|
      ensures Model() == Visit(old(Model()), old(todo)[0], now)
    {
      ghost var m, ref := Model(), todo[0];
      assert timers[i] == ref.id && ref.id in mem && mem[ref.id].kind == ref.kind;
      Advance();
      if mem[timers[i]].removed {
        assert !Due(m, ref, now);
        FreeTimer(i);
        next := i;
      } else if Expired(mem[timers[i]].expiry, now) {
        var behind := |timers| - i - 1;
        FireTimer(i, now);
        next := |timers| - behind;
      } else {
        assert !Due(m, ref, now);
        next := i + 1;
      }
    }

    /** A pass begins: the clock is read once, and the cursor stands at the head of the list. */
    method BeginPass() returns (now: Instant, ghost refs: seq<TimerRef>)
      requires Valid() && Inv(Model()) && current.None? && timers != []
      modifies this
      ensures Valid() && Inv(Model()) && current.None? && todo == refs && |todo| == |timers|
      ensures Allocated(old(timers), old(mem)) && refs == RefsOf(old(timers), old(mem)) && refs != []
      ensures Covers(refs, old(Model())) && Existing(refs, old(nextId))
      ensures Pass(old(Model()), refs) == PassFrom(Model(), refs, now)
    {
      ListedAreAllocated(timers, mem, nextId);
      refs := RefsOf(timers, mem);
      RefsCover(timers, mem, nextId, handle);
      ghost var m := Model();
      ReadClockKeeps(m);
      ClockKeeps(m, MainSpec.ReadClock(m).clock, MainSpec.ReadClock(m).ticks);
      Tick();
      StartPass(refs);
      now := FromNs(clock);
    }

    /** The timer part of loop_poll. It works through the entries that are listed when it starts, reaping
        the flagged ones and firing those that are due, and ends in the state that one abstract pass over
        them gives. */
    method DispatchTimers() returns (ghost refs: seq<TimerRef>)
      requires Valid() && Inv(Model()) && current.None? && todo == []
      modifies this, password, password.buffer, out
      ensures Valid() && Inv(Model()) && current.None? && todo == []
      ensures Allocated(old(timers), old(mem)) && refs == RefsOf(old(timers), old(mem))
      ensures Covers(refs, old(Model())) && Existing(refs, old(nextId)) && Model() == Pass(old(Model()), refs)
    {
      if timers == [] {
        NoHandles();
        refs := [];
        return;
      }
      var now;
      now, refs := BeginPass();
      WorkThrough(now, Pass(old(Model()), refs));
    }

    method WorkThrough(now: Instant, ghost end: Main)
      requires MidPass(0, now, end)
      modifies this, password, password.buffer, out
      ensures Valid() && Inv(Model()) && current.None? && todo == [] && Model() == end
    {
      var i: nat := 0;
      while i < |timers|
        invariant MidPass(i, now, end)
        decreases |todo|
      {
        i := MeetNext(i, now, end);
      }
    }

    /** The pass stands at list position `i`; what it has still to meet will take it to `end`. */
    ghost predicate MidPass(i: nat, now: Instant, end: Main)
      reads this, password, password.buffer, out
    {
      && Valid() && Inv(Model()) && current.None?
      && i <= |timers| && |timers| - i == |todo|
      && PassFrom(Model(), todo, now) == end
    }

    method MeetNext(i: nat, now: Instant, ghost end: Main) returns (next: nat)
      requires MidPass(i, now, end) && i < |timers|
      modifies this, password, password.buffer, out
      ensures MidPass(next, now, end) && |todo| < |old(todo)|
    {
      next := MeetTimer(i, now);
    }

    /** The first half of loop_poll: the timeout for poll(). A wait that long passes no live timer by a
        millisecond, and unless it is INT_MAX it is the time left to some listed timer. */
    method PollTimeout() returns (ms: int)
      requires Resting()
      requires Allocated(timers, mem) ==> InIntRange(Expiries(timers, mem), FromNs(Reading(clock, ticks)))
      modifies this
      ensures Resting() && timers == old(timers) && mem == old(mem)
      ensures Model() == if timers == [] then old(Model()) else MainSpec.ReadClock(old(Model()))
      ensures 0 <= ms <= INT_MAX && (ms < INT_MAX ==> IsTimeLeft(ms, timers, mem, clock))
      ensures WokenForAll(Model().live, ms, clock)
    {
      if timers == [] {
        NoHandles();
        return INT_MAX;
      }
      ListedTimers();
      TickAtRest();
      ms := TimeLeft();
    }

    method TimeLeft() returns (ms: int)
      requires Resting() && Allocated(timers, mem) && InIntRange(Expiries(timers, mem), FromNs(clock))
      ensures 0 <= ms <= INT_MAX && (ms < INT_MAX ==> IsTimeLeft(ms, timers, mem, clock))
      ensures WokenForAll(Model().live, ms, clock)
    {
      ms := Clock.PollTimeout(Expiries(timers, mem), FromNs(clock));
      WakesForLive(timers, mem, nextId, handle, ms, clock);
    }

    lemma ListedTimers()
      requires Resting()
      ensures Allocated(timers, mem)
    {
      ListedAreAllocated(timers, mem, nextId);
    }

    method TickAtRest()
      requires Resting()
      modifies this
      ensures Resting() && timers == old(timers) && mem == old(mem)
      ensures clock == Reading(old(clock), old(ticks)) && Model() == MainSpec.ReadClock(old(Model()))
    {
      ReadClockSince(Model());
      Tick();
    }

    // ----- whole runs -----

    /** Between two events: no pass is under way. */
    ghost predicate Resting()
      reads this, password, password.buffer, out
    {
      Valid() && current.None? && todo == [] && Inv(Model())
    }

    /** Time passes, and the clock readings to come are fixed. */
    method Elapse(d: nat, ticks: seq<nat>)
      requires Valid()
      modifies this
      ensures Valid() && PassState() == old(PassState())
      ensures Model() == old(Model()).(clock := old(clock) + d, ticks := ticks)
    {
      clock, this.ticks := clock + d, ticks;
    }

    /** keyboard_modifiers */
    method KeyboardModifiers(control: bool)
      requires Valid()
      modifies this
      ensures Valid() && PassState() == old(PassState())
      ensures Model() == if old(keymap) then old(Model()).(control := control) else old(Model())
    {
      if keymap {
        this.control := control;
      }
    }

    /** keyboard_keymap */
    method KeyboardKeymap(loaded: bool)
      requires Valid()
      modifies this
      ensures Valid() && PassState() == old(PassState())
      ensures Model() == old(Model()).(keymap := loaded)
    {
      keymap := loaded;
    }

    /** SIGUSR1, or the display connection failed. */
    method StopLoop()
      requires Valid()
      modifies this
      ensures Valid() && PassState() == old(PassState())
      ensures Model() == old(Model()).(running := false, hist := old(hist).(stopped := true))
    {
      runDisplay := false;
      hist := hist.(stopped := true);
    }

    /** The events of a seat. */
    method HandleSeat(e: Event)
      requires Resting() && (e.Key? || e.NewSeat? || e.RepeatRate?) && Enabled(Model(), e)
      modifies this, password, password.buffer, out
      ensures Valid() && PassState() == old(PassState()) && Model() == Step(old(Model()), e)
    {
      match e {
        case Key(seat, pressed, sym, cp) => KeyboardKey(seat, pressed, sym, cp);
        case NewSeat(seat) => SetSeat(seat, Seat(0, 0, Other, 0));
        case RepeatRate(seat, rate, delay) => RepeatInfo(seat, rate, delay);
      }
    }

    method HandleOther(e: Event)
      requires Resting() && !(e.Key? || e.NewSeat? || e.RepeatRate? || e.Timers?) && Enabled(Model(), e)
      modifies this, password, password.buffer, out
      ensures Valid() && PassState() == old(PassState()) && Model() == Step(old(Model()), e)
    {
      match e {
        case Elapse(d, ticks) => Elapse(d, ticks);
        case Modifiers(control) => KeyboardModifiers(control);
        case Keymap(loaded) => KeyboardKeymap(loaded);
        case FromChild(frame, json) => CommIn(frame, json);
        case Stop => StopLoop();
      }
    }

    /** One event; the entries that a pass meets are not part of it but found in the list. */
    method Handle(e: Event) returns (ghost done: Event)
      requires Resting() && Possible(e, seats.Keys)
      modifies this, password, password.buffer, out
      ensures Resting() && Fills(e, done) && Enabled(old(Model()), done)
      ensures Model() == Step(old(Model()), done)
    {
      if e.Timers? {
        ghost var refs := DispatchTimers();
        done := Timers(refs);
      } else {
        done := e;
        PossibleIsEnabled(Model(), e);
        StepKeeps(Model(), e);
        if e.Key? || e.NewSeat? || e.RepeatRate? {
          HandleSeat(e);
        } else {
          HandleOther(e);
        }
      }
    }

    /** The process has handled the first events of the script, as the run `es` of the abstract machine. */
    ghost predicate Followed(m: Main, script: seq<Event>, es: seq<Event>)
      reads this, password, password.buffer, out
    {
      && Resting() && RunOf(script, es) && Coherent(script[|es|..], seats.Keys)
      && IsRun(m, es) && Model() == After(m, es)
    }

    method HandleNext(script: seq<Event>, i: nat, ghost m: Main, ghost es: seq<Event>) returns (ghost more: seq<Event>)
      requires i == |es| < |script| && Followed(m, script, es)
      modifies this, password, password.buffer, out
      ensures |more| == |es| + 1 && Followed(m, script, more)
    {
      ghost var before := Model();
      ghost var done := Handle(script[i]);
      RunPush(m, es, before, done, script);
      more := es + [done];
    }

    /** Any sequence of events takes the process through a run of the abstract machine, so every result about
        such runs holds of the bytes, the list and the handles here. */
    method Run(script: seq<Event>) returns (ghost es: seq<Event>)
      requires Resting() && Coherent(script, seats.Keys)
      modifies this, password, password.buffer, out
      ensures Resting() && |es| == |script| && RunOf(script, es)
      ensures IsRun(old(Model()), es) && Model() == After(old(Model()), es)
      ensures HandlesOk(handle, mem, None) && Conserved(nextId, None, |hist.fired|, reaped, |timers|)
      ensures out.written == Written(link)
    {
      es := [];
      ghost var m := Model();
      assert script[0..] == script;
      var i := 0;
      while i < |script|
        invariant 0 <= i <= |script| && |es| == i && Followed(m, script, es)
      {
        es := HandleNext(script, i, m, es);
        i := i + 1;
      }
      AtRest();
    }

    lemma AtRest()
      requires Resting()
      ensures HandlesOk(handle, mem, None) && Conserved(nextId, None, |hist.fired|, reaped, |timers|)
      ensures out.written == Written(link)
    {}

    lemma NoHandles()
      requires Valid() && timers == []
      ensures Covers([], Model()) && Allocated(timers, mem) && RefsOf(timers, mem) == []
    {
      assert handle.Keys == {};
    }
  }

  /** The compositor speaks only of seats that it has announced, and cJSON yields short identifiers. */
  ghost predicate Possible(e: Event, seats: set<nat>) {
    match e
    case Key(seat, _, _, _) => seat in seats
    case RepeatRate(seat, _, _) => seat in seats
    case NewSeat(seat) => seat !in seats
    case FromChild(_, json) => json.list.Entries? ==> SmallIds(json.list.ids)
    case _ => true
  }

  lemma PossibleIsEnabled(m: Main, e: Event)
    requires Possible(e, m.seats.Keys) && !e.Timers?
    ensures Enabled(m, e)
  {}

  function SeatsWith(seats: set<nat>, e: Event): set<nat> {
    if e.NewSeat? then seats + {e.seat} else seats
  }

  ghost predicate Coherent(script: seq<Event>, seats: set<nat>)
    decreases |script|
  {
    script == [] || (Possible(script[0], seats) && Coherent(script[1..], SeatsWith(seats, script[0])))
  }

  /** `done` is the event `e`; a pass also says which entries it met. */
  ghost predicate Fills(e: Event, done: Event) {
    e == done || (e.Timers? && done.Timers?)
  }

  ghost predicate RunOf(script: seq<Event>, es: seq<Event>) {
    |es| <= |script| && forall i | 0 <= i < |es| :: Fills(script[i], es[i])
  }

  /** One more event of a script. */
  lemma RunPush(m: Main, es: seq<Event>, before: Main, done: Event, script: seq<Event>)
    requires IsRun(m, es) && before == After(m, es) && Inv(before) && Enabled(before, done)
    requires RunOf(script, es) && |es| < |script| && Fills(script[|es|], done)
    requires Coherent(script[|es|..], before.seats.Keys)
    ensures IsRun(m, es + [done]) && After(m, es + [done]) == Step(before, done)
    ensures RunOf(script, es + [done]) && Coherent(script[|es| + 1..], Step(before, done).seats.Keys)
  {
    AfterPush(m, es, done);
    SeatsAfter(before, done);
    assert script[|es|..][1..] == script[|es| + 1..];
  }

  lemma SeatsAfter(m: Main, e: Event)
    requires Inv(m) && Enabled(m, e)
    ensures Step(m, e).seats.Keys == SeatsWith(m.seats.Keys, e)
  {
    match e {
      case Key(seat, pressed, sym, cp) => KeyKeepsSeats(m, seat, pressed, sym, cp);
      case Timers(todo) => PassExact(m, todo);
      case FromChild(frame, json) => MessageKeepsSeats(m, frame, json);
      case _ =>
    }
  }

  lemma KeyKeepsSeats(m: Main, seat: nat, pressed: bool, sym: KeySym, cp: Codepoint)
    requires seat in m.seats
    ensures MainSpec.KeyboardKey(m, seat, pressed, sym, cp).seats.Keys == m.seats.Keys
  {
    HandleKeySeats(m, sym, cp);
    if m.keymap {
      if pressed && m.seats[seat].periodMs > 0 {
        PressRepeats(m, seat, sym, cp);
      } else {
        ReleaseCancels(m, seat, pressed, sym, cp);
      }
    }
  }

  lemma HandleKeySeats(m: Main, sym: KeySym, cp: Codepoint)
    ensures MainSpec.HandleKey(m, sym, cp).seats == m.seats
  {
    KeyCases(m, sym, cp);
    ActSeats(m, ClassOf(m, sym, cp), cp);
  }

  lemma ActSeats(m: Main, c: KeyClass, cp: Codepoint)
    ensures Act(m, c, cp).seats == m.seats
  {
    Typing.ActDesk(m, c, cp);
    assert Typing.DeskOf(Act(m, c, cp)).seats == m.seats;
  }

  lemma MessageKeepsSeats(m: Main, f: Frame, json: Json)
    ensures HandleMessage(m, f, json).seats == m.seats
  {
    MessageCases(m, f, json);
  }

  /** The order of the cases in the C switch gives the same classes of keys. */
  lemma SwitchClass(m: Main, sym: KeySym, cp: Codepoint)
    ensures ClassOf(m, sym, cp)
            == if sym.IsEnter() then Submitting
               else if sym.Delete? || sym.BackSpace? then (if m.control || Popped(m.pw) == [] then Wiping else Erasing)
               else if sym.Escape? then Wiping
               else if sym.IsModifier() then Holding
               else if (sym.KeyM? || sym.KeyD? || sym.KeyJ?) && m.control then Submitting
               else if (sym.KeyC? || sym.KeyU?) && m.control then Wiping
               else if cp != 0 then Printing
               else Dead
  {}

  lemma ActIs(m: Main, c: KeyClass, cp: Codepoint)
    ensures Act(m, c, cp) ==
            match c
            case Submitting => MainSpec.Submit(m)
            case Wiping => MainSpec.Wipe(m)
            case Erasing => MainSpec.Edit(m, Popped(m.pw), Backspace)
            case Holding => MainSpec.Edit(m, m.pw, Neutral)
            case Printing => MainSpec.Edit(m, Pushed(m.pw, cp, m.cap), Letter)
            case Dead => m
  {}

  lemma ScheduleIs(m: Main, kind: TimerKind, ms: int)
    ensures MainSpec.Schedule(m, kind, ms)
            == m.(live := m.live[kind := NewTimer(m.nextId, Reading(m.clock, m.ticks), ms)], nextId := m.nextId + 1,
                  clock := Reading(m.clock, m.ticks), ticks := TicksLeft(m.ticks))
  {}

  /** The indicator may be set before the timers. */
  lemma ShownFirst(m: Main, input: InputState)
    ensures var s := MainSpec.Schedule(m.(input := input), ClearTimer, CLEAR_PASSWORD_MS);
            MainSpec.Schedule(s, InputIdleTimer, INPUT_IDLE_MS) == MainSpec.Edit(m, m.pw, input)
  {
    ScheduleIs(m.(input := input), ClearTimer, CLEAR_PASSWORD_MS);
    ScheduleIs(m.(pw := m.pw), ClearTimer, CLEAR_PASSWORD_MS);
  }

  lemma RemoveThenAdd(live: map<TimerKind, Live>, kind: TimerKind, t: Live)
    ensures (live - {kind})[kind := t] == live[kind := t]
  {}

  lemma WrittenAfterSend(link: Link, f: Frame)
    requires link.cut == [] || link.room == Some(0)
    ensures Written(Send(link, f)) == Written(link) + EncodeFrame(f)[..Accepted(link.room, |EncodeFrame(f)|)]
    ensures Send(link, f).cut == [] || Send(link, f).room == Some(0)
    ensures Send(link, f).room == RoomAfter(link.room, |EncodeFrame(f)|)
  {
    var e := EncodeFrame(f);
    if Sends(link, f) {
      EncodeFramesPush(link.sent, f);
      assert e[..|e|] == e;
      assert Written(link) == EncodeFrames(link.sent) && Written(Send(link, f)) == EncodeFrames(link.sent) + e;
    } else {
      Reassociate(EncodeFrames(link.sent), link.cut, e[..Accepted(link.room, |e|)]);
    }
  }

  predicate Allocated(timers: seq<nat>, mem: Memory) {
    forall i | 0 <= i < |timers| :: timers[i] in mem
  }

  /** The list as a pass meets it. */
  ghost function RefsOf(timers: seq<nat>, mem: Memory): (refs: seq<TimerRef>)
    requires Allocated(timers, mem)
    ensures |refs| == |timers| && forall i | 0 <= i < |timers| :: refs[i] == TimerRef(mem[timers[i]].kind, timers[i])
  {
    seq(|timers|, i requires 0 <= i < |timers| => TimerRef(mem[timers[i]].kind, timers[i]))
  }

  function Expiries(timers: seq<nat>, mem: Memory): (es: seq<Timespec>)
    requires Allocated(timers, mem)
    ensures |es| == |timers| && forall i | 0 <= i < |timers| :: es[i] == mem[timers[i]].expiry
  {
    seq(|timers|, i requires 0 <= i < |timers| => mem[timers[i]].expiry)
  }

  /** A wait of `ms` from the time `clock` passes the timer by less than a millisecond. */
  ghost predicate WokenFor(t: Live, ms: int, clock: nat) {
    ms * NSEC_PER_MS < Later(Ns(t.expiry) - clock, 0) + NSEC_PER_MS
  }

  ghost predicate WokenForAll(live: map<TimerKind, Live>, ms: int, clock: nat) {
    forall k | k in live && Normal(live[k].expiry) :: WokenFor(live[k], ms, clock)
  }

  /** `ms` is the time left to some listed timer, or 0 for one that is overdue. */
  ghost predicate IsTimeLeft(ms: int, timers: seq<nat>, mem: Memory, clock: nat) {
    exists i | 0 <= i < |timers| :: timers[i] in mem && ms == Later(MsLeft(mem[timers[i]].expiry, FromNs(clock)), 0)
  }

  lemma WakesForLive(timers: seq<nat>, mem: Memory, bound: nat, handle: Handles, ms: int, clock: nat)
    requires ListOk(timers, mem, bound) && HandlesOk(handle, mem, None) && Allocated(timers, mem) && 0 <= ms
    requires forall i | 0 <= i < |timers| :: ms <= Later(MsLeft(Expiries(timers, mem)[i], FromNs(clock)), 0)
    ensures WokenForAll(LiveOf(handle, mem, None), ms, clock)
  {
    var live := LiveOf(handle, mem, None);
    forall k | k in live && Normal(live[k].expiry) ensures WokenFor(live[k], ms, clock) {
      ListedIffAllocated(timers, mem, bound, handle[k]);
      var i :| 0 <= i < |timers| && timers[i] == handle[k];
      assert Expiries(timers, mem)[i] == live[k].expiry;
      WakesInTime(live[k].expiry, FromNs(clock), ms);
    }
  }

  lemma ListedAreAllocated(timers: seq<nat>, mem: Memory, bound: nat)
    requires ListOk(timers, mem, bound)
    ensures Allocated(timers, mem) && Existing(RefsOf(timers, mem), bound)
  {
    forall i | 0 <= i < |timers| ensures timers[i] in mem && timers[i] < bound {
      ListedIffAllocated(timers, mem, bound, timers[i]);
    }
  }

  lemma RefsCover(timers: seq<nat>, mem: Memory, bound: nat, handle: Handles)
    requires ListOk(timers, mem, bound) && HandlesOk(handle, mem, None)
    requires Allocated(timers, mem)
    ensures TodoOk(RefsOf(timers, mem), timers, mem)
    ensures var live := LiveOf(handle, mem, None);
            forall k | k in live :: TimerRef(k, live[k].id) in RefsOf(timers, mem)
  {
    var refs := RefsOf(timers, mem);
    forall k | k in LiveOf(handle, mem, None) ensures TimerRef(k, LiveOf(handle, mem, None)[k].id) in refs {
      ListedIffAllocated(timers, mem, bound, handle[k]);
      var i :| 0 <= i < |timers| && timers[i] == handle[k];
      assert refs[i] == TimerRef(k, handle[k]);
    }
  }
}
