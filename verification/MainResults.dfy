/** What every run of the main process promises, spelled out. */
module MainResults {
  import opened Frames
  import opened Clock
  import opened MainSpec
  import opened MainRuns
  import opened MainPasses

  /** The denied results among the messages of a run. */
  ghost function DeniedIn(es: seq<Event>): nat {
    if es == [] then 0
    else DeniedIn(es[1..]) + if es[0].FromChild? && IsDenial(es[0].frame) then 1 else 0
  }

  ghost predicate IsDenial(f: Frame) {
    f.typ == 0x81 && (f.payload == [] || f.payload[0] != 1)
  }

  lemma {:induction false} DeniedCounted(m: Main, es: seq<Event>)
    requires Inv(m) && IsRun(m, es)
    ensures After(m, es).hist.denied == m.hist.denied + DeniedIn(es)
    decreases |es|
  {
    if es != [] {
      StepKeeps(m, es[0]);
      if es[0].FromChild? {
        MessagePipe(m, es[0].frame, es[0].json);
      } else {
        EventPipe(m, es[0]);
      }
      DeniedCounted(Step(m, es[0]), es[1..]);
    }
  }

  /** Attempts: every denied result is shown as a failure, and a submission is charged at most once, whether
      a result or a stage change reports it. */
  lemma AttemptsCounted(m: Main, es: seq<Event>)
    requires Initial(m) && IsRun(m, es)
    ensures var k := After(m, es);
            && DeniedIn(es) <= k.failed
            && k.failed + (if k.auth == Validating then 1 else 0) <= DeniedIn(es) + k.hist.started
  {
    InitialInv(m);
    RunKeeps(m, es);
    DeniedCounted(m, es);
  }

  /** Neither indicator can stick: whenever one shows something to be taken down, its timer is live and due
      within its delay. */
  lemma IndicatorsTimed(m: Main, es: seq<Event>)
    requires Initial(m) && IsRun(m, es)
    ensures var k := After(m, es);
            && (k.input != InputIdle <==> InputIdleTimer in k.live)
            && (k.auth == Invalid ==> AuthIdleTimer in k.live)
            && (InputIdleTimer in k.live ==> Ns(k.live[InputIdleTimer].expiry) <= k.clock + 1500 * NSEC_PER_MS)
            && (AuthIdleTimer in k.live ==> Ns(k.live[AuthIdleTimer].expiry) <= k.clock + 3000 * NSEC_PER_MS)
  {
    InitialInv(m);
    RunKeeps(m, es);
  }

  /** A list entry is only ever read at a valid index: selections start at -1 and stay within the list, or at
      0 for an empty one. */
  lemma SelectionsBounded(m: Main, es: seq<Event>)
    requires Initial(m) && IsRun(m, es)
    ensures var a := After(m, es).authd;
            && -1 <= a.selBroker <= Later(0, |a.brokers| - 1)
            && -1 <= a.selMode <= Later(0, |a.modes| - 1)
  {
    InitialInv(m);
    RunKeeps(m, es);
  }

  /** Timers fire at most once, strictly after the delay they were set with has passed, and never again stand
      behind a handle. Those delays are 1.5 s, 3 s and 10 s, or for a key repeat what the compositor asked for. */
  lemma FiredOnce(m: Main, es: seq<Event>)
    requires Initial(m) && IsRun(m, es)
    ensures var k := After(m, es);
            && (forall i, j | 0 <= i < j < |k.hist.fired| :: k.hist.fired[i].timer.id != k.hist.fired[j].timer.id)
            && (forall i | 0 <= i < |k.hist.fired| :: WaitedOut(k.hist.fired[i]))
            && (forall i, t | 0 <= i < |k.hist.fired| && t in k.live :: k.live[t].id != k.hist.fired[i].timer.id)
  {
    InitialInv(m);
    RunKeeps(m, es);
    var k := After(m, es);
    forall i | 0 <= i < |k.hist.fired|
      ensures FiringOk(k.live, k.nextId, k.hist.fired[i]) && WaitedOut(k.hist.fired[i])
    {
      var f := k.hist.fired[i];
      assert FiringOk(k.live, k.nextId, f);
      ExpiredAfterDelay(f.timer.at, f.timer.ms, f.now);
    }
  }

  ghost predicate WaitedOut(f: Firing) {
    && f.timer.at + f.timer.ms * NSEC_PER_MS < Ns(f.now)
    && (f.kind == InputIdleTimer ==> f.timer.ms == 1500)
    && (f.kind == AuthIdleTimer ==> f.timer.ms == 3000)
    && (f.kind == ClearTimer ==> f.timer.ms == 10000)
  }

  /** In every run, a dispatch pass leaves a password standing only if a key came within the ten seconds before
      it; and with no key repeat due, a pass later than that clears it. */
  lemma PasswordExpires(m: Main, es: seq<Event>, todo: seq<TimerRef>)
    requires Initial(m) && IsRun(m, es) && Covers(todo, After(m, es))
    ensures var k := After(m, es);
            && (Pass(k, todo).pw != [] ==> PassTime(k) <= Pass(k, todo).hist.lastKey + 10 * NSEC_PER_SEC)
            && (PassTime(k) > k.hist.lastKey + 10 * NSEC_PER_SEC && NoRepeatDue(k, FromNs(PassTime(k)))
                ==> Pass(k, todo).pw == [])
  {
    InitialInv(m);
    RunKeeps(m, es);
    var k := After(m, es);
    PasswordDeadline(k, todo);
    if PassTime(k) > k.hist.lastKey + 10 * NSEC_PER_SEC && NoRepeatDue(k, FromNs(PassTime(k))) {
      QuietPassClears(k, todo);
    }
  }
}
