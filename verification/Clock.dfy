/** The sec/nsec arithmetic of loop.c: timer expiries, the expiry test and the poll timeout. */
module Clock {
  const NSEC_PER_SEC: nat := 1_000_000_000
  const NSEC_PER_MS: nat := 1_000_000
  const INT_MAX: nat := 0x7fff_ffff

  datatype Timespec = Timespec(sec: int, nsec: int)

  /** C division, which truncates toward zero. */
  function CDiv(a: int, b: int): int
    requires b > 0
  {
    if a >= 0 then a / b else -((-a) / b)
  }

  function CMod(a: int, b: int): int
    requires b > 0
  {
    a - b * CDiv(a, b)
  }

  predicate Normal(t: Timespec) {
    0 <= t.nsec < NSEC_PER_SEC
  }

  /** What clock_gettime returns. */
  type Instant = t: Timespec | Normal(t) witness Timespec(0, 0)

  /** The instant in nanoseconds. */
  function Ns(t: Timespec): int {
    t.sec * NSEC_PER_SEC + t.nsec
  }

  /** clock_gettime at a given instant. */
  function FromNs(ns: nat): (t: Instant)
    ensures Ns(t) == ns
  {
    Timespec(ns / NSEC_PER_SEC, ns % NSEC_PER_SEC)
  }

  /** The expiry that loop_add_timer stores for a delay of `ms` at time `t`. */
  function AddMs(t: Timespec, ms: int): Timespec {
    var sec := t.sec + CDiv(ms, 1000);
    var nsec := CMod(ms, 1000) * NSEC_PER_MS;
    if t.nsec + nsec >= NSEC_PER_SEC then
      Timespec(sec + 1, t.nsec + (nsec - NSEC_PER_SEC))
    else
      Timespec(sec, t.nsec + nsec)
  }

  /** The stored expiry is exactly `ms` after `t` for every delay, negative ones too; it is normalised for
      every delay that is not negative, and otherwise exactly when no borrow is needed. */
  lemma AddMsExact(t: Timespec, ms: int)
    requires Normal(t)
    ensures Ns(AddMs(t, ms)) == Ns(t) + ms * NSEC_PER_MS
    ensures ms >= 0 ==> Normal(AddMs(t, ms))
    ensures Normal(AddMs(t, ms)) <==> t.nsec + CMod(ms, 1000) * NSEC_PER_MS >= 0
  {
    CModBounds(ms);
  }

  lemma CModBounds(ms: int)
    ensures ms == 1000 * CDiv(ms, 1000) + CMod(ms, 1000)
    ensures ms >= 0 ==> 0 <= CMod(ms, 1000) < 1000
    ensures ms < 0 ==> -1000 < CMod(ms, 1000) <= 0
  {}

  /** The test of the dispatch loop. */
  predicate Expired(expiry: Timespec, now: Timespec) {
    expiry.sec < now.sec || (expiry.sec == now.sec && expiry.nsec < now.nsec)
  }

  /** The test is strict order in time, except for an expiry with negative nanoseconds (a negative delay may
      store one): such a timer also waits for its second to begin. */
  lemma ExpiredIsPast(expiry: Timespec, now: Instant)
    requires expiry.nsec < NSEC_PER_SEC
    ensures Expired(expiry, now) <==> Ns(expiry) < Ns(now) && expiry.sec <= now.sec
    ensures Normal(expiry) ==> (Expired(expiry, now) <==> Ns(expiry) < Ns(now))
  {}

  /** No timer passes the test before its delay has strictly passed, whatever the delay: an expiry that a
      negative delay left unnormalised is too low in nanoseconds, never too high. */
  lemma ExpiredAfterDelay(at: nat, ms: int, now: Instant)
    requires Expired(AddMs(FromNs(at), ms), now)
    ensures at + ms * NSEC_PER_MS < Ns(now)
  {
    AddMsExact(FromNs(at), ms);
    CModBounds(ms);
    assert AddMs(FromNs(at), ms).nsec < NSEC_PER_SEC;
  }

  /** Milliseconds left, as loop_poll computes them: the nanosecond difference may be negative and is
      truncated toward zero. */
  function MsLeft(expiry: Timespec, now: Timespec): int {
    (expiry.sec - now.sec) * 1000 + CDiv(expiry.nsec - now.nsec, NSEC_PER_MS)
  }

  lemma MsLeftWithinOneMs(expiry: Timespec, now: Timespec)
    requires Normal(expiry) && Normal(now)
    ensures var left := Ns(expiry) - Ns(now);
            left - NSEC_PER_MS < MsLeft(expiry, now) * NSEC_PER_MS < left + NSEC_PER_MS
  {
    var d := expiry.nsec - now.nsec;
    var q := CDiv(d, NSEC_PER_MS);
    assert d - NSEC_PER_MS < q * NSEC_PER_MS < d + NSEC_PER_MS;
    assert MsLeft(expiry, now) * NSEC_PER_MS == (expiry.sec - now.sec) * NSEC_PER_SEC + q * NSEC_PER_MS;
  }

  ghost predicate InIntRange(expiries: seq<Timespec>, now: Timespec) {
    forall i | 0 <= i < |expiries| :: -(INT_MAX as int) - 1 <= MsLeft(expiries[i], now) <= INT_MAX
  }

  /** The first loop of loop_poll. Flagged timers take part as well, which can only shorten the wait. */
  method PollTimeout(expiries: seq<Timespec>, now: Timespec) returns (ms: int)
    requires InIntRange(expiries, now)
    ensures 0 <= ms <= INT_MAX
    ensures forall i | 0 <= i < |expiries| :: ms <= Later(MsLeft(expiries[i], now), 0)
    ensures ms < INT_MAX ==> exists i | 0 <= i < |expiries| :: ms == Later(MsLeft(expiries[i], now), 0)
  {
    ms := INT_MAX;
    for i := 0 to |expiries|
      invariant ms <= INT_MAX
      invariant forall j | 0 <= j < i :: ms <= MsLeft(expiries[j], now)
      invariant ms == INT_MAX || exists j | 0 <= j < i :: ms == MsLeft(expiries[j], now)
    {
      var timerMs := MsLeft(expiries[i], now);
      if timerMs < ms {
        ms := timerMs;
      }
    }
    if ms < 0 {
      ms := 0;
    }
  }

  function Later(a: int, b: int): int {
    if a > b then a else b
  }

  /** A wait of at most that many milliseconds overshoots the earliest timer by less than one millisecond,
      despite the truncation of negative differences; a timer that is already due never delays the loop
      by a whole millisecond. */
  lemma WakesInTime(expiry: Timespec, now: Timespec, ms: int)
    requires Normal(expiry) && Normal(now)
    requires 0 <= ms <= Later(MsLeft(expiry, now), 0)
    ensures ms * NSEC_PER_MS < Later(Ns(expiry) - Ns(now), 0) + NSEC_PER_MS
  {
    MsLeftWithinOneMs(expiry, now);
  }

  /** When the wait is longer than the time left: exactly when the nanoseconds of the expiry are below those of
      the clock by more than whole milliseconds, so that the truncation of the negative difference rounds up. */
  lemma OvershootExactly(expiry: Timespec, now: Timespec)
    requires Normal(expiry) && Normal(now)
    ensures MsLeft(expiry, now) * NSEC_PER_MS > Ns(expiry) - Ns(now)
            <==> expiry.nsec < now.nsec && (now.nsec - expiry.nsec) % NSEC_PER_MS != 0
  {
    var d := expiry.nsec - now.nsec;
    assert MsLeft(expiry, now) * NSEC_PER_MS - (Ns(expiry) - Ns(now)) == CDiv(d, NSEC_PER_MS) * NSEC_PER_MS - d;
  }

  /** It does happen: with 0.5 ms left across a second boundary the loop waits 1 ms. */
  lemma OvershootIsReal()
    ensures MsLeft(Timespec(1, 0), Timespec(0, 999_500_000)) == 1
    ensures Ns(Timespec(1, 0)) - Ns(Timespec(0, 999_500_000)) == 500_000
  {}
}
