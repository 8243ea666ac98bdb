/** The child process of the shadow backend: read a frame, check a password, write a verdict. */
module Shadow {
  import opened Bytes
  import opened Frames
  import opened Pipes

  /** crypt and strcmp on a C string: None when crypt fails, else whether the hash matches. */
  type Check = seq<Byte> -> Option<bool>

  function VerdictFrame(success: bool): Frame {
    Frame(MSG_AUTH_RESULT, [if success then 1 else 0])
  }

  function VerdictFrames(vs: seq<bool>): seq<Frame> {
    if vs == [] then [] else VerdictFrames(vs[..|vs| - 1]) + [VerdictFrame(vs[|vs| - 1])]
  }

  lemma VerdictFramesPush(vs: seq<bool>, v: bool)
    ensures VerdictFrames(vs + [v]) == VerdictFrames(vs) + [VerdictFrame(v)]
  {
    assert (vs + [v])[..|vs|] == vs;
  }

  /** The passwords in a list of frames, as C strings. */
  function PasswordsIn(fs: seq<Frame>): seq<seq<Byte>> {
    if fs == [] then []
    else if fs[0].typ == MSG_PASSWORD then [CString(fs[0].payload)] + PasswordsIn(fs[1..])
    else PasswordsIn(fs[1..])
  }

  lemma {:induction false} PasswordsConcat(a: seq<Frame>, b: seq<Frame>)
    ensures PasswordsIn(a + b) == PasswordsIn(a) + PasswordsIn(b)
  {
    if a == [] {
      assert a + b == b;
    } else {
      PasswordsConcat(a[1..], b);
      assert (a + b)[0] == a[0] && (a + b)[1..] == a[1..] + b;
    }
  }

  lemma PasswordsPush(fs: seq<Frame>, f: Frame)
    ensures PasswordsIn(fs + [f])
            == if f.typ == MSG_PASSWORD then PasswordsIn(fs) + [CString(f.payload)] else PasswordsIn(fs)
  {
    PasswordsConcat(fs, [f]);
    assert [f][1..] == [];
  }

  /** The verdicts that a list of passwords gets: one each, ending with the first success, or before the
      first password on which crypt fails. */
  function Verdicts(ps: seq<seq<Byte>>, check: Check): seq<bool> {
    if ps == [] || check(ps[0]).None? then []
    else if check(ps[0]).value then [true]
    else [false] + Verdicts(ps[1..], check)
  }

  /** What the verdicts are, without following the loop: the check mapped over the passwords in order and
      cut just after the first success. */
  ghost predicate CheckedInOrder(vs: seq<bool>, ps: seq<seq<Byte>>, check: Check) {
    && |vs| <= |ps|
    && (forall i | 0 <= i < |vs| :: check(ps[i]) == Some(vs[i]))
    && (forall i | 0 <= i < |vs| - 1 :: !vs[i])
    && (|vs| < |ps| ==> (vs != [] && vs[|vs| - 1]) || check(ps[|vs|]) == None)
  }

  lemma {:induction false} VerdictsInOrder(ps: seq<seq<Byte>>, check: Check)
    ensures CheckedInOrder(Verdicts(ps, check), ps, check)
  {
    if ps != [] && check(ps[0]) == Some(false) {
      VerdictsInOrder(ps[1..], check);
      var rest := Verdicts(ps[1..], check);
      var vs := Verdicts(ps, check);
      forall i | 0 <= i < |vs| ensures check(ps[i]) == Some(vs[i]) {
        if i > 0 {
          assert vs[i] == rest[i - 1] && ps[i] == ps[1..][i - 1];
        }
      }
      assert |vs| < |ps| ==> ps[|vs|] == ps[1..][|rest|];
    }
  }

  ghost predicate AllDenied(ps: seq<seq<Byte>>, check: Check) {
    forall i | 0 <= i < |ps| :: check(ps[i]) == Some(false)
  }

  /** While all were denied, the next password gets the next verdict. */
  lemma {:induction false} VerdictsPush(ps: seq<seq<Byte>>, p: seq<Byte>, check: Check)
    requires AllDenied(ps, check)
    ensures Verdicts(ps + [p], check) == Verdicts(ps, check) + if check(p).Some? then [check(p).value] else []
  {
    var all := ps + [p];
    if ps == [] {
      assert all[0] == p && all[1..] == [];
    } else {
      VerdictsPush(ps[1..], p, check);
      assert all[0] == ps[0] && all[1..] == ps[1..] + [p];
    }
  }

  /** There is only one such list. */
  lemma OnlyOneOrder(vs: seq<bool>, ws: seq<bool>, ps: seq<seq<Byte>>, check: Check)
    requires CheckedInOrder(vs, ps, check) && CheckedInOrder(ws, ps, check)
    ensures vs == ws
  {
    assert |vs| == |ws|;
  }

  /** Whether the process ends with EXIT_SUCCESS: after a success, or when the stream ends cleanly with every
      password denied. */
  function EndsWell(ps: seq<seq<Byte>>, last: Received, check: Check): bool {
    if ps == [] then last == EndOfFile
    else if check(ps[0]).None? then false
    else check(ps[0]).value || EndsWell(ps[1..], last, check)
  }

  /** The exit status without following the loop: success if the last verdict was one, or if every password got
      its verdict and the stream ended between frames. */
  lemma {:induction false} EndsWellExactly(ps: seq<seq<Byte>>, last: Received, check: Check)
    ensures var vs := Verdicts(ps, check);
            EndsWell(ps, last, check)
            <==> (vs != [] && vs[|vs| - 1]) || (|vs| == |ps| && last == EndOfFile)
  {
    if ps != [] && check(ps[0]) == Some(false) {
      EndsWellExactly(ps[1..], last, check);
      var rest, vs := Verdicts(ps[1..], check), Verdicts(ps, check);
      assert rest != [] ==> vs[|vs| - 1] == rest[|rest| - 1];
    }
  }

  /** The bytes of a verdict. */
  lemma VerdictIs(success: bool)
    ensures VerdictFrame(success) == Frame(0x81, [if success then 1 else 0])
  {}

  /** What the child makes of a stream: the verdicts and the exit status. */
  function Judged(s: seq<Byte>, check: Check): (seq<bool>, bool) {
    var (fs, last) := ReceiveAll(s);
    (Verdicts(PasswordsIn(fs), check), EndsWell(PasswordsIn(fs), last, check))
  }

  lemma JudgedEnd(s: seq<Byte>, check: Check)
    requires !Receive(s).Message?
    ensures Judged(s, check) == ([], Receive(s) == EndOfFile)
  {}

  lemma JudgedOther(s: seq<Byte>, f: Frame, check: Check)
    requires Receive(s) == Message(f) && f.typ != MSG_PASSWORD
    ensures Judged(s, check) == Judged(s[HEADER + |f.payload|..], check)
  {
    var rest := ReceiveAll(s[HEADER + |f.payload|..]).0;
    assert ([f] + rest)[1..] == rest;
  }

  lemma JudgedPassword(s: seq<Byte>, f: Frame, check: Check)
    requires Receive(s) == Message(f) && f.typ == MSG_PASSWORD
    ensures var c, rest := check(CString(f.payload)), Judged(s[HEADER + |f.payload|..], check);
            Judged(s, check) == if c.None? then ([], false) else if c.value then ([true], true)
                                else ([false] + rest.0, rest.1)
  {
    var (fs, last) := ReceiveAll(s[HEADER + |f.payload|..]);
    assert ([f] + fs)[1..] == fs;
    FirstPassword(CString(f.payload), PasswordsIn(fs), check);
  }

  lemma NextJudgement(s: seq<Byte>, f: Frame, check: Check, done: seq<bool>, all: seq<bool>)
    requires Receive(s) == Message(f) && f.typ == MSG_PASSWORD && all == done + Judged(s, check).0
    ensures var c, rest := check(CString(f.payload)), Judged(s[HEADER + |f.payload|..], check);
            && (c.None? ==> all == done && !Judged(s, check).1)
            && (c == Some(true) ==> all == done + [true] && Judged(s, check).1)
            && (c == Some(false) ==> all == done + [false] + rest.0 && Judged(s, check).1 == rest.1)
  {
    JudgedPassword(s, f, check);
  }

  ghost function VerdictBytes(vs: seq<bool>): seq<Byte> {
    EncodeFrames(VerdictFrames(vs))
  }

  method WriteVerdict(output: WriteEnd, v: bool, ghost start: seq<Byte>, ghost room: Option<nat>, ghost done: seq<bool>)
    returns (ok: bool)
    requires Reliable(output.sched) && Wrote(output.written, output.room, start, room, VerdictBytes(done))
    modifies output
    ensures Reliable(output.sched) && Wrote(output.written, output.room, start, room, VerdictBytes(done + [v]))
    ensures Passes(room, VerdictBytes(done)) ==> ok == Passes(room, VerdictBytes(done + [v]))
  {
    ghost var mid, between := output.written, output.room;
    ok := CommWrite(output, VerdictFrame(v));
    NextVerdict(done, v);
    WroteMore(start, room, mid, between, output.written, output.room, VerdictBytes(done), EncodeFrame(VerdictFrame(v)));
  }

  /** run_pw_backend_child: the verdicts written are those of the passwords received, whatever other frames come
      between, up to the byte at which the main process goes away; in that case the child fails. */
  method RunChild(input: ReadEnd, output: WriteEnd, check: Check) returns (well: bool)
    requires Reliable(input.sched) && Reliable(output.sched)
    modifies input, output
    ensures var verdicts := VerdictBytes(Judged(old(input.stream), check).0);
            && output.written == old(output.written) + Through(old(output.room), verdicts)
            && well == (Judged(old(input.stream), check).1 && Passes(old(output.room), verdicts))
  {
    ghost var all := Judged(input.stream, check);
    ghost var start, room := output.written, output.room;
    ghost var done: seq<bool> := [];
    assert VerdictBytes([]) == [];
    assert [] + all.0 == all.0;
    while true
      invariant Reliable(input.sched) && Reliable(output.sched)
      invariant Wrote(output.written, output.room, start, room, VerdictBytes(done)) && Passes(room, VerdictBytes(done))
      invariant all == (done + Judged(input.stream, check).0, Judged(input.stream, check).1)
      decreases |input.stream|
    {
      ghost var s := input.stream;
      var r := CommRead(input);
      if !r.Message? {
        JudgedEnd(s, check);
        assert done + [] == done;
        return r.EndOfFile?;
      }
      if r.frame.typ != MSG_PASSWORD {
        JudgedOther(s, r.frame, check);
        continue;
      }
      var c := check(CString(r.frame.payload));
      NextJudgement(s, r.frame, check, done, all.0);
      if c.None? {
        return false;
      }
      var ok := WriteVerdict(output, c.value, start, room, done);
      done := done + [c.value];
      if !ok {
        MoreVerdicts(done, all.0);
        WroteCut(start, room, output.written, output.room, VerdictBytes(done), VerdictBytes(all.0));
        return false;
      }
      if c.value {
        return true;
      }
    }
  }

  lemma FirstPassword(p: seq<Byte>, ps: seq<seq<Byte>>, check: Check)
    ensures check(p).None? ==> Verdicts([p] + ps, check) == []
    ensures check(p) == Some(true) ==> Verdicts([p] + ps, check) == [true]
    ensures check(p) == Some(false) ==> Verdicts([p] + ps, check) == [false] + Verdicts(ps, check)
    ensures EndsWell([p] + ps, EndOfFile, check)
            == (check(p).Some? && (check(p).value || EndsWell(ps, EndOfFile, check)))
    ensures EndsWell([p] + ps, Failure, check) == (check(p).Some? && (check(p).value || EndsWell(ps, Failure, check)))
  {
    assert ([p] + ps)[1..] == ps;
  }

  lemma NextVerdict(done: seq<bool>, v: bool)
    ensures VerdictBytes(done + [v]) == VerdictBytes(done) + EncodeFrame(VerdictFrame(v))
  {
    VerdictFramesPush(done, v);
    EncodeFramesPush(VerdictFrames(done), VerdictFrame(v));
  }

  lemma {:induction false} VerdictFramesConcat(a: seq<bool>, b: seq<bool>)
    ensures VerdictFrames(a + b) == VerdictFrames(a) + VerdictFrames(b)
  {
    if b == [] {
      assert a + b == a;
    } else {
      var init, v := b[..|b| - 1], b[|b| - 1];
      VerdictFramesConcat(a, init);
      VerdictFramesPush(a + init, v);
      VerdictFramesPush(init, v);
      assert b == init + [v] && a + b == a + init + [v];
    }
  }

  lemma MoreVerdicts(some: seq<bool>, all: seq<bool>)
    requires some <= all
    ensures VerdictBytes(some) <= VerdictBytes(all)
  {
    var rest := all[|some|..];
    assert all == some + rest;
    VerdictFramesConcat(some, rest);
    EncodeFramesConcat(VerdictFrames(some), VerdictFrames(rest));
  }
}
