# A verified model of swaylock-authd

swaylock-authd is a screen locker in two processes. The main process handles keys, timers and messages and
decides when the screen is unlocked. The child process runs the authentication, through PAM or against the
shadow file. They talk over two pipes with a hand-written frame format. This project models that logic in
Dafny and proves what it guarantees.

`dafny verify dfyconfig.toml` checks everything.

## How it is built

- `Bytes`, `Utf8`, `PasswordBuffer`: the password is a byte array edited in place; it is proved to hold a
  stack of code points in UTF-8 at all times, for every 32-bit code point.
- `Frames`, `Pipes`: the frame codec, and the blocking reads and writes under it. A pipe end carries a schedule
  that decides how many bytes each call moves, or that it is interrupted; the results never depend on it. A
  write end also carries the number of bytes its reader will still take, which models a reader that goes away.
- `Clock`: sec/nsec arithmetic with C's truncating division.
- `MainSpec`: the main process as a state machine on abstract data. Its live timers are a map from handles to
  timers, its password is a stack, and every clock reading may come later than the one before. `MainRuns` proves
  what every step keeps, `MainPasses` what a whole dispatch pass does, and `MainResults` states the results for all
  runs.
- `Typing`: the same process without timers and clock, as a desk with a stack of characters on it, written out in
  plain terms and with the bytes of the protocol. Given which timers rang, the desk is a function of the events, and
  every run agrees with it. `Messages` says what each message of the child does and what they add up to, `TimerRuns`
  which timers run and with what delays, and `Deadline` which of them ring in a pass, given which were due when it
  began.
- `Locker`: the same process as the C code keeps it, in a class: timer objects in memory, a list linked at its
  head, removal by flag, handles that may or may not be NULL, the byte buffer, the pipe. Each method is proved
  to do what `MainSpec` says, and to keep the handle invariant (`HandlesOk`), the list invariant (`ListOk`) and
  the conservation law (`Conserved`: timers added = fired + reaped + still listed). The dispatch pass is a loop
  over the list while callbacks add to it. `Run` drives the object through any sequence of events and ties it to a
  run of the abstract machine.
- `Shadow`, `Pam`: the two backends. `crypt` and PAM are functions or inputs chosen from outside.
- `TwoProcesses`: both processes and both pipes as one transition system, with a step for every piece of every
  read and write. A run is any sequence of enabled steps.
- `Extensions`, `Pixbuf`, `LogRing`, `ImagePath`, `SelectionWindow`: the smaller algorithms.

Main results: `TwoProcesses.UnlockNeedsSuccess`, `TwoProcesses.SuccessUnlocks`, `TwoProcesses.NoResultAfterSuccess`,
`TwoProcesses.PasswordIntegrity`, `TwoProcesses.TypedIsReceived`, `TwoProcesses.ShadowJudges`,
`TwoProcesses.SecretsAreTyped`, `MainResults.*`,
`MainPasses.PassExact`, `TimerRuns.RunDelays`, `Messages.FailuresCounted`, `Locker.Process.Run`,
`Locker.Process.DispatchTimers`, `Typing.RunTyped`,
`Deadline.PassRings`, `Deadline.LatePassExactly`, `Frames.ReceiveAllCut`, `Pam.ResponsesSay`,
`Pam.HandleConversation`, `Extensions.LookUpFindsItself`, `Pixbuf.Convert`.

Where a plausible claim is false of the code, the code is kept and the exact condition is proved:

- A password does not always vanish in a dispatch pass more than ten seconds after the last key. A held key that
  repeats in that same pass replaces the clear timer before the pass reaches it
  (`MainPasses.RepeatOutlivesDeadline`). In such a late pass, a password stands if and only if the timers that were
  due when it began, taken in list order and each unless an earlier one renewed it, leave one on the desk
  (`Deadline.LatePassExactly`, for any number of seats). In closed form: none if no key repeats
  (`MainPasses.QuietPassClears`), and for the key of one seat `Deadline.OneRepeatExactly`. What stands has always
  seen a key within the ten seconds before the pass (`MainPasses.PasswordDeadline`).
- A frame survives the pipe exactly when its type is not 0 and its payload has at most 2^20 bytes
  (`Frames.RoundTripExactly`). A type 0 reads as the end of the stream, although the comment in `comm.h` only
  speaks of types above 0.
- A code point survives encoding exactly when it is below 0x200000 (`Utf8.DecodeEncode`); the lead byte announces
  the right length exactly when bit 21 is clear (`Utf8.SizeAgrees`).
- Looking up an advertised extension finds it exactly when no earlier name is a prefix of it
  (`Extensions.LookUpFindsItself`, with `Extensions.PrefixIsMistaken`).
- The poll timeout overshoots a timer exactly when the nanoseconds of the expiry are below those of the clock by
  more than whole milliseconds (`Clock.OvershootExactly`), and by less than a millisecond (`Clock.WakesInTime`).

## Model

| member | source | states |
|---|---|---|
| `Bytes.CString` | comm.c:120-134 | the part of a payload that C code sees as a string: a NUL-free prefix that ends at a NUL or at the end |
| `Bytes.CStringOfTerminated` | comm.c:180-193 | a NUL-free string that is sent with its terminator is seen unchanged |
| `Utf8.EncodeAt` | unicode.c:29-54 | the descending loop writes exactly the encoding and touches nothing else |
| `Utf8.EncodeFollowsRfc3629` | unicode.c:29-54 | the bytes are those of the table in section 3 of RFC 3629, for every 32-bit value (extended above 0x200000) |
| `Utf8.EncodeShape` | unicode.c:29-54 | only the first byte is not a continuation byte, and only code point 0 contains a NUL |
| `Utf8.DecodeEncode` | unicode.c:29-54 | decoding gives the code point back if and only if it is below 0x200000 |
| `Utf8.Size` | unicode.c:57-79 | the mask table amounts to ranges of the lead byte; the six-octet row is never reached |
| `Utf8.SizeAgrees` | unicode.c:18-27 | announced size and size written agree if and only if bit 21 is clear |
| `Utf8.LastSizeOfEncoded` | unicode.c:6-16 | the backwards scan measures exactly the last encoded character |
| `Utf8.DropLastUndoesAppend` | password.c:30-48 | at byte level, backspace undoes an append of any 32-bit code point |
| `Utf8.DecodeAllEncodeAll` | unicode.c:6-54 | a string of code points below 0x200000 is recovered from its bytes |
| `Utf8.EncodeAllInjective` | unicode.c:29-54 | two such strings with the same bytes are the same string |
| `PasswordBuffer.Password.constructor` | main.c:1489-1495 | the buffer starts as the empty stack |
| `PasswordBuffer.Password.Clear` | password.c:16-28 | every byte becomes 0 and the stack empty |
| `PasswordBuffer.ScanLastSize` | unicode.c:6-16 | the result is the distance from the first NUL back to the nearest lead byte |
| `PasswordBuffer.Password.FirstNulIsLen` | password.c:30-48 | the first NUL of the buffer is at index len |
| `PasswordBuffer.Password.Backspace` | password.c:30-37 | removes exactly the last code point, or reports that there is none |
| `PasswordBuffer.Password.Append` | password.c:39-48 | pushes the code point if it fits, else changes nothing |
| `PasswordBuffer.Pushed` | password.c:39-48 | one byte beyond the terminator stays free |
| `Frames.LengthField` | comm.c:74-88 | storing and loading the length keeps its low 32 bits |
| `Frames.FrameBytes` | comm.c:141-158 | the bytes of a frame: type, length with the lowest byte first, payload |
| `Frames.AnnouncedIs` | comm.c:74-79 | the length that a header announces, from its four bytes |
| `Frames.ReceiveExactly` | comm.c:97-139 | for any bytes: when a read gives a message, the end of the stream, or an error |
| `Frames.ReceiveEncoded` | comm.c:97-158 | a frame is read back whatever follows it |
| `Frames.ReceiveCut` | comm.c:97-139 | a stream that ends inside a frame is an error |
| `Frames.RoundTripExactly` | comm.c:97-158 | a frame comes back if and only if its type is not 0 and its payload at most 2^20 bytes |
| `Frames.ReceiveAllThenCut` | comm.c:97-158 | frames followed by part of another: all the frames, then an error, or the end of the stream if the part is empty |
| `Frames.ReceiveAllEncoded` | comm.c:97-158 | repeated reads return exactly the frames written |
| `Frames.ReceiveAllCut` | comm.c:97-158 | cut at any byte: the complete frames, then the end of the stream if and only if the cut lies between frames |
| `Frames.NextFrameIsNextSent` | comm.c:97-158 | at any point of any schedule a whole frame taken from the pipe is the next one sent |
| `Frames.SendableIsProper` | comm.c:97-158 | whatever such a writer leaves in the pipe fails only at its end |
| `Pipes.ReadFull` | comm.c:32-54 | for every schedule: all bytes, or 0 at the end of the stream, or -1 inside |
| `Pipes.CommRead` | comm.c:97-139 | the result depends on the bytes alone, not on how reads were split or interrupted |
| `Pipes.CommReadAll` | comm.c:97-139 | repeated reads give the frames of the stream and how it ended |
| `Pipes.WriteFull` | comm.c:56-72 | all bytes go out, or the prefix that the reader still took |
| `Pipes.CommWrite` | comm.c:141-158 | the three parts add up to the encoded frame, or to such a prefix; the result tells which |
| `Clock.AddMsExact` | loop.c:161-169 | the expiry is exactly the delay later for every delay, and normalised for every delay that is not negative |
| `Clock.ExpiredIsPast` | loop.c:117-119 | the expiry test is strict order in time on normalised expiries; otherwise it also waits for the second of the expiry |
| `Clock.ExpiredAfterDelay` | loop.c:117-119 | no timer is past due before its delay has strictly passed, negative delays included |
| `Clock.MsLeftWithinOneMs` | loop.c:71-77 | the truncated difference is less than 1 ms off, either way |
| `Clock.PollTimeout` | loop.c:65-81 | the timeout is the least of the times left, cut to 0 and INT_MAX: below all of them, and one of them if below INT_MAX |
| `Clock.WakesInTime` | loop.c:65-81 | a wait that long passes no timer by a millisecond |
| `Clock.OvershootExactly` | loop.c:71-77 | the wait is longer than the time left if and only if the negative nanosecond difference is not whole milliseconds |
| `Clock.OvershootIsReal` | loop.c:71-77 | an input where it is, by half a millisecond |
| `MainRuns.ScheduleKeeps` | password.c:64-103 | restarting a timer changes its handle only, names a new timer, and that is due exactly its delay later |
| `MainRuns.SubmitKeeps` | password.c:113-142 | submitting keeps the invariant, whether or not the child takes the password |
| `MainRuns.ListKeyKeeps` | password.c:153-216 | list keys keep the invariant, selections stay in bounds |
| `MainRuns.TypingKeyKeeps` | password.c:227-304 | typing keys keep the invariant |
| `MainRuns.HandleKeyKeeps` | password.c:150-305 | a key event keeps the invariant; every live timer after it is new or the one it was |
| `MainRuns.KeyboardKeyKeeps` | seat.c:66-94 | a press or release keeps the invariant, with its repeat timer |
| `MainRuns.FireKeeps` | password.c:50-94 | a timer that fires keeps the invariant, whatever its callback does |
| `MainRuns.PassKeeps` | loop.c:105-126 | so does a whole dispatch pass |
| `MainRuns.MessageKeeps` | main.c:1157-1379 | so does every message of the child |
| `MainRuns.InitialInv` | main.c:1420-1430 | the state that main() sets up satisfies the invariant |
| `MainRuns.StepKeeps` | password.c:150-305 | every event keeps the invariant |
| `MainRuns.RunKeeps` | main.c:1634-1641 | the invariant holds after every run of events |
| `MainPasses.PassFromExact` | loop.c:110-125 | no timer listed at the start is live and past due at the end; what else is live is new |
| `MainPasses.PassFromListed` | loop.c:110-125 | every firing of the pass is of a timer that was listed when it began |
| `MainPasses.PassExact` | loop.c:105-126 | the same for a pass that meets every live timer; a timer added during the pass does not fire in it |
| `MainPasses.PasswordDeadline` | password.c:87-103 | after a pass a standing password has seen a key within the ten seconds before it |
| `MainPasses.QuietPassClears` | password.c:87-103 | with no repeat due, a pass later than that leaves no password |
| `MainPasses.RepeatOutlivesDeadline` | seat.c:58-64 | a run in which a repeat keeps the password alive past ten seconds |
| `Deadline.HandleKeyTracks` | password.c:150-305 | which timers a key restarts or cancels; all other handles name the timer they did |
| `Deadline.FireTracks` | password.c:50-94 | the same for every callback |
| `Deadline.PassRings` | loop.c:105-126 | for every pass: the timers that ring, in order, and the state left follow from those due when it began, each ringing unless an earlier one renewed it |
| `Deadline.LatePassExactly` | password.c:87-103 | a pass over ten seconds after the last key leaves a password if and only if that fold does, for any number of repeating seats |
| `Deadline.OneRepeatExactly` | seat.c:58-64 | in closed form for one repeating key: it types, or erases or holds part of what remains |
| `Typing.StrokeMeans` | password.c:150-305 | the reading of keys by screen and Control agrees with the switch and its fall-throughs |
| `Typing.ListKeyDesk` | password.c:155-216 | a list key moves the selection by one within the list, or sends the identifier at it and a NUL as 0x02 or 0x03, or a cancellation 0x05 |
| `Typing.HandleKeyDesk` | password.c:150-305 | every key does to the password, the indicators, the deliveries, the lists and the pipe what the desk says |
| `Typing.MessageDesk` | main.c:1157-1379 | so does every message |
| `Typing.PassDesk` | loop.c:105-126 | so does a pass, given the timers that rang |
| `Typing.RunTyped` | password.c:150-305 | in every run the password is the stack of characters typed and not erased since it was last emptied, the deliveries are those stacks, and indicators, counters, lists and pipe are as written out |
| `TimerRuns.HandleKeyDelays` | password.c:64-111 | which of the three timers each key starts, restarts or stops, with 1.5, 3 and 10 seconds |
| `TimerRuns.FireDelays` | password.c:50-94 | the same for each callback; a repeat rearms with the period of its seat |
| `TimerRuns.KeyArms` | seat.c:66-94 | a press arms the repeat timer of its seat for the delay after the press; a release, or a press without a period, disarms it |
| `TimerRuns.RepeatArms` | seat.c:58-64 | a repeat arms it again for the period after the firing |
| `TimerRuns.RunDelays` | password.c:50-111 | in every run the timers that run, and their delays, are those of these rules |
| `Typing.TypedIsSent` | password.c:113-142 | after any run, an Enter that counts hands over exactly that stack: one frame, its encoding and one NUL, if the child takes it |
| `MainPasses.EventPipe` | comm.c:172-174 | events only add frames and bytes to the pipe, and none but a stop request ends the loop |
| `MainPasses.MessagePipe` | main.c:1157-1379 | a message writes nothing, and ends the loop if and only if it has type 0x81 and a payload that starts with 1 |
| `Messages.ResultMeans` | main.c:1158-1174 | such a result does nothing else; any other result makes the indicator invalid and counts one failure |
| `Messages.BrokersOpen` | main.c:1176-1219 | a broker list opens the broker screen at the first entry and stores its first 256 entries in order; the auth modes are untouched; one that cannot be stored leaves the screen |
| `Messages.ModesOpen` | main.c:1221-1264 | the same for the auth modes |
| `Messages.MessageTimers` | main.c:1164-1172 | a failure restarts the indicator's timer with 3 seconds; no message touches any other timer |
| `Messages.FailuresCounted` | main.c:1318-1350 | the failed attempts of a run are exactly its denied results and its stage changes while validating |
| `MainResults.DeniedCounted` | main.c:1164-1173 | the denied results recorded are those among the messages of the run |
| `MainResults.AttemptsCounted` | main.c:1318-1350 | denied results <= failed attempts, and failed attempts plus one under way <= denied results + submissions |
| `MainResults.IndicatorsTimed` | password.c:50-94 | the input indicator shows something if and only if its timer is live; "wrong" implies a live timer; both are due in time |
| `MainResults.SelectionsBounded` | main.c:1176-1264 | both selections lie in -1 .. max(0, count - 1) |
| `MainResults.FiredOnce` | loop.c:110-125 | no timer fires twice, none fires before the delay it was set with has strictly passed (1.5, 3 and 10 seconds for the three handles), none that fired is behind a handle |
| `MainResults.PasswordExpires` | password.c:87-111 | the password deadline, for every run |
| `Locker.Process.constructor` | main.c:1420-1495 | the process starts in the initial state |
| `Locker.Process.AddTimer` | loop.c:151-174 | a new object is linked at the head, due after the delay |
| `Locker.Process.RemoveTimer` | loop.c:194-203 | flags the timer if it is listed, and unlinks nothing |
| `Locker.Process.Cancel` | password.c:72-77 | the handle becomes NULL and its timer flagged; all other handles stay alive |
| `Locker.Process.Schedule` | password.c:64-70 | the handle names a new timer and the old one is flagged; all other handles stay alive |
| `Locker.Process.Wipe` | password.c:252-258 | refines the abstract wipe |
| `Locker.Process.BackspaceKey` | password.c:232-251 | refines the abstract step, on bytes |
| `Locker.Process.LetterKey` | password.c:294-303 | refines the abstract step, on bytes |
| `Locker.Process.WriteCommPassword` | comm.c:180-193 | every byte of the buffer is cleared in every case, and the frame sent is the encoding of the stack and one NUL |
| `Locker.Process.SubmitPassword` | password.c:113-142 | refines the abstract submission |
| `Locker.Process.ListKey` | password.c:155-216 | refines the abstract step; list indices are in bounds |
| `Locker.Process.TypingKey` | password.c:227-304 | the switch with its fall-throughs amounts to the classification of keys |
| `Locker.Process.HandleKey` | password.c:150-305 | refines the abstract key event |
| `Locker.Process.RepeatInfo` | seat.c:120-130 | refines the abstract step |
| `Locker.Process.KeyboardKey` | seat.c:66-94 | refines the abstract step |
| `Locker.Process.CommIn` | main.c:1157-1379 | refines the abstract message step |
| `Locker.Process.Stage` | main.c:1318-1350 | a stage change while validating counts as a failure |
| `Locker.Process.SetInputIdle` | password.c:50-55 | the callback drops its own handle first; refines the abstract callback |
| `Locker.Process.SetAuthIdle` | password.c:57-62 | the same |
| `Locker.Process.ClearPasswordTimer` | password.c:87-94 | the same |
| `Locker.Process.KeyboardRepeat` | seat.c:58-64 | the callback overwrites its own handle; refines the abstract callback |
| `Locker.Process.FireTimer` | loop.c:120-124 | the fired timer is unlinked after its callback, wherever additions have pushed it |
| `Locker.Process.MeetTimer` | loop.c:110-125 | one round reaps a flagged timer, fires a due one, or passes it; the rest of the list is still to come |
| `Locker.Process.DispatchTimers` | loop.c:105-126 | the loop terminates and ends in the state of one abstract pass over exactly the timers listed at its start, in list order |
| `Locker.Process.PollTimeout` | loop.c:65-81 | computed from the timer list: a wait that long passes no live, normalised timer by a millisecond, and below INT_MAX it is the time left to a listed one |
| `Locker.Process.KeyboardModifiers` | seat.c:96-118 | Control follows the keyboard once a keymap is loaded |
| `Locker.Process.Handle` | main.c:1634-1641 | every event takes the object through one abstract step |
| `Locker.Process.Run` | main.c:1634-1641 | any sequence of events takes it through an abstract run; handles, list, conservation and pipe bytes are in order after it |
| `TwoProcesses.TakeIsNextSent` | comm.c:97-139 | a whole frame taken from a channel is the next frame sent on it |
| `TwoProcesses.MainEventKeeps` | main.c:1634-1641 | an event of the main process keeps the system invariant |
| `TwoProcesses.MainTakeKeeps` | main.c:1138-1174 | so does a message that it takes |
| `TwoProcesses.ShadowKeeps` | shadow.c:66-98 | so does a frame that the shadow backend takes |
| `TwoProcesses.PamReturnKeeps` | pam.c:582-593 | so does a return of pam_authenticate |
| `TwoProcesses.SysRunKeeps` | main.c:1634-1641 | the system invariant holds after every run |
| `TwoProcesses.UnlockNeedsSuccess` | main.c:1634-1645 | unlocked and not stopped from outside implies that the run contains a return of PAM_SUCCESS, or that crypt matched a submitted password |
| `TwoProcesses.SuccessUnlocks` | main.c:1158-1163 | the converse: if nothing stops the loop from outside, it has ended if and only if the frame 0x81 with payload 1 was taken, which the child writes exactly when its backend succeeds |
| `TwoProcesses.PamJudges` | pam.c:582-593 | in every run the verdicts of the PAM backend are those of what pam_authenticate returned, up to the first status other than PAM_AUTH_ERR |
| `TwoProcesses.NoResultAfterSuccess` | pam.c:582-593 | after a success the child writes no further result, in any run |
| `TwoProcesses.PasswordIntegrity` | password.c:113-142 | the k-th password that the child receives is the k-th submitted stack in UTF-8, one NUL, at most 1023 bytes, no NUL inside |
| `TwoProcesses.ShadowJudges` | shadow.c:66-98 | in every run the verdicts of the shadow backend are the check over the passwords received, in order, up to the first success |
| `TwoProcesses.TypedIsReceived` | password.c:113-142 | end to end: the k-th password received is the k-th stack that the keys of the run left on the desk at an accepted Enter |
| `TwoProcesses.SecretsAreTyped` | pam.c:93-135 | polls and prompts of every run form one conversation over the frames received, and the k-th password they hand to PAM modules is the k-th stack typed |
| `Shadow.VerdictsInOrder` | shadow.c:66-98 | the verdicts are the check mapped over the passwords in order, cut after the first success |
| `Shadow.OnlyOneOrder` | shadow.c:66-98 | that description determines the verdicts |
| `Shadow.EndsWellExactly` | shadow.c:78-102 | the exit status: success after a success, or when every password was judged and the stream ended between frames |
| `Shadow.RunChild` | shadow.c:64-102 | the loop writes exactly those verdicts for every stream and schedule, cut at the byte at which the reader leaves; its exit status is as specified, and failure in that case |
| `Pam.Conversation.Poll` | pam.c:412-533 | the response is the greeting once and then the translation of the frames taken; it takes one whenever poll() says so, and stops only at 64 events, a poll() that says no, or the end of the stream; none is left pending |
| `Pam.NextPassword` | pam.c:111-123 | takes frames up to the next password, and drops only others |
| `Pam.Prompt` | pam.c:98-135 | writes the frame 0x85 with payload 3, up to the byte at which the reader leaves, and answers with that password |
| `Pam.BatchingRefinesTranslation` | pam.c:412-533 | over any conversation the responses together are one greeting and the frame-by-frame translation of what polls took |
| `Pam.TranslationSays` | pam.c:449-510 | frames 0x01 to 0x05 become, in order, the events that say the same: password, broker, auth mode, reselection, cancellation; others become nothing |
| `Pam.ResponsesSay` | pam.c:412-533 | over any conversation the responses name the user once, first, and then say event by event what the polled frames said |
| `Pam.PollSays` | pam.c:428-520 | the same for one poll, with at most 64 events |
| `Pam.PromptsInOrder` | pam.c:93-135 | prompt k gets the k-th password that prompts took |
| `Pam.SecretsInOrder` | pam.c:93-135 | together, secrets of events and answers are the passwords taken, in order |
| `Pam.NothingLost` | pam.c:93-135 | polls and prompts together take the frames in order, with none lost or doubled |
| `Pam.HandleConversation` | pam.c:79-135 | any mix of polls and prompts answers as such a conversation, for every way the pipe splits its reads; it stops early exactly at an unanswered prompt, and writes one stage frame per prompt |
| `Pam.AttemptedOnce` | pam.c:582-593 | one result per attempt, a success only as the last, and none after a status other than PAM_AUTH_ERR |
| `Pam.Authenticate` | pam.c:582-602 | the loop writes exactly those results, cut at the byte at which the reader leaves, and ends well if and only if one is a success and pam_end succeeds |
| `Extensions.CountNames` | include/gdm/gdm-pam-extensions-common.h:91-100 | takes the longest run of names that fits, at most 255 |
| `Extensions.PrintNames` | include/gdm/gdm-pam-extensions-common.h:101-108 | prints the names separated by single spaces, in bounds |
| `Extensions.SizeIsLength` | include/gdm/gdm-pam-extensions-common.h:83-99 | the size accounting is the exact length of the string |
| `Extensions.Advertise` | include/gdm/gdm-pam-extensions-common.h:81-111 | the block holds the setting and its terminator, within its bounds |
| `Extensions.LookUpType` | include/gdm/gdm-pam-extensions-common.h:113-139 | finds the first of the first 256 words that is a prefix of the name |
| `Extensions.InvalidType` | include/gdm/gdm-pam-extensions-common.h:50-71 | a type is invalid if and only if it is not below the number of non-empty words |
| `Extensions.WordsAreText` | include/gdm/gdm-pam-extensions-common.h:122-133 | for any text: words contain no spaces, none but the first is empty, and together they are the text without its spaces |
| `Extensions.NonEmptyIs` | include/gdm/gdm-pam-extensions-common.h:50-71 | the count of types leaves out at most an empty first word |
| `Extensions.WordsOfJoin` | include/gdm/gdm-pam-extensions-common.h:101-133 | parsing what was printed gives the names back |
| `Extensions.LookUpFindsItself` | include/gdm/gdm-pam-extensions-common.h:113-139 | name i is found at i if and only if no earlier name is a prefix of it |
| `Extensions.AdvertisedIsFound` | include/gdm/gdm-pam-extensions-common.h:81-139 | from the block to the look-up: behind `GDM_SUPPORTED_PAM_EXTENSIONS=` stands the text in which name i is found at i, if and only if no earlier name is a prefix of it |
| `Extensions.ValidTypesAreIndices` | include/gdm/gdm-pam-extensions-common.h:50-71 | the valid types are exactly the indices of the names |
| `Extensions.PrefixIsMistaken` | include/gdm/gdm-pam-extensions-common.h:122-127 | a name with an earlier prefix is taken for it |
| `Pixbuf.Premul` | cairo.c:94-96 | a premultiplied colour is alpha*colour/255 to the nearest integer, and at most alpha |
| `Pixbuf.ShiftFormRounds` | cairo.c:80-96 | the shift form is the rounded division by 255, on all products of two bytes |
| `Pixbuf.RoundedIsNearest` | cairo.c:80-96 | that division is the nearest integer |
| `Pixbuf.PixelWord` | cairo.c:64-72 | on either byte order a converted pixel is the machine word that cairo expects, channel by channel |
| `Pixbuf.ConvertedPixel` | cairo.c:57-122 | where pixel j of row i stands in source and target |
| `Pixbuf.ConvertRow` | cairo.c:98-117 | the pixel loop converts a row, in bounds, and changes nothing else |
| `Pixbuf.Convert` | cairo.c:57-122 | every pixel of every row is converted, in bounds, and padding is unchanged |
| `LogRing.Ring.Push` | log.c:68-80 | the ring holds the last lines |
| `LogRing.Ring.GetOverlay` | log.c:83-93 | the snapshot is the last min(n, N) lines, oldest first |
| `ImagePath.FindPair` | main.c:432-434 | finds the first two adjacent spaces |
| `ImagePath.EscapeSpaces` | main.c:432-437 | the loop ends and inserts a backslash between every two adjacent spaces |
| `ImagePath.EscapedHasNoPairs` | main.c:432-437 | no two adjacent spaces are left |
| `ImagePath.UnescapedEscaped` | main.c:432-437 | dropping the backslashes gives the path back if and only if it had none of its own between two spaces |
| `SelectionWindow.Window` | render.c:259-270 | the rows lie in the list, are as many as fit (at most 8), and have a valid selection in the middle unless the list ends there |
| `SelectionWindow.VisibleRows` | render.c:276-282 | every entry drawn is read in bounds |

## Left out

- Failed allocations: timers, the copy of the password and payload buffers are always allocated.
- Writes that fail while the reader is still there: on a pipe a write fails when the reader has closed its end; the bytes it took before are modelled.
- Payloads of 2^32 bytes or more from PAM: the system model bounds the child's frames below that; `Frames.RoundTripExactly` covers longer ones.
- `failed_attempts` is a natural number; its overflow as a C int is not modelled.
- The highlight position, which is random and only drawn; the rest of drawing, Wayland, fonts and QR codes.
- cJSON, `crypt`, PAM modules, `wordexp` and xkb: their results are inputs of the model.
- Option parsing, configuration, privilege dropping, memory locking, signals and the debug build; SIGUSR1 and a failed display connection are one event that stops the loop.
- The file descriptors of the event loop: `loop_add_fd`, `loop_remove_fd` and the order of descriptors in one poll would only add easy members; the model allows every order of their events.
- Timer objects are entries of a map from addresses, and addresses are never used twice; since no handle dangles, reuse could not be observed.
- Clock.PollTimeout: assumes that the differences fit a C int.
- Locker.Process.PollTimeout: the same.
- Pam.Prompt: a password frame without payload counts as the empty string, where the C code would pass NULL to `strdup`; the main process never sends one (`TwoProcesses.PasswordIntegrity`).
- Shadow.RunChild: the same, where the C code would pass NULL to `crypt`.
- The other requests of the GDM protocol and the texts that PAM shows: the frames that they cause are any conversation frames in `TwoProcesses`.
- SIGPIPE: a write to a closed pipe may end the process instead of failing; in `TwoProcesses` the main process may exit at any step.
- Pixbuf.Convert: starts after the surface has been created; pixbufs with fewer than three channels are refused before.
