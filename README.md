# movesReplay_inator: verified model of the recorder core

movesReplay_inator records global keyboard and mouse input through two low-level
hooks and replays it later. Its core is a small shared state:
- the event timeline;
- a 256-bit set of held keys;
- the time of the last accepted event;
- two mode flags, recording and playing.

Three routines change that state:
- `LLKeyboardProc` toggles recording with F12, starts a replay with F11 when not
  recording, suppresses auto-repeat and records key-downs and key-ups.
- `LLMouseProc` records button presses and merges consecutive moves into one entry.
- `replayMoves` walks the timeline. For each entry it sleeps for the delta plus 3 ms,
  then injects at most one input.

The model has four modules:
- `Events` (`events.dfy`) holds the timeline entry. The C++ union and its separate
  type byte become one variant datatype. `Encode`/`Decode` connect the variant to the
  raw tag-plus-union layout in both directions. `deltaTime` is a `u32`, and every
  truncation to `uint32_t` is written out as `Wrap32`.
- `Playback` (`playback.dfy`) holds replay. The foreign calls (`Sleep`,
  `SetCursorPos`, `SendInput`) become a returned trace of `Action`s. `Replay` is the
  specification of that trace. `PlayTimeline` is the loop of `replayMoves`, proved to
  produce exactly `Replay`. Lemmas then show what the trace contains: the sleeps, the
  injections, their order and how they alternate. `Pauses` and `Inputs` are reference
  definitions of the sleeps and the inputs taken entry by entry, and the trace is proved
  equal to them.
- `Capture` (`capture.dfy`) holds the two hooks as transition functions over a
  `Snapshot` of the globals. `KeyStep` and `MouseStep` follow the C++ branch by
  branch. The lemmas state the behaviour of each branch. Beyond single steps, they
  prove the coalescing law for a whole run of moves and the recorder invariant
  `Consistent`. `Consistent` says each held bit equals "the last entry recorded for
  that key is a key-down", and that F12 is never recorded and never held. From it, `DownsSeparatedByUp` proves that two recorded
  key-downs of the same key always have a recorded key-up of that key between them.
- `Recording` (`recording.dfy`) holds the class `Recorder`. Its fields are the globals,
  and the held-key bitset is an `array<bool>` of length 256. Each hook and the replay
  routine is a method proved to perform the `Capture` step and to keep `Valid()`. The
  part of each hook after its early returns is a method of its own (`CaptureKey`,
  `CaptureMouse`), proved to perform the rest of the step.
  `Valid()` holds `Consistent` and "the playing flag is never raised".

Time is an explicit, non-decreasing millisecond argument `now` in place of
`steady_clock::now()`. The start-up clock is the constructor's argument.

Some behaviour of the source is easy to misread, and the model keeps it as written:
- **F11 is recorded while recording.** The replay branch needs "not recording"
  (src/main.cpp:98-100), so during a recording an F11 key-down falls through and is
  appended as a key-down that sets F11's held bit (src/main.cpp:138-141). Its key-up
  returns early without clearing that bit (src/main.cpp:120). So every later F11 press
  in that recording is suppressed (`Capture.PlayKeyStaysHeld`). F12, in contrast, is
  never recorded and never marked held (`Capture.Consistent`).
- **The playing flag never becomes true.** `isPlaying_g` is only ever assigned `false`
  (src/main.cpp:264). The model keeps the flag and proves it stays false
  (`Recorder.Valid`, `Capture.PlayingStaysOff`). The checks on it at
  src/main.cpp:95 and 150 never fire.
- **The mouse hook resets the clock for every message while recording**
  (src/main.cpp:156). This includes wheel and unhandled messages, which record nothing
  (`Capture.MouseMovesClock`). The keyboard hook resets it only when it appends an entry
  (src/main.cpp:122, 138).
- **Merged moves sum their deltas.** In `Capture.RecordingScenario`, moves at 60 ms and
  75 ms after a key-up at 50 ms merge into one entry with delta 10 + 15 = 25.

## Model

| member | source | states |
|---|---|---|
| `Events.Encode` | src/main.cpp:63-72 | storing an event writes its payload into the union member its kind uses (the keyboard member exactly for key events), keeps its delta, and writes a type byte that is never `EVENT_TYPE_NULL` and is 32 or above exactly for key events |
| `Events.Decode` | src/main.cpp:63-72 | a raw record reads as an event exactly when its type byte is a keyboard code with the keyboard member written, or a pointer code 1-5 with the pointer member written; the event read has that type byte's kind and the stored delta |
| `Events.DecodeEncode` | src/main.cpp:63-72 | every event the model records is stored with a non-null type byte and the union member that byte selects, and reads back as itself |
| `Events.EncodeDecode` | src/main.cpp:63-72 | every raw record that reads back as an event is exactly that event's encoding; a record with the null type byte reads as no event |
| `Events.TagSelectsMember` | src/main.cpp:18-29 | in a readable record, the keyboard member goes with the keyboard type codes (32 and up) and the pointer member with the pointer codes |
| `Playback.Step` | src/main.cpp:237-261 | one loop iteration emits one or two actions: a sleep first, then one input exactly when the entry is not a key-up |
| `Playback.Replay` | src/main.cpp:234-262 | replaying N entries emits between N and 2N actions: at least the sleep of each entry and at most one input more per entry |
| `Playback.Injection` | src/main.cpp:238-257 | each replayable entry maps to one injected input that is never a sleep: a cursor move, a button flag or a key press |
| `Playback.Replayed` | src/main.cpp:255-260 | the entries replay injects are exactly the timeline's non-key-up entries: an event is kept if and only if it occurs in the timeline and is not a key-up; the result is never longer than the timeline |
| `Playback.ReplayedCount` | src/main.cpp:255-260 | the number of replayed entries plus the number of key-up entries equals the timeline's length, so N entries with U key-ups give N - U injections |
| `Playback.ReplayedAppend` | src/main.cpp:236-260 | filtering out key-ups works part by part: the kept entries of a concatenation are the kept entries of each part, in order |
| `Playback.PlayTimeline` | src/main.cpp:236-262 | the replay loop emits exactly the trace `Replay(timeline)`, entry by entry in timeline order |
| `Playback.StepParts` | src/main.cpp:237-261 | one entry yields exactly one sleep of its delta plus 3 (mod 2^32), and one input unless it is a key-up |
| `Playback.ReplayAppend` | src/main.cpp:236-262 | replaying a timeline extended by later entries first replays the original timeline unchanged |
| `Playback.WaitsOfReplay` | src/main.cpp:236-237 | the sleeps of the replay trace are exactly the entries' pauses (delta plus 3, mod 2^32), entry by entry |
| `Playback.ReplayWaits` | src/main.cpp:237 | a timeline of N entries gives exactly N sleeps, the i-th equal to entry i's delta plus 3 (mod 2^32) |
| `Playback.ReplayInjections` | src/main.cpp:238-261 | the injected inputs are exactly those of the non-key-up entries, in timeline order and one per entry |
| `Playback.InjectionsOfReplay` | src/main.cpp:236-261 | the inputs of the replay trace are exactly the injections of the replayable entries, entry by entry |
| `Playback.ReplayPaced` | src/main.cpp:236-262 | every injected input directly follows a sleep, so no two inputs are emitted without a wait between them |
| `Capture.Initial` | src/main.cpp:279-282 | the start-up state has an empty timeline, no key held, the clock at the given time, and neither recording nor playing |
| `Capture.KeyStep` | src/main.cpp:94-147 | requires 256 held bits, a key code below 256 and a clock that does not run backwards. The body follows the hook's branches. Only the pressed key's bit can change; the timeline grows by at most one key entry carrying this key's payload; the clock moves to `now` exactly when an entry is recorded; only F12 flips recording; the playing flag is never changed; a step that injects anything is an F11 key-down outside recording, which changes no state and injects `Replay` of the whole timeline |
| `Capture.MouseStep` | src/main.cpp:149-198 | requires the playing flag clear (the busy-wait) and a clock that does not run backwards. The body follows the hook's branches. It never touches the held bits or the mode, either keeps the clock or moves it to `now`, and grows the timeline by at most one entry |
| `Capture.HeldKeyDownIgnored` | src/main.cpp:97-129 | a key-down for a key whose held bit is set leaves timeline, held bits, clock and mode unchanged; it injects nothing, except that F11 outside recording still replays the whole timeline, because that branch is tested before the held bit |
| `Capture.AcceptedKeyDown` | src/main.cpp:108-141 | while recording, a key-down of a key that is neither held nor F12 appends one key-down entry with delta `now - last`, sets that held bit and the clock, and changes nothing else |
| `Capture.ToggleKeyDown` | src/main.cpp:130-136 | an F12 key-down with its bit clear only flips the recording flag: no entry, no clock update, no held bit |
| `Capture.ToggleTwiceRestores` | src/main.cpp:130-136 | two F12 presses return the whole state, timeline included, to where it was |
| `Capture.ToggleInConsistentState` | src/main.cpp:130-136 | in every state satisfying the recorder invariant (so in every reachable state), an F12 key-down flips only the recording flag and the result still satisfies the invariant |
| `Capture.HotKeyUpIgnored` | src/main.cpp:118-120 | key-ups of F11 and F12 change nothing and are never recorded |
| `Capture.AcceptedKeyUp` | src/main.cpp:118-125 | while recording, a key-up of any other key appends one key-up entry, clears its held bit and sets the clock |
| `Capture.IdleKeyboard` | src/main.cpp:95-106 | when not recording, every keyboard input except an F12 key-down leaves the state unchanged; only an F11 key-down replays, and it replays the whole timeline |
| `Capture.PlayKeyStaysHeld` | src/main.cpp:98-141 | while recording, an F11 key-down is recorded and sets its bit; its key-up is ignored, and a later F11 key-down is suppressed |
| `Capture.PlayingStaysOff` | src/main.cpp:94-147 | the keyboard hook never raises the playing flag and keeps 256 held bits |
| `Capture.MouseIgnoredWhenIdle` | src/main.cpp:150-151 | outside recording, or for a negative hook code, a mouse message changes nothing |
| `Capture.MouseMovesClock` | src/main.cpp:153-193 | while recording, every mouse message sets the clock to `now` and leaves keys and mode alone; wheel and unhandled messages leave the timeline unchanged |
| `Capture.ButtonAppends` | src/main.cpp:166-181 | a button message while recording appends exactly one entry of the matching button type, with delta `now - last` |
| `Capture.MoveCoalesces` | src/main.cpp:182-190 | after a move, a move keeps the length, overwrites the last position and adds the elapsed time to its delta; otherwise it appends one move |
| `Capture.CoalescedRun` | src/main.cpp:182-190 | a run of moves while recording leaves one trailing move with the final position and, as its delta, all the time since the event before the run (mod 2^32) |
| `Capture.InitialConsistent` | src/main.cpp:279-282 | the start-up state (empty timeline, no key held) satisfies the recorder invariant |
| `Capture.AppendKeyKeepsConsistent` | src/main.cpp:117-141 | recording a key-up, or a key-down of a key not held, of any key but F12, with its held bit set to match, keeps the recorder invariant |
| `Capture.KeyStepKeepsConsistent` | src/main.cpp:117-142 | every keyboard step keeps each held bit equal to "last recorded entry of that key is a key-down", keeps the timeline repeat-free, and keeps F12 unrecorded and its bit clear |
| `Capture.AppendKeepsConsistent` | src/main.cpp:166-189 | appending a pointer entry with the held bits unchanged keeps the recorder invariant |
| `Capture.ReplaceLastKeepsConsistent` | src/main.cpp:184-187 | overwriting a trailing move with another pointer entry, held bits unchanged, keeps the recorder invariant |
| `Capture.MouseStepKeepsConsistent` | src/main.cpp:165-194 | every mouse step, including merging into the last move, keeps the recorder invariant |
| `Capture.DownsSeparatedByUp` | src/main.cpp:127-141 | in a repeat-free timeline, any two key-downs of the same key have a key-up of that key between them |
| `Capture.ScenarioKeys` | src/main.cpp:94-142 | toggle on, then 'A' down at 0 and up at 50, leave the timeline down(Δ0), up(Δ50), the clock at 50 and recording on |
| `Capture.ScenarioMoves` | src/main.cpp:149-190 | from a recording state at clock 50 not ending in a move, moves at 60 and 75 and a left press at 80 append move(last position, Δ25) and left-down(Δ5) |
| `Capture.RecordingScenario` | src/main.cpp:94-190 | toggle on; 'A' down at 0, up at 50; moves at 60 and 75; left down at 80. The timeline is down(Δ0), up(Δ50), move(last position, Δ25), left-down(Δ5) |
| `Recording.Recorder.constructor` | src/main.cpp:279-282 | the recorder starts with an empty timeline, no key held, idle, with the clock at the given time |
| `Recording.Recorder.KeyboardHook` | src/main.cpp:94-147 | the keyboard hook performs exactly `KeyStep`, keeps the invariant, and always passes the input on |
| `Recording.Recorder.CaptureKey` | src/main.cpp:107-143 | with a non-negative hook code, not playing, and recording or the F12 key, the switch on the message performs the rest of `KeyStep` and keeps the held-bit array |
| `Recording.Recorder.MouseHook` | src/main.cpp:149-198 | the mouse hook performs exactly `MouseStep`, keeps the invariant, and always passes the input on |
| `Recording.Recorder.CaptureMouse` | src/main.cpp:153-194 | while recording with a non-negative hook code, the clock update and the switch on the message perform the rest of `MouseStep` and keep the held-bit array |
| `Recording.Recorder.ReplayMoves` | src/main.cpp:234-266 | replay emits `Replay(events)`, leaves the timeline, keys, clock and mode unchanged, and leaves the playing flag false |

## Left out

- Hook installation, the `GetMessage` loop and the exit codes (src/main.cpp:268-290) are Win32 set-up. Only the initial state they establish is modelled.
- `CallNextHookEx`, `SendInput`, `SetCursorPos` and `Sleep` are foreign calls. The first is the `PassThrough` verdict; the others are the `Action`s of the trace.
- The bodies of `sendMouseInput` and `sendKeyboardInput` (src/main.cpp:200-232) are not modelled. This includes the `wScan = KEYEVENTF_KEYUP` assignment, which no call reaches.
- The `int16_t` narrowing of the key code in `sendKeyboardInput` is not modelled. It changes nothing for the codes below 256 that the hook can record.
- Recording.Recorder.MouseHook: the busy-wait on the playing flag (src/main.cpp:150) is the precondition that the flag is false. `Valid()` always guarantees it, because nothing raises the flag. Cross-callback concurrency is not modelled.
- Inputs that the replay injects are not fed back to the hooks. Re-entrant delivery during replay is platform behaviour outside this model.
- Playback.Replay: every `Wait` is treated as finite. When an entry's delta is 2^32 - 4, `deltaTime + 3` wraps to 0xFFFFFFFF, which `Sleep` takes as INFINITE (src/main.cpp:237). The real replay then never returns, but the trace still lists the actions of the later entries.
- `steady_clock` is replaced by a non-decreasing whole-millisecond `now`. The sub-millisecond truncation of `duration_cast` is therefore not modelled.
- Console output (src/main.cpp:132-133, 235, 263) is not modelled.
- The unused `getDeltaTime` (src/main.cpp:85-90) and `cursorPos_g` (src/main.cpp:80) are not modelled.
- The byte layout of the union is not modelled. `RawEvent` records only which member was written. `scanCode`, `flags`, `time` and `mouseData` are carried as opaque payload.
- The hooks require a virtual-key code below 256, the size of `kbdState_g`. A larger code would index the bitset out of range in the source; the platform does not deliver one.
