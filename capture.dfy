/** The two low-level hooks as transitions of the shared recorder state: the mode
    flags, the held-key bits, the clock of the last accepted event and the timeline.
    KeyStep follows LLKeyboardProc and MouseStep follows LLMouseProc branch by branch;
    the Recorder class in module Recording is proved to perform exactly these steps. */
module Capture {
  import opened Events
  import opened Playback

  /** The size of the held-key bitset. */
  const KeyCount: nat := 256
  /** VK_F12, which toggles recording. */
  const ToggleKey: nat := 0x7B
  /** VK_F11, which starts a replay. */
  const PlayKey: nat := 0x7A

  /** What a hook tells the system; every path of both hooks passes the input on. */
  datatype Verdict = PassThrough | Consume

  /** The wParam of a keyboard hook call. */
  datatype KeyMessage = WmKeyDown | WmSysKeyDown | WmKeyUp | WmSysKeyUp | OtherKeyMessage
  {
    predicate IsDown() { this == WmKeyDown || this == WmSysKeyDown }
    predicate IsUp() { this == WmKeyUp || this == WmSysKeyUp }
  }

  /** The wParam of a mouse hook call; OtherMouseMessage stands for the messages
      the switch has no case for (middle and extra buttons, horizontal wheel). */
  datatype MouseMessage =
    | WmMouseMove | WmLButtonDown | WmLButtonUp | WmRButtonDown | WmRButtonUp
    | WmMouseWheel | OtherMouseMessage

  /** The recorder's globals: eventsPtr_g, kbdState_g, lastEventTime_g (in
      milliseconds), isLogging_g and isPlaying_g. */
  datatype Snapshot = Snapshot(
    events: seq<Event>, held: seq<bool>, last: nat, logging: bool, playing: bool)

  /** A keyboard step's new state and the inputs a replay it started injected. */
  datatype Effect = Effect(next: Snapshot, actions: seq<Action>)

  predicate WellSized(s: Snapshot)
  {
    |s.held| == KeyCount
  }

  /** The state at start-up: empty timeline, no key held, clock at `now`, idle. */
  function Initial(now: nat): (r: Snapshot)
    ensures WellSized(r) && r.events == [] && r.last == now && !r.logging && !r.playing
    ensures forall k :: 0 <= k < KeyCount ==> !r.held[k]
  {
    Snapshot([], seq(KeyCount, _ => false), now, false, false)
  }

  /** LLKeyboardProc. Only the pressed key's held bit can change; the timeline grows by
      at most one entry, a key event carrying this key's payload; the clock moves to `now`
      exactly when an entry is recorded; only the toggle key flips the recording flag; and
      a step that injects anything is a play-key key-down outside recording, which changes
      no state and injects the whole timeline. */
  function KeyStep(s: Snapshot, hookCode: int, msg: KeyMessage, info: KbdEvent, now: nat): (e: Effect)
    requires WellSized(s) && info.vkCode < KeyCount && now >= s.last
    ensures WellSized(e.next) && e.next.playing == s.playing
    ensures e.next.held == s.held[info.vkCode := e.next.held[info.vkCode]]
    ensures e.next.events == s.events
            || (&& |e.next.events| == |s.events| + 1 && e.next.events[..|s.events|] == s.events
                && e.next.events[|s.events|].KeyEvent? && e.next.events[|s.events|].key == info)
    ensures e.next.last == (if e.next.events == s.events then s.last else now)
    ensures e.next.events == s.events ==> e.next.held == s.held
    ensures e.next.logging != s.logging ==> info.vkCode == ToggleKey && e.next.events == s.events
    ensures e.actions != [] ==>
      && e.next == s && e.actions == Replay(s.events)
      && info.vkCode == PlayKey && msg.IsDown() && !s.logging
  {
    var vk := info.vkCode;
    if hookCode < 0 || s.playing then Effect(s, [])
    else if vk == PlayKey && msg.IsDown() && !s.logging then
      Effect(s.(playing := false), Replay(s.events))
    else if vk != ToggleKey && !s.logging then Effect(s, [])
    else
      var dt := Wrap32(now - s.last);
      if msg.IsUp() then
        if vk == ToggleKey || vk == PlayKey then Effect(s, [])
        else Effect(s.(events := s.events + [KeyEvent(Up, info, dt)],
                       held := s.held[vk := false], last := now), [])
      else if msg.IsDown() then
        if s.held[vk] then Effect(s, [])
        else if vk == ToggleKey then Effect(s.(logging := !s.logging), [])
        else Effect(s.(events := s.events + [KeyEvent(Down, info, dt)],
                       held := s.held[vk := true], last := now), [])
      else Effect(s, [])
  }

  /** LLMouseProc; its opening busy-wait on isPlaying_g is the precondition !s.playing.
      It never touches the keys or the mode, either leaves the clock or moves it to
      `now`, and grows the timeline by at most one entry (a merged move adds none). */
  function MouseStep(s: Snapshot, hookCode: int, msg: MouseMessage, info: MsEvent, now: nat): (r: Snapshot)
    requires !s.playing && now >= s.last
    ensures r.held == s.held && r.logging == s.logging && !r.playing
    ensures r.last == s.last || r.last == now
    ensures |s.events| <= |r.events| <= |s.events| + 1
  {
    if hookCode < 0 || !s.logging then s
    else
      var dt := Wrap32(now - s.last);
      var timed := s.(last := now);
      match msg
      case WmLButtonDown => timed.(events := s.events + [MouseEvent(LeftDown, info, dt)])
      case WmLButtonUp => timed.(events := s.events + [MouseEvent(LeftUp, info, dt)])
      case WmRButtonDown => timed.(events := s.events + [MouseEvent(RightDown, info, dt)])
      case WmRButtonUp => timed.(events := s.events + [MouseEvent(RightUp, info, dt)])
      case WmMouseMove =>
        if |s.events| > 0 && IsMove(s.events[|s.events| - 1]) then
          var back := s.events[|s.events| - 1];
          timed.(events := s.events[|s.events| - 1 :=
            back.(mouse := info, deltaTime := Wrap32(back.deltaTime + dt))])
        else timed.(events := s.events + [MouseEvent(Move, info, dt)])
      case WmMouseWheel => timed
      case OtherMouseMessage => timed
  }

  // ---------------------------------------------------------------------------
  // The keyboard hook

  /** A key-down for a key already held changes no part of the state. It is still
      checked after the replay branch, so a held play key still starts a replay when not
      recording. */
  lemma HeldKeyDownIgnored(s: Snapshot, hookCode: int, msg: KeyMessage, info: KbdEvent, now: nat)
    requires WellSized(s) && info.vkCode < KeyCount && now >= s.last && !s.playing
    requires msg.IsDown() && s.held[info.vkCode]
    ensures var e := KeyStep(s, hookCode, msg, info, now);
      && e.next == s
      && e.actions == if hookCode >= 0 && info.vkCode == PlayKey && !s.logging
                      then Replay(s.events) else []
  {
  }

  /** While recording, a key-down for a key that is not held and is not the toggle
      key is recorded: one key-down entry with the elapsed time, the key marked held,
      the clock moved to `now`, and nothing else touched. */
  lemma AcceptedKeyDown(s: Snapshot, hookCode: int, msg: KeyMessage, info: KbdEvent, now: nat)
    requires WellSized(s) && info.vkCode < KeyCount && now >= s.last
    requires hookCode >= 0 && !s.playing && s.logging
    requires msg.IsDown() && info.vkCode != ToggleKey && !s.held[info.vkCode]
    ensures var e := KeyStep(s, hookCode, msg, info, now);
      && e.next.events == s.events + [KeyEvent(Down, info, Wrap32(now - s.last))]
      && e.next.held == s.held[info.vkCode := true]
      && e.next.last == now
      && e.next.logging && !e.next.playing
      && e.actions == []
  {
  }

  /** The toggle key's key-down flips the recording flag and nothing else: not the
      clock, not its own held bit, not the timeline. */
  lemma ToggleKeyDown(s: Snapshot, hookCode: int, msg: KeyMessage, info: KbdEvent, now: nat)
    requires WellSized(s) && info.vkCode == ToggleKey && now >= s.last
    requires hookCode >= 0 && !s.playing && msg.IsDown() && !s.held[ToggleKey]
    ensures KeyStep(s, hookCode, msg, info, now) == Effect(s.(logging := !s.logging), [])
  {
  }

  /** Two toggle presses restore the original state, timeline included. */
  lemma ToggleTwiceRestores(s: Snapshot, hookCode: int, first: KeyMessage, second: KeyMessage,
                            info: KbdEvent, t1: nat, t2: nat)
    requires WellSized(s) && info.vkCode == ToggleKey && s.last <= t1 <= t2
    requires hookCode >= 0 && !s.playing && !s.held[ToggleKey]
    requires first.IsDown() && second.IsDown()
    ensures var s1 := KeyStep(s, hookCode, first, info, t1).next;
      && s1.logging == !s.logging
      && KeyStep(s1, hookCode, second, info, t2) == Effect(s, [])
  {
    ToggleKeyDown(s, hookCode, first, info, t1);
    var s1 := s.(logging := !s.logging);
    ToggleKeyDown(s1, hookCode, second, info, t2);
  }

  /** Key-ups of the two hot keys are never recorded and change nothing. */
  lemma HotKeyUpIgnored(s: Snapshot, hookCode: int, msg: KeyMessage, info: KbdEvent, now: nat)
    requires WellSized(s) && info.vkCode < KeyCount && now >= s.last && !s.playing
    requires msg.IsUp() && (info.vkCode == ToggleKey || info.vkCode == PlayKey)
    ensures KeyStep(s, hookCode, msg, info, now) == Effect(s, [])
  {
  }

  /** While recording, a key-up of any other key is recorded: one key-up entry, the
      key's held bit cleared, the clock moved to `now`. */
  lemma AcceptedKeyUp(s: Snapshot, hookCode: int, msg: KeyMessage, info: KbdEvent, now: nat)
    requires WellSized(s) && info.vkCode < KeyCount && now >= s.last
    requires hookCode >= 0 && !s.playing && s.logging
    requires msg.IsUp() && info.vkCode != ToggleKey && info.vkCode != PlayKey
    ensures var e := KeyStep(s, hookCode, msg, info, now);
      && e.next.events == s.events + [KeyEvent(Up, info, Wrap32(now - s.last))]
      && e.next.held == s.held[info.vkCode := false]
      && e.next.last == now
      && e.next.logging && !e.next.playing
      && e.actions == []
  {
  }

  /** While not recording, no keyboard input except a toggle-key key-down changes the
      state, and the play key's key-down replays the whole timeline. */
  lemma IdleKeyboard(s: Snapshot, hookCode: int, msg: KeyMessage, info: KbdEvent, now: nat)
    requires WellSized(s) && info.vkCode < KeyCount && now >= s.last
    requires !s.logging && !s.playing
    requires !(info.vkCode == ToggleKey && msg.IsDown())
    ensures var e := KeyStep(s, hookCode, msg, info, now);
      && e.next == s
      && e.actions == if hookCode >= 0 && info.vkCode == PlayKey && msg.IsDown()
                      then Replay(s.events) else []
  {
  }

  /** While recording, the play key is captured like any other key: its key-down is
      recorded and marks it held, its key-up is dropped without clearing that bit, so
      every later play-key key-down in the session is suppressed. */
  lemma PlayKeyStaysHeld(s: Snapshot, hookCode: int, down: KeyMessage, up: KeyMessage,
                         info: KbdEvent, t1: nat, t2: nat, t3: nat)
    requires WellSized(s) && info.vkCode == PlayKey && s.last <= t1 <= t2 <= t3
    requires hookCode >= 0 && s.logging && !s.playing && !s.held[PlayKey]
    requires down.IsDown() && up.IsUp()
    ensures var s1 := KeyStep(s, hookCode, down, info, t1).next;
      && s1.events == s.events + [KeyEvent(Down, info, Wrap32(t1 - s.last))]
      && s1.held[PlayKey]
      && KeyStep(s1, hookCode, up, info, t2) == Effect(s1, [])
      && KeyStep(s1, hookCode, down, info, t3) == Effect(s1, [])
  {
    AcceptedKeyDown(s, hookCode, down, info, t1);
  }

  /** The keyboard hook never sets the playing flag (for the mouse hook see
      MouseIgnoredWhenIdle and MouseMovesClock). */
  lemma PlayingStaysOff(s: Snapshot, hookCode: int, msg: KeyMessage, info: KbdEvent, now: nat)
    requires WellSized(s) && info.vkCode < KeyCount && now >= s.last && !s.playing
    ensures !KeyStep(s, hookCode, msg, info, now).next.playing
    ensures WellSized(KeyStep(s, hookCode, msg, info, now).next)
  {
  }

  // ---------------------------------------------------------------------------
  // The mouse hook

  /** Outside recording (or for a negative hook code) a mouse message changes nothing. */
  lemma MouseIgnoredWhenIdle(s: Snapshot, hookCode: int, msg: MouseMessage, info: MsEvent, now: nat)
    requires !s.playing && now >= s.last
    requires hookCode < 0 || !s.logging
    ensures MouseStep(s, hookCode, msg, info, now) == s
  {
  }

  /** While recording every mouse message moves the clock to `now`, wheel and unhandled
      messages included, and touches neither the keys nor the mode; wheel and unhandled
      messages leave the timeline as it was. */
  lemma MouseMovesClock(s: Snapshot, hookCode: int, msg: MouseMessage, info: MsEvent, now: nat)
    requires !s.playing && now >= s.last && hookCode >= 0 && s.logging
    ensures var t := MouseStep(s, hookCode, msg, info, now);
      && t.last == now && t.held == s.held && t.logging && !t.playing
      && (msg == WmMouseWheel || msg == OtherMouseMessage ==> t.events == s.events)
  {
  }

  function ButtonOf(msg: MouseMessage): MouseAction
  {
    match msg
    case WmLButtonDown => LeftDown
    case WmLButtonUp => LeftUp
    case WmRButtonDown => RightDown
    case WmRButtonUp => RightUp
    case _ => Move
  }

  /** A button message while recording appends exactly one entry of the matching kind. */
  lemma ButtonAppends(s: Snapshot, hookCode: int, msg: MouseMessage, info: MsEvent, now: nat)
    requires !s.playing && now >= s.last && hookCode >= 0 && s.logging
    requires msg in {WmLButtonDown, WmLButtonUp, WmRButtonDown, WmRButtonUp}
    ensures var t := MouseStep(s, hookCode, msg, info, now);
      && t.events == s.events + [MouseEvent(ButtonOf(msg), info, Wrap32(now - s.last))]
      && TypeOf(t.events[|s.events|]) in {TypeMsLDown, TypeMsLUp, TypeMsRDown, TypeMsRUp}
  {
  }

  /** The timeline with a trailing move removed, and the delta that move has gathered. */
  predicate EndsWithMove(es: seq<Event>)
  {
    |es| > 0 && IsMove(es[|es| - 1])
  }

  function Settled(es: seq<Event>): seq<Event>
  {
    if EndsWithMove(es) then es[..|es| - 1] else es
  }

  function Pending(es: seq<Event>): nat
  {
    if EndsWithMove(es) then es[|es| - 1].deltaTime else 0
  }

  /** A move while recording: after a move it keeps the length and overwrites the last
      entry's position, adding the elapsed time to its delta; otherwise it appends. */
  lemma MoveCoalesces(s: Snapshot, hookCode: int, info: MsEvent, now: nat)
    requires !s.playing && now >= s.last && hookCode >= 0 && s.logging
    ensures var t := MouseStep(s, hookCode, WmMouseMove, info, now);
      && t.events == Settled(s.events)
                     + [MouseEvent(Move, info, Wrap32(Pending(s.events) + (now - s.last)))]
      && |t.events| == |s.events| + (if EndsWithMove(s.events) then 0 else 1)
  {
    var es := s.events;
    if EndsWithMove(es) {
      var back := es[|es| - 1];
      WrapAdd(back.deltaTime, now - s.last);
      assert es[|es| - 1 := back.(mouse := info, deltaTime := Wrap32(back.deltaTime + Wrap32(now - s.last)))]
          == es[..|es| - 1] + [MouseEvent(Move, info, Wrap32(back.deltaTime + (now - s.last)))];
    }
  }

  /** A pointer position together with the time its move message arrived. */
  datatype Motion = Motion(pos: MsEvent, at: nat)

  /** Arrival times no earlier than `from` and in non-decreasing order. */
  predicate Ascending(from: nat, run: seq<Motion>)
  {
    && (forall i :: 0 <= i < |run| ==> from <= run[i].at)
    && (forall i, j :: 0 <= i <= j < |run| ==> run[i].at <= run[j].at)
  }

  /** The state after a run of move messages, delivered one after the other. */
  function MoveRun(s: Snapshot, run: seq<Motion>): Snapshot
    requires !s.playing && Ascending(s.last, run)
    decreases |run|
  {
    if run == [] then s
    else MoveRun(MouseStep(s, 0, WmMouseMove, run[0].pos, run[0].at), run[1..])
  }

  /** Coalescing law: while recording, a run of consecutive moves leaves a single move
      entry at the end of the timeline, carrying the last position and, as its delta,
      all the time elapsed since the event before the run (modulo 2^32). */
  lemma {:induction false} CoalescedRun(s: Snapshot, run: seq<Motion>)
    requires !s.playing && s.logging && |run| > 0 && Ascending(s.last, run)
    ensures var t := MoveRun(s, run);
      && t.events == Settled(s.events)
           + [MouseEvent(Move, run[|run| - 1].pos, Wrap32(Pending(s.events) + (run[|run| - 1].at - s.last)))]
      && t.last == run[|run| - 1].at
      && t.held == s.held && t.logging && !t.playing
    decreases |run|
  {
    var s1 := MouseStep(s, 0, WmMouseMove, run[0].pos, run[0].at);
    MoveCoalesces(s, 0, run[0].pos, run[0].at);
    MouseMovesClock(s, 0, WmMouseMove, run[0].pos, run[0].at);
    if |run| > 1 {
      var rest := run[1..];
      AscendingTail(s.last, run);
      assert MoveRun(s, run) == MoveRun(s1, rest);
      CoalescedRun(s1, rest);
      var n := |run| - 1;
      assert rest[|rest| - 1] == run[n];
      assert run[0].at <= run[n].at;
      assert Settled(s1.events) == Settled(s.events);
      assert Pending(s1.events) == Wrap32(Pending(s.events) + (run[0].at - s.last));
      WrapAdd(run[n].at - run[0].at, Pending(s.events) + (run[0].at - s.last));
    }
  }

  /** After its first motion, the rest of an ascending run is ascending from that motion. */
  lemma AscendingTail(from: nat, run: seq<Motion>)
    requires Ascending(from, run) && |run| > 0
    ensures Ascending(run[0].at, run[1..])
  {
  }

  /** Adding after truncation truncates the same as truncating the sum. */
  lemma WrapAdd(a: nat, b: nat)
    ensures Wrap32(a + Wrap32(b)) == Wrap32(a + b)
  {
    var q := b / U32;
    assert b == q * U32 + Wrap32(b);
    ModShift(a + Wrap32(b), q);
  }

  lemma {:induction false} ModShift(x: nat, q: nat)
    ensures (x + q * U32) % U32 == x % U32
  {
    if q > 0 {
      ModShift(x, q - 1);
      assert x + q * U32 == (x + (q - 1) * U32) + U32;
    }
  }

  // ---------------------------------------------------------------------------
  // The held-key bits against the timeline

  predicate IsKey(e: Event, t: KeyTransition, k: nat)
  {
    e.KeyEvent? && e.transition == t && e.key.vkCode == k
  }

  /** Whether the last entry recorded for key `k` is a key-down. */
  function HeldAfter(es: seq<Event>, k: nat): bool
  {
    if es == [] then false
    else
      var e := es[|es| - 1];
      if e.KeyEvent? && e.key.vkCode == k then e.transition == Down
      else HeldAfter(es[..|es| - 1], k)
  }

  /** No key-down is recorded for a key whose previous entry is already a key-down. */
  predicate RepeatFree(es: seq<Event>)
  {
    es == [] ||
    (var e := es[|es| - 1];
     RepeatFree(es[..|es| - 1]) &&
     (e.KeyEvent? && e.transition == Down ==> !HeldAfter(es[..|es| - 1], e.key.vkCode)))
  }

  /** The recorder invariant: the held bits say which keys were last recorded going
      down, the timeline has no auto-repeated key-down, and the toggle key is never
      recorded and never marked held. */
  predicate Consistent(s: Snapshot)
  {
    && WellSized(s)
    && RepeatFree(s.events)
    && (forall k :: 0 <= k < KeyCount ==> s.held[k] == HeldAfter(s.events, k))
    && !s.held[ToggleKey]
    && (forall i :: 0 <= i < |s.events| ==> !IsToggleEntry(s.events[i]))
  }

  predicate IsToggleEntry(e: Event)
  {
    e.KeyEvent? && e.key.vkCode == ToggleKey
  }

  /** In every state the recorder reaches, a toggle-key key-down flips the recording
      flag and nothing else, and leaves the invariant intact. */
  lemma ToggleInConsistentState(s: Snapshot, hookCode: int, msg: KeyMessage, info: KbdEvent, now: nat)
    requires Consistent(s) && info.vkCode == ToggleKey && now >= s.last
    requires hookCode >= 0 && !s.playing && msg.IsDown()
    ensures KeyStep(s, hookCode, msg, info, now) == Effect(s.(logging := !s.logging), [])
    ensures Consistent(s.(logging := !s.logging))
  {
    ToggleKeyDown(s, hookCode, msg, info, now);
  }

  lemma InitialConsistent(now: nat)
    ensures Consistent(Initial(now)) && !Initial(now).playing
  {
  }

  /** Appending an entry that is not a key event leaves every key's status alone. */
  lemma AppendOther(es: seq<Event>, e: Event)
    requires !e.KeyEvent?
    ensures forall k :: HeldAfter(es + [e], k) == HeldAfter(es, k)
    ensures RepeatFree(es + [e]) == RepeatFree(es)
  {
    assert (es + [e])[..|es|] == es;
  }

  /** Appending a key event decides its key's status and leaves the others alone. */
  lemma AppendKey(es: seq<Event>, e: Event)
    requires e.KeyEvent?
    ensures forall k :: HeldAfter(es + [e], k) ==
                        (if k == e.key.vkCode then e.transition == Down else HeldAfter(es, k))
    ensures RepeatFree(es + [e]) ==
      (RepeatFree(es) && (e.transition == Down ==> !HeldAfter(es, e.key.vkCode)))
  {
    assert (es + [e])[..|es|] == es;
  }

  /** Recording a key event of a key other than the toggle key, with its held bit set to
      the new transition and a key-down only for a key not held, keeps the invariant. */
  lemma AppendKeyKeepsConsistent(s: Snapshot, e: Event, t: Snapshot)
    requires Consistent(s) && e.KeyEvent? && e.key.vkCode < KeyCount && e.key.vkCode != ToggleKey
    requires e.transition == Down ==> !s.held[e.key.vkCode]
    requires t.events == s.events + [e]
    requires t.held == s.held[e.key.vkCode := e.transition == Down]
    ensures Consistent(t)
  {
    AppendKey(s.events, e);
    forall i | 0 <= i < |t.events|
      ensures !IsToggleEntry(t.events[i])
    {
      if i < |s.events| {
        assert t.events[i] == s.events[i];
      }
    }
  }

  /** The invariant speaks only of the timeline and the held bits. */
  lemma SameRecordsConsistent(s: Snapshot, t: Snapshot)
    requires Consistent(s) && t.events == s.events && t.held == s.held
    ensures Consistent(t)
  {
  }

  /** Every keyboard step keeps the recorder invariant. */
  lemma KeyStepKeepsConsistent(s: Snapshot, hookCode: int, msg: KeyMessage, info: KbdEvent, now: nat)
    requires Consistent(s) && info.vkCode < KeyCount && now >= s.last
    ensures Consistent(KeyStep(s, hookCode, msg, info, now).next)
  {
    var vk := info.vkCode;
    var t := KeyStep(s, hookCode, msg, info, now).next;
    var dt := Wrap32(now - s.last);
    var capturing := hookCode >= 0 && !s.playing && s.logging;
    if capturing && msg.IsUp() && vk != ToggleKey && vk != PlayKey {
      AcceptedKeyUp(s, hookCode, msg, info, now);
      AppendKeyKeepsConsistent(s, KeyEvent(Up, info, dt), t);
    } else if capturing && msg.IsDown() && !s.held[vk] && vk != ToggleKey {
      AcceptedKeyDown(s, hookCode, msg, info, now);
      AppendKeyKeepsConsistent(s, KeyEvent(Down, info, dt), t);
    } else {
      assert t.events == s.events && t.held == s.held;
      SameRecordsConsistent(s, t);
    }
  }

  /** Appending a pointer entry, with the held bits left alone, keeps the invariant. */
  lemma AppendKeepsConsistent(s: Snapshot, m: Event, t: Snapshot)
    requires Consistent(s) && !m.KeyEvent?
    requires t.events == s.events + [m] && t.held == s.held
    ensures Consistent(t)
  {
    AppendOther(s.events, m);
    forall i | 0 <= i < |t.events|
      ensures !IsToggleEntry(t.events[i])
    {
      if i < |s.events| {
        assert t.events[i] == s.events[i];
      }
    }
  }

  /** Overwriting a trailing move with another pointer entry keeps the invariant. */
  lemma ReplaceLastKeepsConsistent(s: Snapshot, m: Event, t: Snapshot)
    requires Consistent(s) && !m.KeyEvent? && EndsWithMove(s.events)
    requires t.events == s.events[..|s.events| - 1] + [m] && t.held == s.held
    ensures Consistent(t)
  {
    var es := s.events;
    var p := es[..|es| - 1];
    assert es == p + [es[|es| - 1]];
    AppendOther(p, es[|es| - 1]);
    AppendOther(p, m);
    forall i | 0 <= i < |t.events|
      ensures !IsToggleEntry(t.events[i])
    {
      if i < |p| {
        assert t.events[i] == es[i];
      }
    }
  }

  /** Every mouse step, a merge into the trailing move included, keeps the invariant. */
  lemma MouseStepKeepsConsistent(s: Snapshot, hookCode: int, msg: MouseMessage, info: MsEvent, now: nat)
    requires Consistent(s) && !s.playing && now >= s.last
    ensures Consistent(MouseStep(s, hookCode, msg, info, now))
  {
    var t := MouseStep(s, hookCode, msg, info, now);
    var es := s.events;
    var capturing := hookCode >= 0 && s.logging;
    if capturing && msg == WmMouseMove {
      MoveCoalesces(s, hookCode, info, now);
      var m := MouseEvent(Move, info, Wrap32(Pending(es) + (now - s.last)));
      if EndsWithMove(es) {
        ReplaceLastKeepsConsistent(s, m, t);
      } else {
        AppendKeepsConsistent(s, m, t);
      }
    } else if capturing && msg in {WmLButtonDown, WmLButtonUp, WmRButtonDown, WmRButtonUp} {
      ButtonAppends(s, hookCode, msg, info, now);
      AppendKeepsConsistent(s, MouseEvent(ButtonOf(msg), info, Wrap32(now - s.last)), t);
    } else if capturing {
      MouseMovesClock(s, hookCode, msg, info, now);
      SameRecordsConsistent(s, t);
    } else {
      MouseIgnoredWhenIdle(s, hookCode, msg, info, now);
    }
  }

  /** If `k` is not held although entry i is a key-down of `k`, a key-up of `k` follows it. */
  lemma {:induction false} UpAfterDown(es: seq<Event>, i: nat, k: nat)
    requires i < |es| && IsKey(es[i], Down, k) && !HeldAfter(es, k)
    ensures exists m :: i < m < |es| && IsKey(es[m], Up, k)
  {
    var n := |es|;
    if es[n - 1].KeyEvent? && es[n - 1].key.vkCode == k {
      assert IsKey(es[n - 1], Up, k);
    } else {
      var p := es[..n - 1];
      UpAfterDown(p, i, k);
      var m :| i < m < |p| && IsKey(p[m], Up, k);
      assert es[m] == p[m];
    }
  }

  /** No auto-repeat in the timeline: between two recorded key-downs of the same key
      there is a recorded key-up of that key. */
  lemma {:induction false} DownsSeparatedByUp(es: seq<Event>, i: nat, j: nat, k: nat)
    requires RepeatFree(es) && i < j < |es|
    requires IsKey(es[i], Down, k) && IsKey(es[j], Down, k)
    ensures exists m :: i < m < j && IsKey(es[m], Up, k)
  {
    var p := es[..|es| - 1];
    if j < |es| - 1 {
      DownsSeparatedByUp(p, i, j, k);
      var m :| i < m < j && IsKey(p[m], Up, k);
      assert es[m] == p[m];
    } else {
      UpAfterDown(p, i, k);
      var m :| i < m < |p| && IsKey(p[m], Up, k);
      assert es[m] == p[m];
    }
  }

  /** The keyboard half of the worked session below: toggle on at 0, 'A' (0x41) down at
      0 and up at 50. */
  lemma ScenarioKeys(a: KbdEvent, f12: KbdEvent)
    requires a.vkCode == 0x41 && f12.vkCode == ToggleKey
    ensures
      var s0 := KeyStep(Initial(0), 0, WmKeyDown, f12, 0).next;
      var s1 := KeyStep(s0, 0, WmKeyDown, a, 0).next;
      var s2 := KeyStep(s1, 0, WmKeyUp, a, 50).next;
      && s2.events == [KeyEvent(Down, a, 0), KeyEvent(Up, a, 50)]
      && s2.last == 50 && s2.logging && !s2.playing
  {
    var s0 := KeyStep(Initial(0), 0, WmKeyDown, f12, 0).next;
    ToggleKeyDown(Initial(0), 0, WmKeyDown, f12, 0);
    var s1 := KeyStep(s0, 0, WmKeyDown, a, 0).next;
    AcceptedKeyDown(s0, 0, WmKeyDown, a, 0);
    AcceptedKeyUp(s1, 0, WmKeyUp, a, 50);
  }

  /** The pointer half: from a recording state whose timeline ends in a key-up at 50,
      moves at 60 and 75 and the left button down at 80. */
  lemma ScenarioMoves(s2: Snapshot, p1: MsEvent, p2: MsEvent, p3: MsEvent)
    requires s2.last == 50 && s2.logging && !s2.playing && !EndsWithMove(s2.events)
    ensures
      var s3 := MouseStep(s2, 0, WmMouseMove, p1, 60);
      var s4 := MouseStep(s3, 0, WmMouseMove, p2, 75);
      var s5 := MouseStep(s4, 0, WmLButtonDown, p3, 80);
      s5.events == s2.events + [MouseEvent(Move, p2, 25), MouseEvent(LeftDown, p3, 5)]
  {
    var s3 := MouseStep(s2, 0, WmMouseMove, p1, 60);
    MoveCoalesces(s2, 0, p1, 60);
    MouseMovesClock(s2, 0, WmMouseMove, p1, 60);
    assert s3.events == s2.events + [MouseEvent(Move, p1, 10)] && s3.last == 60;
    var s4 := MouseStep(s3, 0, WmMouseMove, p2, 75);
    MoveCoalesces(s3, 0, p2, 75);
    MouseMovesClock(s3, 0, WmMouseMove, p2, 75);
    assert Settled(s3.events) == s2.events && Pending(s3.events) == 10;
    assert s4.events == s2.events + [MouseEvent(Move, p2, 25)] && s4.last == 75;
    ButtonAppends(s4, 0, WmLButtonDown, p3, 80);
  }

  /** A worked session: toggle on at 0, 'A' (0x41) down at 0 and up at 50, moves at 60
      and 75, left button down at 80. The two moves coalesce into one entry with the
      final position and delta 10 + 15. */
  lemma RecordingScenario(a: KbdEvent, f12: KbdEvent, p1: MsEvent, p2: MsEvent, p3: MsEvent)
    requires a.vkCode == 0x41 && f12.vkCode == ToggleKey
    ensures
      var s0 := KeyStep(Initial(0), 0, WmKeyDown, f12, 0).next;
      var s1 := KeyStep(s0, 0, WmKeyDown, a, 0).next;
      var s2 := KeyStep(s1, 0, WmKeyUp, a, 50).next;
      var s3 := MouseStep(s2, 0, WmMouseMove, p1, 60);
      var s4 := MouseStep(s3, 0, WmMouseMove, p2, 75);
      var s5 := MouseStep(s4, 0, WmLButtonDown, p3, 80);
      s5.events == [KeyEvent(Down, a, 0), KeyEvent(Up, a, 50),
                    MouseEvent(Move, p2, 25), MouseEvent(LeftDown, p3, 5)]
  {
    ScenarioKeys(a, f12);
    var s0 := KeyStep(Initial(0), 0, WmKeyDown, f12, 0).next;
    var s1 := KeyStep(s0, 0, WmKeyDown, a, 0).next;
    var s2 := KeyStep(s1, 0, WmKeyUp, a, 50).next;
    ScenarioMoves(s2, p1, p2, p3);
  }
}
