/** The recorder's shared state as one object, with the two hook procedures and the
    replay routine as its methods, each proved to perform the step that module Capture
    defines for it and to keep the recorder invariant. */
module Recording {
  import opened Events
  import opened Playback
  import opened Capture

  class Recorder {
    /** The timeline (eventsPtr_g). */
    var events: seq<Event>
    /** The held-key bitset (kbdState_g). */
    var held: array<bool>
    /** The time of the last accepted event, in milliseconds (lastEventTime_g). */
    var last: nat
    var logging: bool
    var playing: bool

    /** The playing flag is never raised, the held bits agree with the timeline, and the
        toggle key is neither recorded nor held. */
    ghost predicate Valid()
      reads this, held
    {
      held.Length == KeyCount && !playing && Consistent(State())
    }

    function State(): Snapshot
      reads this, held
    {
      Snapshot(events, held[..], last, logging, playing)
    }

    /** Start-up: the hooks see an empty timeline and a clock started at `now`. */
    constructor (now: nat)
      ensures Valid() && fresh(held)
      ensures State() == Initial(now)
    {
      events := [];
      held := new bool[KeyCount](_ => false);
      last := now;
      logging := false;
      playing := false;
      new;
      assert held[..] == seq(KeyCount, _ => false);
      InitialConsistent(now);
    }

    /** LLKeyboardProc. */
    method KeyboardHook(hookCode: int, wParam: KeyMessage, info: KbdEvent, now: nat)
      returns (verdict: Verdict, actions: seq<Action>)
      requires Valid() && info.vkCode < KeyCount && now >= last
      modifies this, held
      ensures Valid() && held == old(held)
      ensures verdict == PassThrough
      ensures Effect(State(), actions) == KeyStep(old(State()), hookCode, wParam, info, now)
    {
      KeyStepKeepsConsistent(State(), hookCode, wParam, info, now);
      verdict, actions := PassThrough, [];
      if hookCode < 0 || playing {
        return;
      }
      var vk := info.vkCode;
      if vk == PlayKey && wParam.IsDown() && !logging {
        actions := ReplayMoves();
        return;
      }
      if vk != ToggleKey && !logging {
        return;
      }
      CaptureKey(hookCode, wParam, info, now);
    }

    /** The part of LLKeyboardProc after its early returns: the switch on the message,
        which records a key-up, records a key-down or flips the recording flag. */
    method CaptureKey(hookCode: int, wParam: KeyMessage, info: KbdEvent, now: nat)
      requires held.Length == KeyCount && info.vkCode < KeyCount && now >= last
      requires hookCode >= 0 && !playing && (logging || info.vkCode == ToggleKey)
      requires !(info.vkCode == PlayKey && wParam.IsDown() && !logging)
      modifies this, held
      ensures held == old(held)
      ensures State() == KeyStep(old(State()), hookCode, wParam, info, now).next
    {
      var vk := info.vkCode;
      var dt := Wrap32(now - last);
      if wParam.IsUp() {
        if vk == ToggleKey || vk == PlayKey {
          return;
        }
        last := now;
        held[vk] := false;
        events := events + [KeyEvent(Up, info, dt)];
      } else if wParam.IsDown() {
        if held[vk] {
          return;
        }
        if vk == ToggleKey {
          logging := !logging;
          return;
        }
        last := now;
        held[vk] := true;
        events := events + [KeyEvent(Down, info, dt)];
      }
    }

    /** LLMouseProc. */
    method MouseHook(hookCode: int, wParam: MouseMessage, info: MsEvent, now: nat)
      returns (verdict: Verdict)
      requires Valid() && now >= last
      modifies this
      ensures Valid() && held == old(held) && verdict == PassThrough
      ensures State() == MouseStep(old(State()), hookCode, wParam, info, now)
    {
      MouseStepKeepsConsistent(State(), hookCode, wParam, info, now);
      verdict := PassThrough;
      if hookCode < 0 || !logging {
        return;
      }
      CaptureMouse(hookCode, wParam, info, now);
    }

    /** The part of LLMouseProc that runs while recording: the clock update and the
        switch on the message, which appends a button entry or a move, or merges a move
        into a trailing one. */
    method CaptureMouse(hookCode: int, wParam: MouseMessage, info: MsEvent, now: nat)
      requires hookCode >= 0 && logging && !playing && now >= last
      modifies this
      ensures held == old(held)
      ensures State() == MouseStep(old(State()), hookCode, wParam, info, now)
    {
      var dt := Wrap32(now - last);
      last := now;
      match wParam {
        case WmLButtonDown =>
          events := events + [MouseEvent(LeftDown, info, dt)];
        case WmLButtonUp =>
          events := events + [MouseEvent(LeftUp, info, dt)];
        case WmRButtonDown =>
          events := events + [MouseEvent(RightDown, info, dt)];
        case WmRButtonUp =>
          events := events + [MouseEvent(RightUp, info, dt)];
        case WmMouseMove =>
          if |events| > 0 && IsMove(events[|events| - 1]) {
            var back := events[|events| - 1];
            events := events[|events| - 1 := back.(mouse := info, deltaTime := Wrap32(back.deltaTime + dt))];
          } else {
            events := events + [MouseEvent(Move, info, dt)];
          }
        case WmMouseWheel =>
        case OtherMouseMessage =>
      }
    }

    /** replayMoves: injects the timeline in order and clears the playing flag; the
        timeline itself is left as it was. */
    method ReplayMoves() returns (actions: seq<Action>)
      requires Valid()
      modifies this`playing
      ensures Valid() && State() == old(State()).(playing := false)
      ensures actions == Replay(events)
    {
      actions := PlayTimeline(events);
      playing := false;
    }
  }
}
