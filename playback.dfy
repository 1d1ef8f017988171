/** replayMoves: the timeline walked in order, each entry turned into a sleep of its
    delta plus a fixed slack and at most one injected input. The foreign calls
    (Sleep, SetCursorPos, SendInput) are represented by the actions they would perform. */
module Playback {
  import opened Events

  /** The milliseconds added to every recorded delta before sleeping. */
  const Slack: nat := 3

  /** The MOUSEEVENTF_* flag handed to sendMouseInput. */
  datatype MouseFlag = RightDownFlag | RightUpFlag | LeftDownFlag | LeftUpFlag

  datatype Action =
    | Wait(ms: u32)
    | MoveTo(x: i32, y: i32)
    | MouseInput(flag: MouseFlag)
    | KeyPress(vk: u32)

  /** Key-ups are recorded but not replayed (the call is commented out in the source). */
  predicate Replayable(e: Event)
  {
    !(e.KeyEvent? && e.transition == Up)
  }

  /** The one injected input for a replayable event. */
  function Injection(e: Event): (a: Action)
    requires Replayable(e)
    ensures !a.Wait?
  {
    match e
    case MouseEvent(Move, mouse, _) => MoveTo(mouse.x, mouse.y)
    case MouseEvent(RightDown, _, _) => MouseInput(RightDownFlag)
    case MouseEvent(RightUp, _, _) => MouseInput(RightUpFlag)
    case MouseEvent(LeftDown, _, _) => MouseInput(LeftDownFlag)
    case MouseEvent(LeftUp, _, _) => MouseInput(LeftUpFlag)
    case KeyEvent(_, key, _) => KeyPress(key.vkCode)
  }

  /** The sleep before an entry's input: its delta plus the slack, in uint32_t arithmetic. */
  function Pause(e: Event): u32
  {
    Wrap32(e.deltaTime + Slack)
  }

  /** What one loop iteration emits. */
  function Step(e: Event): (r: seq<Action>)
    ensures 1 <= |r| <= 2 && r[0].Wait?
    ensures |r| == 2 <==> Replayable(e)
    ensures |r| == 2 ==> !r[1].Wait?
  {
    [Wait(Pause(e))] + (if Replayable(e) then [Injection(e)] else [])
  }

  /** The actions of replaying a whole timeline. */
  function Replay(timeline: seq<Event>): (r: seq<Action>)
    ensures |timeline| <= |r| <= 2 * |timeline|
  {
    if timeline == [] then []
    else Replay(timeline[..|timeline| - 1]) + Step(timeline[|timeline| - 1])
  }

  /** The loop of replayMoves: builds the trace entry by entry, in timeline order. */
  method PlayTimeline(timeline: seq<Event>) returns (actions: seq<Action>)
    ensures actions == Replay(timeline)
  {
    actions := [];
    for i := 0 to |timeline|
      invariant actions == Replay(timeline[..i])
    {
      var a := timeline[i];
      assert timeline[..i + 1][..i] == timeline[..i];
      assert Replay(timeline[..i + 1]) == actions + Step(a);
      actions := actions + [Wait(Pause(a))];
      match a {
        case MouseEvent(Move, mouse, _) =>
          actions := actions + [MoveTo(mouse.x, mouse.y)];
        case MouseEvent(RightDown, _, _) =>
          actions := actions + [MouseInput(RightDownFlag)];
        case MouseEvent(RightUp, _, _) =>
          actions := actions + [MouseInput(RightUpFlag)];
        case MouseEvent(LeftDown, _, _) =>
          actions := actions + [MouseInput(LeftDownFlag)];
        case MouseEvent(LeftUp, _, _) =>
          actions := actions + [MouseInput(LeftUpFlag)];
        case KeyEvent(Down, key, _) =>
          actions := actions + [KeyPress(key.vkCode)];
        case KeyEvent(Up, _, _) =>
      }
    }
    assert timeline[..|timeline|] == timeline;
  }

  /** The sleep durations of a trace, in order. */
  function Waits(t: seq<Action>): seq<u32>
  {
    if t == [] then []
    else Waits(t[..|t| - 1]) + (if t[|t| - 1].Wait? then [t[|t| - 1].ms] else [])
  }

  /** The injected inputs of a trace, in order. */
  function Injections(t: seq<Action>): seq<Action>
  {
    if t == [] then []
    else Injections(t[..|t| - 1]) + (if t[|t| - 1].Wait? then [] else [t[|t| - 1]])
  }

  /** The events of a timeline that replay injects, in order. */
  function Replayed(timeline: seq<Event>): (r: seq<Event>)
    ensures |r| <= |timeline|
    ensures forall i :: 0 <= i < |r| ==> Replayable(r[i])
    ensures forall e :: e in r <==> e in timeline && Replayable(e)
  {
    if timeline == [] then []
    else
      var p, last := timeline[..|timeline| - 1], timeline[|timeline| - 1];
      assert timeline == p + [last];
      Replayed(p) + (if Replayable(last) then [last] else [])
  }

  /** The number of key-up entries, which replay skips. */
  function KeyUpCount(timeline: seq<Event>): nat
  {
    if timeline == [] then 0
    else KeyUpCount(timeline[..|timeline| - 1]) + (if Replayable(timeline[|timeline| - 1]) then 0 else 1)
  }

  /** Replay keeps every entry but the key-ups: N entries with U key-ups leave N - U. */
  lemma {:induction false} ReplayedCount(timeline: seq<Event>)
    ensures |Replayed(timeline)| + KeyUpCount(timeline) == |timeline|
  {
    if timeline != [] {
      ReplayedCount(timeline[..|timeline| - 1]);
    }
  }

  /** Filtering a timeline filters each of its parts: the kept entries stay in order. */
  lemma {:induction false} ReplayedAppend(a: seq<Event>, b: seq<Event>)
    ensures Replayed(a + b) == Replayed(a) + Replayed(b)
    decreases |b|
  {
    if b != [] {
      var b' := b[..|b| - 1];
      assert (a + b)[..|a + b| - 1] == a + b';
      ReplayedAppend(a, b');
    } else {
      assert a + b == a;
    }
  }

  /** Every injected input directly follows a sleep: at most one input per entry. */
  predicate Paced(t: seq<Action>)
  {
    forall j :: 0 <= j < |t| && !t[j].Wait? ==> j > 0 && t[j - 1].Wait?
  }

  lemma {:induction false} WaitsAppend(a: seq<Action>, b: seq<Action>)
    ensures Waits(a + b) == Waits(a) + Waits(b)
    decreases |b|
  {
    if b != [] {
      var b' := b[..|b| - 1];
      assert (a + b)[..|a + b| - 1] == a + b';
      WaitsAppend(a, b');
    } else {
      assert a + b == a;
    }
  }

  lemma {:induction false} InjectionsAppend(a: seq<Action>, b: seq<Action>)
    ensures Injections(a + b) == Injections(a) + Injections(b)
    decreases |b|
  {
    if b != [] {
      var b' := b[..|b| - 1];
      assert (a + b)[..|a + b| - 1] == a + b';
      InjectionsAppend(a, b');
    } else {
      assert a + b == a;
    }
  }

  /** The sleeps and the input of a single entry. */
  lemma StepParts(e: Event)
    ensures Waits(Step(e)) == [Pause(e)]
    ensures Injections(Step(e)) == if Replayable(e) then [Injection(e)] else []
  {
    var w := Wait(Pause(e));
    assert [w][..0] == [];
    assert Waits([w]) == [w.ms];
    assert Injections([w]) == [];
    if Replayable(e) {
      var x := Injection(e);
      assert Step(e) == [w, x];
      assert [w, x][..1] == [w];
      assert Waits([w, x]) == Waits([w]);
      assert Injections([w, x]) == [x];
    } else {
      assert Step(e) == [w];
    }
  }

  /** Replaying a longer timeline first replays its prefix. */
  lemma {:induction false} ReplayAppend(a: seq<Event>, b: seq<Event>)
    ensures Replay(a + b) == Replay(a) + Replay(b)
    decreases |b|
  {
    if b != [] {
      var b' := b[..|b| - 1];
      assert (a + b)[..|a + b| - 1] == a + b';
      ReplayAppend(a, b');
      assert Replay(a + b) == Replay(a + b') + Step(b[|b| - 1]);
    } else {
      assert a + b == a;
    }
  }

  /** The pause of every entry, in timeline order. */
  function Pauses(timeline: seq<Event>): seq<u32>
  {
    if timeline == [] then []
    else Pauses(timeline[..|timeline| - 1]) + [Pause(timeline[|timeline| - 1])]
  }

  /** The i-th pause is the pause of the i-th entry. */
  lemma {:induction false} PausesAt(timeline: seq<Event>)
    ensures |Pauses(timeline)| == |timeline|
    ensures forall i :: 0 <= i < |timeline| ==> Pauses(timeline)[i] == Pause(timeline[i])
  {
    if timeline != [] {
      var p := timeline[..|timeline| - 1];
      PausesAt(p);
      forall i | 0 <= i < |timeline|
        ensures Pauses(timeline)[i] == Pause(timeline[i])
      {
        if i < |p| {
          assert Pauses(timeline)[i] == Pauses(p)[i];
          assert timeline[i] == p[i];
        }
      }
    }
  }

  /** The sleeps of a replay are the entries' pauses, in order. */
  lemma {:induction false} WaitsOfReplay(timeline: seq<Event>)
    ensures Waits(Replay(timeline)) == Pauses(timeline)
  {
    if timeline != [] {
      var p := timeline[..|timeline| - 1];
      var e := timeline[|timeline| - 1];
      WaitsOfReplay(p);
      WaitsAppend(Replay(p), Step(e));
      StepParts(e);
    }
  }

  /** One sleep per entry, in timeline order, each of the entry's delta plus the slack. */
  lemma ReplayWaits(timeline: seq<Event>)
    ensures |Waits(Replay(timeline))| == |timeline|
    ensures forall i :: 0 <= i < |timeline| ==>
      Waits(Replay(timeline))[i] == Pause(timeline[i])
  {
    WaitsOfReplay(timeline);
    PausesAt(timeline);
  }

  /** The input of every replayable entry, in timeline order. */
  function Inputs(timeline: seq<Event>): seq<Action>
  {
    if timeline == [] then []
    else
      var e := timeline[|timeline| - 1];
      Inputs(timeline[..|timeline| - 1]) + (if Replayable(e) then [Injection(e)] else [])
  }

  /** The i-th input is the injection of the i-th replayed entry. */
  lemma {:induction false} InputsAt(timeline: seq<Event>)
    ensures |Inputs(timeline)| == |Replayed(timeline)|
    ensures forall i :: 0 <= i < |Replayed(timeline)| ==>
      Inputs(timeline)[i] == Injection(Replayed(timeline)[i])
  {
    if timeline != [] {
      var p := timeline[..|timeline| - 1];
      var e := timeline[|timeline| - 1];
      InputsAt(p);
      var inp, kept := Inputs(timeline), Replayed(timeline);
      assert kept == Replayed(p) + (if Replayable(e) then [e] else []);
      forall i | 0 <= i < |kept|
        ensures inp[i] == Injection(kept[i])
      {
        if i < |Replayed(p)| {
          assert inp[i] == Inputs(p)[i];
          assert kept[i] == Replayed(p)[i];
        }
      }
    }
  }

  /** The injected inputs of a replay are the inputs of its replayable entries. */
  lemma {:induction false} InjectionsOfReplay(timeline: seq<Event>)
    ensures Injections(Replay(timeline)) == Inputs(timeline)
  {
    if timeline != [] {
      var p := timeline[..|timeline| - 1];
      var e := timeline[|timeline| - 1];
      InjectionsOfReplay(p);
      InjectionsAppend(Replay(p), Step(e));
      StepParts(e);
    }
  }

  /** The injected inputs are exactly those of the replayable entries, in order;
      with ReplayedCount, a timeline of N entries with U key-ups yields N - U injections. */
  lemma ReplayInjections(timeline: seq<Event>)
    ensures |Injections(Replay(timeline))| == |Replayed(timeline)|
    ensures forall i :: 0 <= i < |Replayed(timeline)| ==>
      Injections(Replay(timeline))[i] == Injection(Replayed(timeline)[i])
  {
    InjectionsOfReplay(timeline);
    InputsAt(timeline);
  }

  /** The trace alternates: no two inputs without a sleep between them. */
  lemma {:induction false} ReplayPaced(timeline: seq<Event>)
    ensures Paced(Replay(timeline))
  {
    if timeline != [] {
      var p := timeline[..|timeline| - 1];
      var e := timeline[|timeline| - 1];
      ReplayPaced(p);
      var a, b := Replay(p), Step(e);
      var t: seq<Action> := a + b;
      assert Replay(timeline) == t;
      forall j | 0 <= j < |t| && !t[j].Wait?
        ensures j > 0 && t[j - 1].Wait?
      {
        if j < |a| {
          assert t[j] == a[j];
          assert t[j - 1] == a[j - 1];
        } else {
          assert t[j] == b[j - |a|];
          assert j - |a| == 1;
          assert t[j - 1] == b[0];
        }
      }
    }
  }
}
