/** The recorded event: the two hook payloads, the event kinds of EVENT_TYPE and the
    fixed-width integers the C++ record stores them in. */
module Events {

  /** 2^32: the modulus of the source's uint32_t and DWORD arithmetic. */
  const U32: nat := 0x1_0000_0000

  type u8 = n: nat | n < 256
  type u32 = n: nat | n < U32
  type i32 = n: int | -0x8000_0000 <= n < 0x8000_0000

  datatype Option<T> = None | Some(value: T)

  /** The conversion of a non-negative count to uint32_t, which keeps it modulo 2^32. */
  function Wrap32(n: nat): u32
  {
    n % U32
  }

  /** KBDLLHOOKSTRUCT as copied into kbdEvent_t. */
  datatype KbdEvent = KbdEvent(vkCode: u32, scanCode: u32, flags: u32, time: u32)

  /** MSLLHOOKSTRUCT as copied into msEvent_t: the cursor position and the opaque rest. */
  datatype MsEvent = MsEvent(x: i32, y: i32, mouseData: u32, flags: u32, time: u32)

  datatype KeyTransition = Down | Up

  datatype MouseAction = Move | RightDown | RightUp | LeftDown | LeftUp

  /** One timeline entry: the payload that its kind makes valid, and the milliseconds
      since the previous accepted event (a uint32_t in the source). */
  datatype Event =
    | KeyEvent(transition: KeyTransition, key: KbdEvent, deltaTime: u32)
    | MouseEvent(action: MouseAction, mouse: MsEvent, deltaTime: u32)

  predicate IsMove(e: Event)
  {
    e.MouseEvent? && e.action == Move
  }

  // The EVENT_TYPE enumerators.
  const TypeNull: u8 := 0
  const TypeMsMove: u8 := 1
  const TypeMsRDown: u8 := 2
  const TypeMsRUp: u8 := 3
  const TypeMsLDown: u8 := 4
  const TypeMsLUp: u8 := 5
  const TypeKbdDown: u8 := 32
  const TypeKbdUp: u8 := 33

  function TypeOf(e: Event): u8
  {
    match e
    case MouseEvent(Move, _, _) => TypeMsMove
    case MouseEvent(RightDown, _, _) => TypeMsRDown
    case MouseEvent(RightUp, _, _) => TypeMsRUp
    case MouseEvent(LeftDown, _, _) => TypeMsLDown
    case MouseEvent(LeftUp, _, _) => TypeMsLUp
    case KeyEvent(Down, _, _) => TypeKbdDown
    case KeyEvent(Up, _, _) => TypeKbdUp
  }

  /** The union member last written; reading the other one is not meaningful. */
  datatype EventUnion = KbdMember(kbdEvent: KbdEvent) | MsMember(msEvent: MsEvent)

  /** event_t as laid out in the source: union, delta and a separate type byte. */
  datatype RawEvent = RawEvent(eventUnion: EventUnion, deltaTime: u32, typeTag: u8)

  /** Writes the payload into the union member its kind uses and the kind into the
      type byte, which is never EVENT_TYPE_NULL. */
  function Encode(e: Event): (r: RawEvent)
    ensures r.typeTag != TypeNull && r.deltaTime == e.deltaTime
    ensures r.eventUnion.KbdMember? <==> e.KeyEvent?
    ensures r.typeTag >= TypeKbdDown <==> e.KeyEvent?
  {
    match e
    case KeyEvent(_, key, d) => RawEvent(KbdMember(key), d, TypeOf(e))
    case MouseEvent(_, mouse, d) => RawEvent(MsMember(mouse), d, TypeOf(e))
  }

  /** Reads a raw record by its type byte; None when the byte is EVENT_TYPE_NULL, an
      unknown value, or names the member that was not written. */
  function Decode(r: RawEvent): (o: Option<Event>)
    ensures o.Some? <==>
      || (r.eventUnion.KbdMember? && (r.typeTag == TypeKbdDown || r.typeTag == TypeKbdUp))
      || (r.eventUnion.MsMember? && TypeMsMove <= r.typeTag <= TypeMsLUp)
    ensures o.Some? ==> TypeOf(o.value) == r.typeTag && o.value.deltaTime == r.deltaTime
  {
    match r.eventUnion
    case KbdMember(key) =>
      if r.typeTag == TypeKbdDown then Some(KeyEvent(Down, key, r.deltaTime))
      else if r.typeTag == TypeKbdUp then Some(KeyEvent(Up, key, r.deltaTime))
      else None
    case MsMember(mouse) =>
      if r.typeTag == TypeMsMove then Some(MouseEvent(Move, mouse, r.deltaTime))
      else if r.typeTag == TypeMsRDown then Some(MouseEvent(RightDown, mouse, r.deltaTime))
      else if r.typeTag == TypeMsRUp then Some(MouseEvent(RightUp, mouse, r.deltaTime))
      else if r.typeTag == TypeMsLDown then Some(MouseEvent(LeftDown, mouse, r.deltaTime))
      else if r.typeTag == TypeMsLUp then Some(MouseEvent(LeftUp, mouse, r.deltaTime))
      else None
  }

  /** Every event the model records has a raw record whose type byte reads it back. */
  lemma DecodeEncode(e: Event)
    ensures Decode(Encode(e)) == Some(e)
    ensures Encode(e).typeTag != TypeNull
  {
  }

  /** Conversely, every raw record that reads as an event is that event's encoding. */
  lemma EncodeDecode(r: RawEvent)
    ensures Decode(r).Some? ==> Encode(Decode(r).value) == r
    ensures r.typeTag == TypeNull ==> Decode(r) == None
  {
  }

  /** Keyboard kinds carry the keyboard member, pointer kinds the pointer member. */
  lemma TagSelectsMember(r: RawEvent)
    requires Decode(r).Some?
    ensures r.eventUnion.KbdMember? <==> r.typeTag >= TypeKbdDown
  {
  }
}
