/**
  Values of the debounced input registry: button and encoder definitions,
  the events their callbacks receive, and the pure meaning of one poll of a
  button, one decode step of an encoder and one poll of the whole registry.
  The class in module ButtonManager is proved against these functions.
 */
module ButtonDefs {

  datatype Option<+T> = None | Some(value: T)

  /** The microcontroller's unsigned 8-bit `byte`. */
  newtype byte = x: int | 0 <= x < 256

  const LOW: byte := 0
  const HIGH: byte := 1

  /** A level that reading a digital pin can give. */
  type Level = l: byte | l == LOW || l == HIGH

  /** What every pin reads during one poll: `digitalRead` taken as an input. */
  type PinLevels = byte -> Level

  /** The modes a registered pin is configured with. */
  datatype PinMode = Input | InputPullUp

  datatype ButtonState = ButtonDepressed | ButtonPressed

  datatype EncoderState = EncoderClockwise | EncoderAntiClockwise

  /** Names a callback function; a NULL button callback is `None`. */
  type Callback = nat

  /** One invocation of a callback, appended to the registry's event log. */
  datatype Event =
    | ButtonEvent(callback: Callback, key: string, buttonState: ButtonState)
    | EncoderEvent(callback: Callback, key: string, encoderState: EncoderState)

  /**
    A button. `encoderParent` is the index of the encoder that owns it, or
    `None` for a button the top-level poll checks itself.
   */
  datatype ButtonDef = ButtonDef(
    key: string,
    digitalPin: byte,
    pullUp: bool,
    buttonCallback: Option<Callback>,
    encoderParent: Option<nat>,
    lastVal: byte)

  /**
    A rotary encoder: a clockwise channel, an anti-clockwise channel and a
    press button, the registry indices of the three buttons made for them,
    and the last level seen on the clockwise channel.
   */
  datatype EncoderDef = EncoderDef(
    key: string,
    clockwisePin: byte,
    antiClockwisePin: byte,
    buttonPin: byte,
    buttonPullUp: bool,
    buttonCallback: Option<Callback>,
    encoderCallback: Callback,
    clockwiseIndex: byte,
    antiClockwiseIndex: byte,
    buttonIndex: byte,
    lastVal: byte)

  /**
    A zero-initialised table slot. In `ZeroEncoder` the rotation callback `0`
    stands for the NULL pointer of an unused slot; such a slot is never decoded.
   */
  const ZeroButton := ButtonDef("", 0, false, None, None, LOW)
  const ZeroEncoder := EncoderDef("", 0, 0, 0, false, None, 0, 0, 0, 0, LOW)

  // ---------------------------------------------------------------------
  // Polling one button
  // ---------------------------------------------------------------------

  /** The state a button reports on a change: the one of the level it leaves. */
  function LeftState(last: byte): ButtonState
  {
    if last == LOW then ButtonDepressed else ButtonPressed
  }

  /**
    The outcome of polling a button: its updated definition, the callback
    invocations it made (none or one) and what it returns. `result` is
    `None` where the poll falls off the end without returning a value.
   */
  datatype ButtonPoll = ButtonPoll(def: ButtonDef, events: seq<Event>, result: Option<byte>)

  /** Polling button `b` while its pin reads `level`. */
  function PollButton(b: ButtonDef, level: Level): (r: ButtonPoll)
    ensures r.def == b.(lastVal := level)
    ensures r.result.Some? <==> level != b.lastVal
    ensures r.result.Some? ==> r.result.value == level
    ensures |r.events| <= 1
    ensures r.events != [] <==> level != b.lastVal && b.buttonCallback.Some?
    ensures r.events != [] ==>
      r.events[0] == ButtonEvent(b.buttonCallback.value, b.key, LeftState(b.lastVal))
  {
    if level != b.lastVal then
      var events :=
        if b.buttonCallback.Some?
        then [ButtonEvent(b.buttonCallback.value, b.key, LeftState(b.lastVal))]
        else [];
      ButtonPoll(b.(lastVal := level), events, Some(level))
    else
      ButtonPoll(b, [], None)
  }

  /** The callback invocations made by polling `b` on each level of `samples` in turn. */
  function Trace(b: ButtonDef, samples: seq<Level>): seq<Event>
    decreases |samples|
  {
    if samples == [] then []
    else
      var p := PollButton(b, samples[0]);
      p.events + Trace(p.def, samples[1..])
  }

  /** How many levels of `samples` differ from the level read just before (the first from `last`). */
  function Changes(last: byte, samples: seq<Level>): nat
    decreases |samples|
  {
    if samples == [] then 0
    else (if samples[0] != last then 1 else 0) + Changes(samples[0], samples[1..])
  }

  /** A button with a callback reports exactly one event per level change; one without reports none. */
  lemma {:induction false} TraceCountsChanges(b: ButtonDef, samples: seq<Level>)
    ensures |Trace(b, samples)| == if b.buttonCallback.Some? then Changes(b.lastVal, samples) else 0
    decreases |samples|
  {
    if samples != [] {
      TraceCountsChanges(b.(lastVal := samples[0]), samples[1..]);
    }
  }

  /** The state of the `i`-th report of a button last seen at `last`. */
  function AlternateState(last: Level, i: nat): ButtonState
  {
    if (i % 2 == 0) == (last == HIGH) then ButtonPressed else ButtonDepressed
  }

  /**
    The reports of a button whose last level is LOW or HIGH alternate, and the
    first one names the level being left: a button idle at HIGH (a pull-up)
    reports Pressed, Depressed, Pressed, ...; one idle at LOW the opposite.
   */
  lemma {:induction false} TraceAlternates(b: ButtonDef, samples: seq<Level>)
    requires b.lastVal == LOW || b.lastVal == HIGH
    requires b.buttonCallback.Some?
    ensures forall i :: 0 <= i < |Trace(b, samples)| ==>
      Trace(b, samples)[i] == ButtonEvent(b.buttonCallback.value, b.key, AlternateState(b.lastVal, i))
    decreases |samples|
  {
    if samples != [] {
      var b' := b.(lastVal := samples[0]);
      TraceAlternates(b', samples[1..]);
      if samples[0] == b.lastVal {
        assert b' == b;
      } else {
        var rest := Trace(b', samples[1..]);
        var t := Trace(b, samples);
        assert t == [ButtonEvent(b.buttonCallback.value, b.key, LeftState(b.lastVal))] + rest;
        forall i | 0 <= i < |t|
          ensures t[i] == ButtonEvent(b.buttonCallback.value, b.key, AlternateState(b.lastVal, i))
        {
          AlternateShift(b.lastVal, samples[0], i);
          if i > 0 {
            assert t[i] == rest[i - 1];
          }
        }
      }
    }
  }

  /** After a level change the alternation restarts one report later from the other level. */
  lemma AlternateShift(last: Level, next: Level, i: nat)
    requires last != next
    ensures i == 0 ==> AlternateState(last, 0) == LeftState(last)
    ensures i > 0 ==> AlternateState(next, i - 1) == AlternateState(last, i)
  {
  }

  // ---------------------------------------------------------------------
  // Registration
  // ---------------------------------------------------------------------

  /** The definition stored on registration: a pull-up button starts idle at HIGH, others keep their level. */
  function Seeded(b: ButtonDef): ButtonDef
  {
    if b.pullUp then b.(lastVal := HIGH) else b
  }

  /** The mode a button's pin is configured with on registration. */
  function ModeOf(b: ButtonDef): PinMode
  {
    if b.pullUp then InputPullUp else Input
  }

  /** A registered pull-up button with a callback reports Pressed when its pin goes LOW and Depressed when it returns HIGH. */
  lemma PullUpPressThenRelease(b: ButtonDef)
    requires b.pullUp && b.buttonCallback.Some?
    ensures Trace(Seeded(b), [HIGH, LOW, HIGH]) ==
      [ButtonEvent(b.buttonCallback.value, b.key, ButtonPressed),
       ButtonEvent(b.buttonCallback.value, b.key, ButtonDepressed)]
  {
    var s := Seeded(b);
    var down := s.(lastVal := LOW);
    var samples: seq<Level> := [HIGH, LOW, HIGH];
    assert samples[1..] == [LOW, HIGH] && samples[1..][1..] == [HIGH];
    assert Trace(s, [HIGH]) == [];
    assert Trace(down, [HIGH]) == [ButtonEvent(b.buttonCallback.value, b.key, ButtonDepressed)];
    assert Trace(s, [LOW, HIGH]) == [ButtonEvent(b.buttonCallback.value, b.key, ButtonPressed)] + Trace(down, [HIGH]);
    assert Trace(s, samples) == Trace(s, [LOW, HIGH]);
  }

  /** The clockwise-channel button made for encoder `e`, owned by encoder number `parent`. */
  function ClockwiseChild(e: EncoderDef, parent: nat): ButtonDef
  {
    ButtonDef(e.key + ".CW", e.clockwisePin, false, None, Some(parent), LOW)
  }

  /** The anti-clockwise-channel button made for encoder `e`, owned by encoder number `parent`. */
  function AntiClockwiseChild(e: EncoderDef, parent: nat): ButtonDef
  {
    ButtonDef(e.key + ".AC", e.antiClockwisePin, false, None, Some(parent), LOW)
  }

  /** The press button made for encoder `e`: always a pull-up, with the encoder's button callback and no owner. */
  function PressChild(e: EncoderDef): ButtonDef
  {
    ButtonDef(e.key + ".B", e.buttonPin, true, e.buttonCallback, None, LOW)
  }

  // ---------------------------------------------------------------------
  // Decoding one encoder
  // ---------------------------------------------------------------------

  /**
    The values a caller finds where a button poll falls off the end without
    returning: one for the poll of the clockwise channel, one for the
    anti-clockwise channel.
   */
  datatype StrayReturns = StrayReturns(clockwise: byte, antiClockwise: byte)

  /** The value a caller uses from a button poll that returned `r`. */
  function Seen(r: Option<byte>, stray: byte): byte
  {
    if r.Some? then r.value else stray
  }

  /**
    The outcome of decoding an encoder: its updated definition, the callback
    invocations made by polling its channel buttons, and the direction
    reported to the rotation callback, if any.
   */
  datatype EncoderPoll = EncoderPoll(def: EncoderDef, childEvents: seq<Event>, rotation: Option<EncoderState>)
  {
    /** Every callback invocation of the decode step, in order. */
    function Events(): seq<Event>
    {
      childEvents + if rotation.Some? then [EncoderEvent(def.encoderCallback, def.key, rotation.value)] else []
    }
  }

  /** The encoder's channel indices point into the button table `bs`. */
  predicate IndicesIn(e: EncoderDef, bs: seq<ButtonDef>)
  {
    e.clockwiseIndex as int < |bs| && e.antiClockwiseIndex as int < |bs| && e.buttonIndex as int < |bs|
  }

  /**
    Decoding encoder `e` against the button table `bs`. Both channels are
    polled on copies of their table entries, so `bs` is left as it was; the
    anti-clockwise channel is polled only on a rotation.
   */
  function DecodeEncoder(e: EncoderDef, bs: seq<ButtonDef>, levels: PinLevels, stray: StrayReturns): (r: EncoderPoll)
    requires IndicesIn(e, bs)
    ensures r.def == e.(lastVal := r.def.lastVal)
    ensures r.rotation.Some? ==> e.lastVal == LOW && r.def.lastVal == HIGH
    ensures bs[e.clockwiseIndex].buttonCallback.None? && bs[e.antiClockwiseIndex].buttonCallback.None?
      ==> r.childEvents == []
  {
    var clockwiseButton := bs[e.clockwiseIndex];
    var antiClockwiseButton := bs[e.antiClockwiseIndex];
    var cw := PollButton(clockwiseButton, levels(clockwiseButton.digitalPin));
    var clockwise := Seen(cw.result, stray.clockwise);
    if e.lastVal == LOW && clockwise == HIGH then
      var ac := PollButton(antiClockwiseButton, levels(antiClockwiseButton.digitalPin));
      var antiClockwise := Seen(ac.result, stray.antiClockwise);
      var direction := if antiClockwise == HIGH then EncoderClockwise else EncoderAntiClockwise;
      EncoderPoll(e.(lastVal := clockwise), cw.events + ac.events, Some(direction))
    else
      EncoderPoll(e.(lastVal := clockwise), cw.events, None)
  }

  /** A channel button as the registry keeps it: owned by encoder `parent`, never updated from LOW, no callback. */
  predicate ChildAtRest(bs: seq<ButtonDef>, i: byte, parent: nat)
  {
    i as int < |bs| && bs[i].encoderParent == Some(parent) && bs[i].lastVal == LOW && bs[i].buttonCallback.None?
  }

  /**
    Decoding as the code is written, for channel buttons at rest. A HIGH
    clockwise channel is a change from the copy's LOW, so the poll returns
    HIGH and a rotation is reported iff the encoder last saw LOW. A LOW
    clockwise channel is no change, so the encoder uses the stray value.
    The direction is Clockwise iff the anti-clockwise poll is seen as HIGH.
   */
  lemma DecodeAsWritten(e: EncoderDef, bs: seq<ButtonDef>, levels: PinLevels, stray: StrayReturns, parent: nat)
    requires IndicesIn(e, bs)
    requires ChildAtRest(bs, e.clockwiseIndex, parent) && ChildAtRest(bs, e.antiClockwiseIndex, parent)
    ensures var r := DecodeEncoder(e, bs, levels, stray);
      var cwLevel := levels(bs[e.clockwiseIndex].digitalPin);
      var acLevel := levels(bs[e.antiClockwiseIndex].digitalPin);
      && r.childEvents == []
      && r.def.lastVal == (if cwLevel == HIGH then HIGH else stray.clockwise)
      && (r.rotation.Some? <==> e.lastVal == LOW && r.def.lastVal == HIGH)
      && (r.rotation.Some? ==>
            (r.rotation.value == EncoderClockwise <==> acLevel == HIGH || stray.antiClockwise == HIGH))
  {
  }

  /**
    Counterexample to rising-edge decoding in the code as written: with every
    pin LOW and an encoder that last saw LOW, a stray HIGH where the clockwise
    poll returns nothing makes the encoder report a clockwise rotation.
   */
  lemma StrayRotation()
    ensures var e := EncoderDef("Vol", 3, 4, 5, true, None, 9, 0, 1, 2, LOW);
      var bs := [ClockwiseChild(e, 0), AntiClockwiseChild(e, 0), Seeded(PressChild(e))];
      var r := DecodeEncoder(e, bs, _ => LOW, StrayReturns(HIGH, HIGH));
      r.rotation == Some(EncoderClockwise) && r.def.lastVal == HIGH
  {
  }

  /**
    Counterexample to rising-edge decoding in the code as written, the other
    way round: after a tick with the clockwise pin LOW the encoder remembers
    the stray value 2, so the next tick's real LOW-to-HIGH edge on every pin
    is not reported.
   */
  lemma MissedEdge()
    ensures var e := EncoderDef("Vol", 3, 4, 5, true, None, 9, 0, 1, 2, LOW);
      var bs := [ClockwiseChild(e, 0), AntiClockwiseChild(e, 0), Seeded(PressChild(e))];
      var first := DecodeEncoder(e, bs, _ => LOW, StrayReturns(2, 2));
      var second := DecodeEncoder(first.def, bs, _ => HIGH, StrayReturns(2, 2));
      && first.rotation.None? && first.def.lastVal == 2
      && second.rotation.None? && second.def.lastVal == HIGH
  {
  }

  /**
    The stray values that make the decode behave as if the button poll
    returned the level it read on every path (the evident intent): the
    caller then sees exactly the level of each channel.
   */
  function IntendedStray(e: EncoderDef, bs: seq<ButtonDef>, levels: PinLevels): (s: StrayReturns)
    requires IndicesIn(e, bs)
    ensures var cwButton := bs[e.clockwiseIndex];
      Seen(PollButton(cwButton, levels(cwButton.digitalPin)).result, s.clockwise) == levels(cwButton.digitalPin)
    ensures var acButton := bs[e.antiClockwiseIndex];
      Seen(PollButton(acButton, levels(acButton.digitalPin)).result, s.antiClockwise) == levels(acButton.digitalPin)
  {
    StrayReturns(levels(bs[e.clockwiseIndex].digitalPin), levels(bs[e.antiClockwiseIndex].digitalPin))
  }

  /**
    With a button poll that always returns the level it read, an encoder
    reports a rotation exactly on a LOW-to-HIGH edge of its clockwise
    channel, Clockwise iff the anti-clockwise channel reads HIGH, and then
    remembers the clockwise level.
   */
  lemma DecodeIntended(e: EncoderDef, bs: seq<ButtonDef>, levels: PinLevels)
    requires IndicesIn(e, bs)
    ensures var r := DecodeEncoder(e, bs, levels, IntendedStray(e, bs, levels));
      var cwLevel := levels(bs[e.clockwiseIndex].digitalPin);
      var acLevel := levels(bs[e.antiClockwiseIndex].digitalPin);
      && r.def.lastVal == cwLevel
      && (r.rotation.Some? <==> e.lastVal == LOW && cwLevel == HIGH)
      && (r.rotation.Some? ==> (r.rotation.value == EncoderClockwise <==> acLevel == HIGH))
  {
  }

  // ---------------------------------------------------------------------
  // Polling the whole registry
  // ---------------------------------------------------------------------

  /** Every encoder's channel indices point into `bs`. */
  predicate AllIndicesIn(bs: seq<ButtonDef>, es: seq<EncoderDef>)
  {
    forall j :: 0 <= j < |es| ==> IndicesIn(es[j], bs)
  }

  /**
    The registry's invariant: each encoder's channel buttons are in the
    table, owned by that encoder and at rest, and its press button is in the
    table.
   */
  predicate WellFormed(bs: seq<ButtonDef>, es: seq<EncoderDef>)
  {
    forall j :: 0 <= j < |es| ==>
      && ChildAtRest(bs, es[j].clockwiseIndex, j)
      && ChildAtRest(bs, es[j].antiClockwiseIndex, j)
      && es[j].buttonIndex as int < |bs|
  }

  /** The invariant keeps every encoder's indices inside the button table. */
  lemma WellFormedIndices(bs: seq<ButtonDef>, es: seq<EncoderDef>)
    requires WellFormed(bs, es)
    ensures AllIndicesIn(bs, es)
  {
    forall j | 0 <= j < |es| ensures IndicesIn(es[j], bs) {
      assert ChildAtRest(bs, es[j].clockwiseIndex, j) && ChildAtRest(bs, es[j].antiClockwiseIndex, j);
    }
  }

  /** Appending a button keeps every registered encoder's children in place. */
  lemma WellFormedGrows(bs: seq<ButtonDef>, b: ButtonDef, es: seq<EncoderDef>)
    requires WellFormed(bs, es)
    ensures WellFormed(bs + [b], es)
  {
    forall j | 0 <= j < |es|
      ensures ChildAtRest(bs + [b], es[j].clockwiseIndex, j) && ChildAtRest(bs + [b], es[j].antiClockwiseIndex, j)
    {
      assert ChildAtRest(bs, es[j].clockwiseIndex, j) && ChildAtRest(bs, es[j].antiClockwiseIndex, j);
    }
  }

  /** Appending an encoder whose channel buttons are at rest and owned by it keeps the invariant. */
  lemma WellFormedAppend(bs: seq<ButtonDef>, es: seq<EncoderDef>, e: EncoderDef)
    requires WellFormed(bs, es)
    requires ChildAtRest(bs, e.clockwiseIndex, |es|) && ChildAtRest(bs, e.antiClockwiseIndex, |es|)
    requires e.buttonIndex as int < |bs|
    ensures WellFormed(bs, es + [e])
  {
    forall j | 0 <= j < |es| + 1
      ensures ChildAtRest(bs, (es + [e])[j].clockwiseIndex, j) && ChildAtRest(bs, (es + [e])[j].antiClockwiseIndex, j)
    {
      if j < |es| {
        assert (es + [e])[j] == es[j];
        assert ChildAtRest(bs, es[j].clockwiseIndex, j) && ChildAtRest(bs, es[j].antiClockwiseIndex, j);
      }
    }
  }

  /** A table slot after the top-level button loop: owned buttons are skipped, the others polled. */
  function PolledButton(b: ButtonDef, levels: PinLevels): ButtonDef
  {
    if b.encoderParent.None? then b.(lastVal := levels(b.digitalPin)) else b
  }

  /** The callback invocations the top-level button loop makes for slot `b`. */
  function PolledEvents(b: ButtonDef, levels: PinLevels): seq<Event>
  {
    if b.encoderParent.None? then PollButton(b, levels(b.digitalPin)).events else []
  }

  function PollButtons(bs: seq<ButtonDef>, levels: PinLevels): seq<ButtonDef>
  {
    seq(|bs|, k requires 0 <= k < |bs| => PolledButton(bs[k], levels))
  }

  /** The button loop leaves owned buttons alone, so the encoders' children stay at rest. */
  lemma PolledKeepsWellFormed(bs: seq<ButtonDef>, es: seq<EncoderDef>, levels: PinLevels)
    requires WellFormed(bs, es)
    ensures WellFormed(PollButtons(bs, levels), es)
  {
    var polled := PollButtons(bs, levels);
    forall j | 0 <= j < |es|
      ensures ChildAtRest(polled, es[j].clockwiseIndex, j) && ChildAtRest(polled, es[j].antiClockwiseIndex, j)
    {
      assert ChildAtRest(bs, es[j].clockwiseIndex, j) && ChildAtRest(bs, es[j].antiClockwiseIndex, j);
    }
  }

  /** The top-level button loop's callback invocations for the first `n` slots, in ascending slot order. */
  function ButtonEvents(bs: seq<ButtonDef>, n: nat, levels: PinLevels): seq<Event>
    requires n <= |bs|
  {
    if n == 0 then [] else ButtonEvents(bs, n - 1, levels) + PolledEvents(bs[n - 1], levels)
  }

  function DecodeAll(es: seq<EncoderDef>, bs: seq<ButtonDef>, levels: PinLevels, stray: StrayReturns): seq<EncoderDef>
    requires AllIndicesIn(bs, es)
  {
    seq(|es|, j requires 0 <= j < |es| => DecodeEncoder(es[j], bs, levels, stray).def)
  }

  /** The encoder loop's callback invocations, encoder by encoder in ascending index order. */
  function EncoderEvents(es: seq<EncoderDef>, bs: seq<ButtonDef>, levels: PinLevels, stray: StrayReturns): seq<Event>
    requires AllIndicesIn(bs, es)
    decreases |es|
  {
    if es == [] then []
    else
      EncoderEvents(es[..|es| - 1], bs, levels, stray)
      + DecodeEncoder(es[|es| - 1], bs, levels, stray).Events()
  }

  /** The two tables of the registry, each cut at its occupancy count. */
  datatype RegistryState = RegistryState(buttons: seq<ButtonDef>, encoders: seq<EncoderDef>)

  datatype PollResult = PollResult(state: RegistryState, events: seq<Event>)

  /**
    One poll of the whole registry: every button without an owner, in index
    order, then every encoder, decoded against the table as the button loop
    left it.
   */
  function Poll(s: RegistryState, levels: PinLevels, stray: StrayReturns): (r: PollResult)
    requires AllIndicesIn(s.buttons, s.encoders)
    ensures |r.state.buttons| == |s.buttons| && |r.state.encoders| == |s.encoders|
    ensures forall k :: 0 <= k < |s.buttons| && s.buttons[k].encoderParent.Some? ==>
      r.state.buttons[k] == s.buttons[k]
    ensures forall k :: 0 <= k < |s.buttons| && s.buttons[k].encoderParent.None? ==>
      r.state.buttons[k] == s.buttons[k].(lastVal := levels(s.buttons[k].digitalPin))
    ensures AllIndicesIn(r.state.buttons, r.state.encoders)
    ensures WellFormed(s.buttons, s.encoders) ==> WellFormed(r.state.buttons, r.state.encoders)
  {
    var bs := PollButtons(s.buttons, levels);
    assert AllIndicesIn(bs, s.encoders);
    var es := DecodeAll(s.encoders, bs, levels, stray);
    PollResult(RegistryState(bs, es), ButtonEvents(s.buttons, |s.buttons|, levels) + EncoderEvents(s.encoders, bs, levels, stray))
  }

  /** Unfolding lemma: spells out `Poll` as the button loop followed by the encoder loop over the table the button loop left. */
  lemma PollSteps(s: RegistryState, levels: PinLevels, stray: StrayReturns)
    requires AllIndicesIn(s.buttons, s.encoders)
    ensures var bs := PollButtons(s.buttons, levels);
      && AllIndicesIn(bs, s.encoders)
      && Poll(s, levels, stray) == PollResult(RegistryState(bs, DecodeAll(s.encoders, bs, levels, stray)),
           ButtonEvents(s.buttons, |s.buttons|, levels) + EncoderEvents(s.encoders, bs, levels, stray))
  {
  }

  /** The reports of the first `n` slots depend on those slots only. */
  lemma {:induction false} ButtonEventsPrefix(xs: seq<ButtonDef>, ys: seq<ButtonDef>, n: nat, levels: PinLevels)
    requires n <= |xs| && n <= |ys|
    requires forall k :: 0 <= k < n ==> xs[k] == ys[k]
    ensures ButtonEvents(xs, n, levels) == ButtonEvents(ys, n, levels)
  {
    if n > 0 {
      ButtonEventsPrefix(xs, ys, n - 1, levels);
    }
  }

  /** The button loop's reports split at any slot: those of the earlier slots come first. */
  lemma {:induction false} ButtonEventsAppend(xs: seq<ButtonDef>, ys: seq<ButtonDef>, n: nat, levels: PinLevels)
    requires n <= |ys|
    ensures ButtonEvents(xs + ys, |xs| + n, levels) == ButtonEvents(xs, |xs|, levels) + ButtonEvents(ys, n, levels)
  {
    if n == 0 {
      ButtonEventsPrefix(xs + ys, xs, |xs|, levels);
    } else {
      ButtonEventsAppend(xs, ys, n - 1, levels);
      var front, back, last := ButtonEvents(xs, |xs|, levels), ButtonEvents(ys, n - 1, levels), PolledEvents(ys[n - 1], levels);
      assert (xs + ys)[|xs| + n - 1] == ys[n - 1];
      assert ButtonEvents(ys, n, levels) == back + last;
      assert (front + back) + last == front + (back + last);
    }
  }

  /** Whether the top-level button loop makes `b` invoke its callback: not owned, changed, with a callback. */
  predicate Fires(b: ButtonDef, levels: PinLevels)
  {
    b.encoderParent.None? && b.buttonCallback.Some? && levels(b.digitalPin) != b.lastVal
  }

  /** The invocation a firing button makes. */
  function Report(b: ButtonDef): Event
    requires b.buttonCallback.Some?
  {
    ButtonEvent(b.buttonCallback.value, b.key, LeftState(b.lastVal))
  }

  /**
    The button loop reports exactly the buttons that fire: every report comes
    from a firing button among the first `n` slots (so never from a button
    owned by an encoder), and every firing button there is reported.
   */
  lemma {:induction false} ButtonEventsExactlyFiring(bs: seq<ButtonDef>, n: nat, levels: PinLevels)
    requires n <= |bs|
    ensures forall ev :: ev in ButtonEvents(bs, n, levels) ==>
      exists k :: 0 <= k < n && Fires(bs[k], levels) && ev == Report(bs[k])
    ensures forall k :: 0 <= k < n && Fires(bs[k], levels) ==> Report(bs[k]) in ButtonEvents(bs, n, levels)
  {
    if n > 0 {
      ButtonEventsExactlyFiring(bs, n - 1, levels);
      var earlier, last := ButtonEvents(bs, n - 1, levels), PolledEvents(bs[n - 1], levels);
      assert ButtonEvents(bs, n, levels) == earlier + last;
      assert Fires(bs[n - 1], levels) ==> last == [Report(bs[n - 1])];
      assert !Fires(bs[n - 1], levels) ==> last == [];
    }
  }

  /** Buttons whose last level is what their pin reads report nothing. */
  lemma {:induction false} SettledButtonsQuiet(bs: seq<ButtonDef>, n: nat, levels: PinLevels)
    requires n <= |bs|
    requires forall k :: 0 <= k < |bs| && bs[k].encoderParent.None? ==> bs[k].lastVal == levels(bs[k].digitalPin)
    ensures ButtonEvents(bs, n, levels) == []
  {
    if n > 0 {
      SettledButtonsQuiet(bs, n - 1, levels);
    }
  }

  /** Encoders that already remember what their clockwise poll is seen as report nothing. */
  lemma {:induction false} SettledEncodersQuiet(es: seq<EncoderDef>, bs: seq<ButtonDef>, levels: PinLevels, stray: StrayReturns)
    requires AllIndicesIn(bs, es)
    requires forall j :: 0 <= j < |es| ==> es[j] == DecodeEncoder(es[j], bs, levels, stray).def
    requires WellFormed(bs, es)
    ensures EncoderEvents(es, bs, levels, stray) == []
    decreases |es|
  {
    if es != [] {
      var n := |es| - 1;
      SettledEncodersQuiet(es[..n], bs, levels, stray);
      var d := DecodeEncoder(es[n], bs, levels, stray);
      assert es[n] == d.def;
      assert ChildAtRest(bs, es[n].clockwiseIndex, n) && ChildAtRest(bs, es[n].antiClockwiseIndex, n);
      assert d.rotation.None? && d.childEvents == [];
    }
  }

  /** Polling the buttons a second time with the same levels leaves them as the first poll did. */
  lemma PollButtonsSettle(bs: seq<ButtonDef>, levels: PinLevels)
    ensures var polled := PollButtons(bs, levels);
      && PollButtons(polled, levels) == polled
      && forall k :: 0 <= k < |polled| && polled[k].encoderParent.None? ==> polled[k].lastVal == levels(polled[k].digitalPin)
  {
  }

  /** Decoding encoders a second time against the same buttons and levels leaves them as the first decode did. */
  lemma DecodeAllSettles(es: seq<EncoderDef>, bs: seq<ButtonDef>, levels: PinLevels, stray: StrayReturns)
    requires AllIndicesIn(bs, es)
    ensures var decoded := DecodeAll(es, bs, levels, stray);
      && AllIndicesIn(bs, decoded)
      && (forall j :: 0 <= j < |decoded| ==> decoded[j] == DecodeEncoder(decoded[j], bs, levels, stray).def)
      && DecodeAll(decoded, bs, levels, stray) == decoded
  {
    var decoded := DecodeAll(es, bs, levels, stray);
    forall j | 0 <= j < |decoded|
      ensures IndicesIn(decoded[j], bs) && decoded[j] == DecodeEncoder(decoded[j], bs, levels, stray).def
    {
      assert IndicesIn(es[j], bs);
    }
  }

  /**
    Polling twice with unchanged pin levels. Whatever stray values the second
    poll finds, its button loop changes nothing and reports nothing, so all it
    reports comes from the encoders. When it also finds the same stray values
    as the first poll, it changes nothing at all and reports nothing. (With
    different stray values an encoder whose clockwise pin reads LOW can report
    a rotation again, as in `StrayRotation`.)
   */
  lemma PollTwiceQuiet(s: RegistryState, levels: PinLevels, stray1: StrayReturns, stray2: StrayReturns)
    requires WellFormed(s.buttons, s.encoders)
    ensures AllIndicesIn(s.buttons, s.encoders)
    ensures var first := Poll(s, levels, stray1);
      var second := Poll(first.state, levels, stray2);
      && second.state.buttons == first.state.buttons
      && AllIndicesIn(first.state.buttons, first.state.encoders)
      && second.events == EncoderEvents(first.state.encoders, first.state.buttons, levels, stray2)
    ensures stray2 == stray1 ==>
      var first := Poll(s, levels, stray1);
      var second := Poll(first.state, levels, stray2);
      second.state == first.state && second.events == []
  {
    WellFormedIndices(s.buttons, s.encoders);
    PollSteps(s, levels, stray1);
    var s1 := Poll(s, levels, stray1).state;
    PollSteps(s1, levels, stray2);
    PollButtonsSettle(s.buttons, levels);
    SettledButtonsQuiet(s1.buttons, |s1.buttons|, levels);
    if stray2 == stray1 {
      DecodeAllSettles(s.encoders, s1.buttons, levels, stray1);
      SettledEncodersQuiet(s1.encoders, s1.buttons, levels, stray1);
    }
  }
}
