/**
  The registry itself: the two fixed-size tables of button and encoder
  definitions with their occupancy counters, the operations that fill them
  at start-up and the poll that the main loop runs every tick. Callback
  invocations are appended to `events`; pin modes set on registration are
  recorded in the ghost map `pinModes`.
 */
module ButtonManager {
  import opened ButtonDefs

  const ButtonCapacity := 4
  const EncoderCapacity := 1

  class Registry {
    const buttons: array<ButtonDef>
    const encoders: array<EncoderDef>
    var buttonCount: nat
    var encoderCount: nat
    var events: seq<Event>
    ghost var pinModes: map<byte, PinMode>

    ghost predicate Valid()
      reads this, buttons, encoders
    {
      && buttons.Length == ButtonCapacity
      && encoders.Length == EncoderCapacity
      && buttonCount <= ButtonCapacity
      && encoderCount <= EncoderCapacity
      && WellFormed(buttons[..buttonCount], encoders[..encoderCount])
    }

    /** The occupied part of both tables. */
    ghost function State(): RegistryState
      reads this, buttons, encoders
      requires Valid()
    {
      RegistryState(buttons[..buttonCount], encoders[..encoderCount])
    }

    constructor ()
      ensures Valid() && fresh(buttons) && fresh(encoders)
      ensures buttonCount == 0 && encoderCount == 0
      ensures buttons[..] == [ZeroButton, ZeroButton, ZeroButton, ZeroButton]
      ensures encoders[..] == [ZeroEncoder]
      ensures events == [] && pinModes == map[]
    {
      buttons := new ButtonDef[ButtonCapacity](_ => ZeroButton);
      encoders := new EncoderDef[EncoderCapacity](_ => ZeroEncoder);
      buttonCount, encoderCount := 0, 0;
      events := [];
      pinModes := map[];
    }

    /**
      Polls the button `b` points at. What the pointer is updated to is
      returned as `polled`; the caller decides whether it is written back.
     */
    method CheckButton(b: ButtonDef, levels: PinLevels) returns (polled: ButtonDef, result: Option<byte>)
      modifies this`events
      ensures var p := PollButton(b, levels(b.digitalPin));
        polled == p.def && result == p.result && events == old(events) + p.events
    {
      var buttonVal := levels(b.digitalPin);
      var lastVal := b.lastVal;
      polled := b;
      result := None;
      if buttonVal != lastVal {
        polled := polled.(lastVal := buttonVal);
        if b.buttonCallback.Some? {
          events := events + [ButtonEvent(b.buttonCallback.value, b.key, LeftState(lastVal))];
        }
        result := Some(buttonVal);
      }
    }

    /**
      Decodes encoder `j` from copies of its channel buttons: the copies'
      updates are dropped, so the button table is not changed.
     */
    method CheckEncoder(j: nat, levels: PinLevels, stray: StrayReturns)
      requires Valid() && j < encoderCount
      modifies encoders, this`events
      ensures Valid()
      ensures var d := DecodeEncoder(old(encoders[j]), buttons[..buttonCount], levels, stray);
        && encoders[j] == d.def
        && events == old(events) + d.Events()
      ensures forall k :: 0 <= k < encoders.Length && k != j ==> encoders[k] == old(encoders[k])
      ensures buttons[..] == old(buttons[..])
    {
      ghost var bs := buttons[..buttonCount];
      assert WellFormed(bs, encoders[..encoderCount]) && encoders[..encoderCount][j] == encoders[j];
      var encoderDef := encoders[j];
      var clockwiseButton := buttons[encoderDef.clockwiseIndex];
      var antiClockwiseButton := buttons[encoderDef.antiClockwiseIndex];
      var clockwiseCopy, clockwiseResult := CheckButton(clockwiseButton, levels);
      var clockwise := Seen(clockwiseResult, stray.clockwise);
      if encoderDef.lastVal == LOW && clockwise == HIGH {
        var antiClockwiseCopy, antiClockwiseResult := CheckButton(antiClockwiseButton, levels);
        var antiClockwise := Seen(antiClockwiseResult, stray.antiClockwise);
        var direction := if antiClockwise == HIGH then EncoderClockwise else EncoderAntiClockwise;
        events := events + [EncoderEvent(encoderDef.encoderCallback, encoderDef.key, direction)];
      }
      encoders[j] := encoderDef.(lastVal := clockwise);
      assert encoders[..encoderCount] == old(encoders[..encoderCount])[j := encoders[j]];
    }

    /**
      Registers a button in the next free slot, configuring its pin and
      seeding a pull-up button's last level to HIGH; returns the slot.
      There is no capacity check: the caller must leave room.
     */
    method AddManagedButton(buttonDef: ButtonDef) returns (index: byte)
      requires Valid() && buttonCount < ButtonCapacity
      modifies buttons, this`buttonCount, this`pinModes
      ensures Valid()
      ensures index as int == old(buttonCount) && buttonCount == old(buttonCount) + 1
      ensures buttons[index] == Seeded(buttonDef)
      ensures buttons[..buttonCount] == old(buttons[..buttonCount]) + [Seeded(buttonDef)]
      ensures forall k :: 0 <= k < buttons.Length && k != index as int ==> buttons[k] == old(buttons[k])
      ensures pinModes == old(pinModes)[buttonDef.digitalPin := ModeOf(buttonDef)]
    {
      var stored := buttonDef;
      if buttonDef.pullUp {
        pinModes := pinModes[buttonDef.digitalPin := InputPullUp];
        stored := stored.(lastVal := HIGH);
      } else {
        pinModes := pinModes[buttonDef.digitalPin := Input];
      }
      ghost var before := buttons[..buttonCount];
      buttons[buttonCount] := stored;
      buttonCount := buttonCount + 1;
      index := (buttonCount - 1) as byte;
      assert buttons[..buttonCount] == before + [stored];
      WellFormedGrows(before, stored, encoders[..encoderCount]);
    }

    /**
      Registers an encoder: its clockwise channel, anti-clockwise channel and
      press button become three consecutive buttons, whose slots are recorded
      in the encoder before it is appended. Only the two channels are marked
      as owned by it; the press button is always a pull-up.
     */
    method AddManagedEncoder(encoderDef: EncoderDef)
      requires Valid() && buttonCount + 3 <= ButtonCapacity && encoderCount < EncoderCapacity
      modifies buttons, encoders, this`buttonCount, this`encoderCount, this`pinModes
      ensures Valid()
      ensures buttonCount == old(buttonCount) + 3 && encoderCount == old(encoderCount) + 1
      ensures var c, parent := old(buttonCount), old(encoderCount);
        && buttons[..buttonCount] == old(buttons[..buttonCount]) +
             [ClockwiseChild(encoderDef, parent), AntiClockwiseChild(encoderDef, parent), Seeded(PressChild(encoderDef))]
        && encoders[..encoderCount] == old(encoders[..encoderCount]) +
             [encoderDef.(clockwiseIndex := c as byte, antiClockwiseIndex := (c + 1) as byte, buttonIndex := (c + 2) as byte)]
      ensures forall k :: buttonCount <= k < buttons.Length ==> buttons[k] == old(buttons[k])
      ensures pinModes == old(pinModes)[encoderDef.clockwisePin := Input]
        [encoderDef.antiClockwisePin := Input][encoderDef.buttonPin := InputPullUp]
    {
      var parent := encoderCount;
      var clockwiseButton := ClockwiseChild(encoderDef, parent);
      var antiClockwiseButton := AntiClockwiseChild(encoderDef, parent);
      var button := PressChild(encoderDef);
      ghost var before := buttons[..buttonCount];
      ghost var encodersBefore := encoders[..encoderCount];

      var registered := encoderDef;
      var clockwiseIndex := AddManagedButton(clockwiseButton);
      var antiClockwiseIndex := AddManagedButton(antiClockwiseButton);
      var buttonIndex := AddManagedButton(button);
      registered := registered.(clockwiseIndex := clockwiseIndex, antiClockwiseIndex := antiClockwiseIndex,
                                buttonIndex := buttonIndex);

      var bs := buttons[..buttonCount];
      assert bs == before + [clockwiseButton, antiClockwiseButton, Seeded(button)];
      encoders[encoderCount] := registered;
      encoderCount := encoderCount + 1;
      assert encoders[..encoderCount] == encodersBefore + [registered];
      WellFormedAppend(bs, encodersBefore, registered);
    }

    /**
      One tick of the main loop: every button without an owning encoder is
      polled in place, in slot order, then every encoder is decoded.
     */
    method CheckManagedButtons(levels: PinLevels, stray: StrayReturns)
      requires Valid()
      modifies buttons, encoders, this`events
      ensures Valid()
      ensures AllIndicesIn(old(State()).buttons, old(State()).encoders)
      ensures var p := Poll(old(State()), levels, stray);
        State() == p.state && events == old(events) + p.events
      ensures forall k :: buttonCount <= k < buttons.Length ==> buttons[k] == old(buttons[k])
      ensures forall k :: encoderCount <= k < encoders.Length ==> encoders[k] == old(encoders[k])
    {
      ghost var s0 := State();
      WellFormedIndices(s0.buttons, s0.encoders);
      ghost var table := buttons[..];
      CheckUnownedButtons(levels);
      ButtonEventsPrefix(table, s0.buttons, buttonCount, levels);
      PolledKeepsWellFormed(s0.buttons, s0.encoders, levels);
      assert encoders[..encoderCount] == s0.encoders;
      CheckEncoders(levels, stray);
      PollSteps(s0, levels, stray);
    }

    /** The first loop of a tick: polls, in place, every button that no encoder owns. */
    method CheckUnownedButtons(levels: PinLevels)
      requires buttonCount <= buttons.Length
      modifies buttons, this`events
      ensures buttons[..buttonCount] == PollButtons(old(buttons[..buttonCount]), levels)
      ensures forall k :: buttonCount <= k < buttons.Length ==> buttons[k] == old(buttons[k])
      ensures encoders[..] == old(encoders[..])
      ensures events == old(events) + ButtonEvents(old(buttons[..]), buttonCount, levels)
    {
      ghost var before := buttons[..];
      var i := 0;
      while i < buttonCount
        invariant 0 <= i <= buttonCount
        invariant forall k :: 0 <= k < buttons.Length ==>
          buttons[k] == if k < i then PolledButton(before[k], levels) else before[k]
        invariant events == old(events) + ButtonEvents(before, i, levels)
      {
        if buttons[i].encoderParent.None? {
          var polled, _ := CheckButton(buttons[i], levels);
          buttons[i] := polled;
        }
        i := i + 1;
      }
      assert buttons[..buttonCount] == PollButtons(before[..buttonCount], levels);
    }

    /** The second loop of a tick: decodes every encoder in slot order. */
    method CheckEncoders(levels: PinLevels, stray: StrayReturns)
      requires Valid()
      modifies encoders, this`events
      ensures Valid()
      ensures AllIndicesIn(buttons[..buttonCount], old(encoders[..encoderCount]))
      ensures encoders[..encoderCount] == DecodeAll(old(encoders[..encoderCount]), buttons[..buttonCount], levels, stray)
      ensures events == old(events) + EncoderEvents(old(encoders[..encoderCount]), buttons[..buttonCount], levels, stray)
      ensures forall k :: encoderCount <= k < encoders.Length ==> encoders[k] == old(encoders[k])
    {
      ghost var bs := buttons[..buttonCount];
      ghost var es0 := encoders[..encoderCount];
      WellFormedIndices(bs, es0);
      var j := 0;
      while j < encoderCount
        invariant 0 <= j <= encoderCount
        invariant Valid()
        invariant forall k :: 0 <= k < j ==> encoders[k] == DecodeEncoder(es0[k], bs, levels, stray).def
        invariant forall k :: j <= k < encoders.Length ==> encoders[k] == old(encoders[k])
        invariant events == old(events) + EncoderEvents(es0[..j], bs, levels, stray)
      {
        assert es0[..j + 1][..j] == es0[..j];
        CheckEncoder(j, levels, stray);
        j := j + 1;
      }
      assert es0[..encoderCount] == es0;
      assert encoders[..encoderCount] == DecodeAll(es0, bs, levels, stray);
    }
  }

  /** A registry holding a single plain button: one poll is exactly one `CheckButton` on it. */
  lemma SingleButtonPoll(b: ButtonDef, levels: PinLevels, stray: StrayReturns)
    requires b.encoderParent.None?
    ensures var p := PollButton(b, levels(b.digitalPin));
      Poll(RegistryState([b], []), levels, stray) == PollResult(RegistryState([p.def], []), p.events)
  {
    PollSteps(RegistryState([b], []), levels, stray);
    assert ButtonEvents([b], 1, levels) == ButtonEvents([b], 0, levels) + PolledEvents(b, levels);
  }

  /**
    An encoder "Vol" on pins 3 and 4 with its button on pin 5, just added to an
    empty registry, turned one step with both channels and the button pin HIGH:
    one clockwise rotation, nothing else.
   */
  lemma VolumeTurn(levels: PinLevels, stray: StrayReturns)
    requires levels(3) == HIGH && levels(4) == HIGH && levels(5) == HIGH
    ensures var vol := EncoderDef("Vol", 3, 4, 5, true, Some(2), 7, 0, 1, 2, LOW);
      var bs := [ClockwiseChild(vol, 0), AntiClockwiseChild(vol, 0), Seeded(PressChild(vol))];
      Poll(RegistryState(bs, [vol]), levels, stray)
        == PollResult(RegistryState(bs, [vol.(lastVal := HIGH)]), [EncoderEvent(7, "Vol", EncoderClockwise)])
  {
    var vol := EncoderDef("Vol", 3, 4, 5, true, Some(2), 7, 0, 1, 2, LOW);
    var bs := [ClockwiseChild(vol, 0), AntiClockwiseChild(vol, 0), Seeded(PressChild(vol))];
    PollSteps(RegistryState(bs, [vol]), levels, stray);
    SettledButtonsQuiet(bs, 3, levels);
    assert PollButtons(bs, levels) == bs;
    var d := DecodeEncoder(vol, bs, levels, stray);
    assert d.def == vol.(lastVal := HIGH);
    assert d.rotation == Some(EncoderClockwise) && d.childEvents == [];
    assert [vol][..0] == [];
  }

  /** A pull-up button "Home" on pin 2, pressed (its pin pulled LOW) and released. */
  method HomeButtonScenario()
  {
    var registry := new Registry();
    var home := registry.AddManagedButton(ButtonDef("Home", 2, true, Some(1), None, LOW));
    var b := ButtonDef("Home", 2, true, Some(1), None, HIGH);
    assert registry.State() == RegistryState([b], []);

    var pressed: PinLevels := p => if p == 2 then LOW else HIGH;
    var stray := StrayReturns(LOW, LOW);
    SingleButtonPoll(b, pressed, stray);
    registry.CheckManagedButtons(pressed, stray);
    assert registry.events == [ButtonEvent(1, "Home", ButtonPressed)];

    var released: PinLevels := _ => HIGH;
    var b' := b.(lastVal := LOW);
    SingleButtonPoll(b', released, stray);
    registry.CheckManagedButtons(released, stray);
    assert registry.events == [ButtonEvent(1, "Home", ButtonPressed), ButtonEvent(1, "Home", ButtonDepressed)];
  }

  /** The "Vol" encoder of `VolumeTurn`, driven through the registry. */
  method VolumeEncoderScenario()
  {
    var registry := new Registry();
    var vol := EncoderDef("Vol", 3, 4, 5, true, Some(2), 7, 0, 0, 0, LOW);
    registry.AddManagedEncoder(vol);
    var e := vol.(clockwiseIndex := 0, antiClockwiseIndex := 1, buttonIndex := 2);
    var bs := [ClockwiseChild(e, 0), AntiClockwiseChild(e, 0), Seeded(PressChild(e))];
    assert registry.State() == RegistryState(bs, [e]);

    var turned: PinLevels := _ => HIGH;
    VolumeTurn(turned, StrayReturns(LOW, LOW));
    registry.CheckManagedButtons(turned, StrayReturns(LOW, LOW));
    assert registry.events == [EncoderEvent(7, "Vol", EncoderClockwise)];
  }
}
