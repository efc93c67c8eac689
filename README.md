# ArduinoSmartScales button and encoder registry

This project models the input registry of ArduinoSmartScales
(`ArduinoSmartScales/ButtonManager.h`) and proves properties of the model.
The registry is a pair of fixed-size global tables: four button definitions
and one rotary-encoder definition, each with a byte occupancy counter. At
start-up the sketch registers buttons with `AddManagedButton` and encoders
with `AddManagedEncoder`. An encoder becomes three buttons: its clockwise
channel `.CW`, its anti-clockwise channel `.AC` and its press button `.B`.
On every tick of the main loop `CheckManagedButtons` polls each button that
no encoder owns, in slot order. It then decodes each encoder from its
channels. A button poll (`CheckButton`) compares the pin's level with the
last one seen. On a change it stores the new level and calls the button's
callback with the state being left: `ButtonDepressed` when the old level was
LOW, `ButtonPressed` otherwise. An encoder is meant to report a rotation on a
LOW-to-HIGH edge of its clockwise channel, with the direction
`EncoderClockwise` when the anti-clockwise channel is HIGH. It does so only
when the value `CheckButton` leaves on its no-change path happens to be the
level read; otherwise it can report a rotation without an edge or miss a real
edge (see "## Findings").

Two modules:

- `ButtonDefs` (`button_defs.dfy`) holds the values. These are the records,
  the events a callback receives, and the pure meaning of one button poll
  (`PollButton`), one encoder decode (`DecodeEncoder`) and one poll of the
  whole registry (`Poll`). The lemmas about them are here too.
- `ButtonManager` (`button_manager.dfy`) holds the class `Registry`. Its
  fields are the two tables as arrays, the two counters, the log of callback
  invocations `events` and a ghost map of pin modes. Its methods mirror the
  source's functions line by line and are proved against the functions of
  `ButtonDefs`. Two scenario methods drive a registry through a button press
  and an encoder turn.

How the hardware and the callbacks appear in the model:

- `digitalRead` is a parameter `levels: PinLevels` of type `byte -> Level`,
  giving what every pin reads during one poll.
- `pinMode` calls are recorded in the ghost map `pinModes`.
- A callback is a number (`Callback`). Calling it appends an `Event` to
  `events`. A NULL button callback is `None`.
- The `EncoderParent` pointer is kept only as an owner tag: the owning
  encoder's index, or `None` for NULL.

Three facts about the code that the model keeps:

- The press child's key suffix is `.B` (`ArduinoSmartScales/ButtonManager.h:111`).
- A button that is not a pull-up keeps the `LastVal` it was given
  (`ArduinoSmartScales/ButtonManager.h:85-88`).
- `EncoderCallback` is called without a NULL check
  (`ArduinoSmartScales/ButtonManager.h:71`), so it is a plain `Callback`
  here, not an optional one.

`CheckButton` has no `return` on its no-change path. The model gives its
result as `Option<byte>`, where `None` means no change. The value the caller
then reads is indeterminate, so `CheckEncoder` receives it as an input
(`StrayReturns`, one value per channel). `Seen` says which value the caller
uses. `CheckEncoder` polls copies of the channel buttons. So the registry's
`.CW` and `.AC` entries are never updated and stay at LOW. The invariant
`WellFormed` records this as `ChildAtRest`.

## Model

| member | source | states |
|---|---|---|
| ButtonDefs.PollButton | ArduinoSmartScales/ButtonManager.h:46-61 | A poll changes the button only when the level differs from `LastVal`, and then stores the level read. It returns a value exactly on a change, and that value is the level read. It makes at most one callback invocation. It makes one exactly on a change with a non-NULL callback, reporting the key and the state of the level being left. |
| ButtonDefs.TraceCountsChanges | ArduinoSmartScales/ButtonManager.h:50-58 | Over any sequence of polls, a button with a callback reports once per level change and a button without one never reports. |
| ButtonDefs.TraceAlternates | ArduinoSmartScales/ButtonManager.h:55-57 | For a button whose last level is LOW or HIGH, successive reports alternate between Pressed and Depressed. The first report names the level being left. |
| ButtonDefs.PullUpPressThenRelease | ArduinoSmartScales/ButtonManager.h:80-84 | A registered pull-up button starts idle at HIGH. Reading HIGH, LOW, HIGH makes it report Pressed, then Depressed, and nothing else. |
| ButtonDefs.DecodeEncoder | ArduinoSmartScales/ButtonManager.h:63-76 | Decoding changes only the encoder's `LastVal`. A rotation is reported only when the encoder last saw LOW and now remembers HIGH. Channel buttons without callbacks make no invocations. |
| ButtonDefs.DecodeAsWritten | ArduinoSmartScales/ButtonManager.h:63-76 | For channel buttons as the registry keeps them, the encoder remembers HIGH when its clockwise pin reads HIGH, and otherwise the stray value. It reports a rotation iff it last saw LOW and now remembers HIGH. The direction is Clockwise iff the anti-clockwise pin reads HIGH or its poll's stray value is HIGH. The channels make no invocations. |
| ButtonDefs.StrayRotation | ArduinoSmartScales/ButtonManager.h:67-68 | Counterexample: with every pin LOW and a stray HIGH, an encoder that last saw LOW reports a clockwise rotation. |
| ButtonDefs.MissedEdge | ArduinoSmartScales/ButtonManager.h:67-75 | Counterexample: after a tick with every pin LOW and a stray 2, the encoder remembers 2, and the next tick with every pin HIGH reports no rotation although the clockwise channel rose from LOW to HIGH. |
| ButtonDefs.IntendedStray | ArduinoSmartScales/ButtonManager.h:59-61 | The stray values with which the caller sees, on every path, exactly the level each channel poll read. |
| ButtonDefs.DecodeIntended | ArduinoSmartScales/ButtonManager.h:63-76 | With polls that always return the level read, the encoder reports a rotation exactly on a LOW-to-HIGH edge of its clockwise channel. The direction is Clockwise iff the anti-clockwise channel reads HIGH. The encoder always remembers the clockwise level. |
| ButtonDefs.WellFormedIndices | ArduinoSmartScales/ButtonManager.h:117-119 | In a well-formed registry every encoder's three recorded button indices point into the button table. |
| ButtonDefs.WellFormedGrows | ArduinoSmartScales/ButtonManager.h:89-90 | Appending a button keeps every registered encoder's channel buttons in place, owned and at rest. |
| ButtonDefs.WellFormedAppend | ArduinoSmartScales/ButtonManager.h:121-122 | Appending an encoder whose channel buttons are in the table, owned by it and at rest keeps the registry well-formed. |
| ButtonDefs.PolledKeepsWellFormed | ArduinoSmartScales/ButtonManager.h:127-133 | The button loop skips owned buttons, so every encoder's channel buttons stay at rest. |
| ButtonDefs.Poll | ArduinoSmartScales/ButtonManager.h:125-139 | A tick keeps both tables' sizes. It leaves buttons owned by an encoder unchanged. It sets every other button's last level to its pin's level. It keeps every encoder's indices inside the table, and it keeps a well-formed registry well-formed. |
| ButtonDefs.ButtonEventsAppend | ArduinoSmartScales/ButtonManager.h:127-133 | The button loop's reports are ordered by slot: the reports of earlier slots come before those of later slots. |
| ButtonDefs.ButtonEventsExactlyFiring | ArduinoSmartScales/ButtonManager.h:127-133 | Every report of the button loop comes from a button that no encoder owns, that has a callback and whose pin changed. Every such button is reported. |
| ButtonDefs.SettledButtonsQuiet | ArduinoSmartScales/ButtonManager.h:127-133 | When every unowned button's last level is what its pin reads, the button loop reports nothing. |
| ButtonDefs.SettledEncodersQuiet | ArduinoSmartScales/ButtonManager.h:135-138 | In a well-formed registry, encoders that already remember what their clockwise poll is seen as report nothing. |
| ButtonDefs.PollButtonsSettle | ArduinoSmartScales/ButtonManager.h:127-133 | A second button loop with the same levels leaves the table as the first left it. After the first, every unowned button's last level is its pin's level. |
| ButtonDefs.DecodeAllSettles | ArduinoSmartScales/ButtonManager.h:135-138 | A second encoder loop with the same levels leaves the encoders as the first left them. |
| ButtonDefs.PollTwiceQuiet | ArduinoSmartScales/ButtonManager.h:125-139 | In a well-formed registry, a second tick with unchanged levels leaves the button table unchanged and its button loop reports nothing, whatever stray values it finds; all it reports comes from the encoders. When it finds the same stray values as the first tick, it changes nothing and reports nothing at all. |
| ButtonManager.Registry.constructor | ArduinoSmartScales/ButtonManager.h:41-44 | A new registry has four zeroed button slots, one zeroed encoder slot, both counters at zero, an empty log and no pin modes. |
| ButtonManager.Registry.CheckButton | ArduinoSmartScales/ButtonManager.h:46-61 | The method returns the updated definition and the result of `PollButton`, and appends that poll's invocations to the log. |
| ButtonManager.Registry.CheckEncoder | ArduinoSmartScales/ButtonManager.h:63-76 | Encoder `j` becomes the `DecodeEncoder` result and its invocations are appended. The other encoder slots and the whole button table are unchanged, because the channels are polled on copies. |
| ButtonManager.Registry.AddManagedButton | ArduinoSmartScales/ButtonManager.h:78-92 | With room in the table, the button is stored in slot `old count` and that slot is returned. The count grows by one and every other slot is unchanged. A pull-up button's pin is set to INPUT_PULLUP and its last level to HIGH. Any other button's pin is set to INPUT. |
| ButtonManager.Registry.AddManagedEncoder | ArduinoSmartScales/ButtonManager.h:94-123 | With room for three buttons and one encoder, `.CW` and `.AC` are appended owned by the new encoder, without callback and not pull-up. `.B` is appended as a pull-up with the encoder's button callback, seeded HIGH and not owned. The encoder is appended with the three consecutive slots recorded in it. Both pins of the channels are set to INPUT and the press pin to INPUT_PULLUP. The registry stays well-formed. |
| ButtonManager.Registry.CheckManagedButtons | ArduinoSmartScales/ButtonManager.h:125-139 | The tables become `Poll`'s new state and the log grows by `Poll`'s invocations. Unused slots are unchanged and the registry stays well-formed. |
| ButtonManager.Registry.CheckUnownedButtons | ArduinoSmartScales/ButtonManager.h:127-133 | The first loop polls in place, in slot order, exactly the buttons that no encoder owns, leaving the others and the encoders unchanged. |
| ButtonManager.Registry.CheckEncoders | ArduinoSmartScales/ButtonManager.h:135-138 | The second loop decodes each encoder in order against the button table the first loop left, and logs each one's invocations in order. |
| ButtonManager.SingleButtonPoll | ArduinoSmartScales/ButtonManager.h:125-133 | In a registry holding one plain button, a tick is exactly one button poll of it. |
| ButtonManager.VolumeTurn | ArduinoSmartScales/ButtonManager.h:94-139 | An encoder just registered in an empty registry, with all its pins HIGH, reports one clockwise rotation. Nothing else is invoked and only its last level changes. |

## Left out

- `ArduinoSmartScales/SleepHelpers.h` is not part of this model. It sequences power-down sleep, interrupts, the LCD and serial output, and has no logic to state.
- `ArduinoSmartScales/ScaleHelpers.h` is not part of this model. It wraps the HX711 load-cell library, which is not available, and clamps floats. `GetLargeBaseline` assigns `total` instead of adding to it (`ArduinoSmartScales/ScaleHelpers.h:6`), so it returns the last reading divided by the count.
- `ArduinoSmartScales/MathsHelpers.h` is not part of this model. `bsdRound` is floating-point rounding.
- The electrical effect of `digitalRead` and `pinMode` is not modelled. Levels are an input and modes are a ghost record.
- Calling through a function pointer is modelled only as appending an event to the log.
- The `&encoderDef` pointer stored in the channel buttons points at a parameter that no longer exists after registration. The model keeps only its NULL or non-NULL distinction, as the owning encoder's index.
- A NULL rotation callback is excluded by the type `Callback`. The source would call through NULL.
- `Registry.AddManagedButton`, `Registry.AddManagedEncoder`: the byte counters have no capacity check in the source, so overflowing a table is excluded by `requires` instead of modelled. The counters are `nat`, never reaching 256 under those bounds.
- `ButtonDefs.PollTwiceQuiet`: the encoder half (no rotation reported on the second tick) is stated only when both ticks find the same stray values. With different ones an encoder whose clockwise pin reads LOW can report a rotation again, the behaviour `ButtonDefs.StrayRotation` exhibits.
- `ButtonDefs.Poll`: one pair of stray values is used for every encoder in a tick. With a single encoder slot this is no restriction.
- `ButtonDefs.DecodeEncoder`: its own contract is partial. `ButtonDefs.DecodeAsWritten` and `ButtonDefs.DecodeIntended` give the full behaviour for channel buttons at rest, which is the only case the registry produces.

## Findings

| source | as written | input that shows it | evidently intended | confidence | as-written member | corrected member |
|---|---|---|---|---|---|---|
| ArduinoSmartScales/ButtonManager.h:46-61 | `CheckButton` returns nothing when the level did not change. `CheckEncoder` (lines 67 and 70) uses that value as the channel level. The copies of the channel buttons always start at LOW, so a LOW channel is always "no change" and the encoder reads an indeterminate value and stores it as its last level (line 75). A rotation can then be reported without an edge, and a real LOW-to-HIGH edge can go unreported. | An encoder that last saw LOW, all pins LOW, and an indeterminate value of HIGH: a clockwise rotation is reported with no edge on the pin. With an indeterminate value of 2 instead, the encoder stores 2, and on the next tick with every pin HIGH the real edge is not reported (`ButtonDefs.MissedEdge`). | `CheckButton` returns the level it read on every path. The encoder then reports rotations exactly on LOW-to-HIGH edges of the clockwise channel. | not executed | ButtonDefs.StrayRotation | ButtonDefs.DecodeIntended |

The registry keeps the indeterminate value as an input, so the code as
written is the general case. The corrected program is the instance where
that input equals the level read (`ButtonDefs.IntendedStray`), and
`ButtonDefs.DecodeIntended` proves the rising-edge behaviour for it.
