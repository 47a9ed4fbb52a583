# Emulator front end and FeabhOS utilities

This project models two parts of the feabhas/cmake-target training repository. Both are proved in Dafny.

The first is the desktop front end `qemu_wms.py`. It drives a QEMU-emulated STM32F407 board with a "washing machine simulator" (WMS) add-on, and the model covers:

- **The diagnostic-port protocol.** Each receive is framed into whitespace-terminated text, with leading telnet IAC groups dropped and the trailing partial token kept for the next read (`Protocol`, `Listener`).
- **The reply classifier of the listener loop.** Each reply token becomes one tagged event, using `QEmuTag` and `REPLY_MAP`.
- **The board display engine.** This is made of:
  - the `PinMap` bit-fields and sprites;
  - the latch and toggle buttons of `BoardDisplay`;
  - the latch cascade on pin 14;
  - the animation cadence.

  It is modelled twice: as values (`Board`) and as objects updated in place (`BoardDisplay`).
- **The session logic of `BoardGui`.** This covers:
  - the connection and resync flags;
  - the `idr` resync replay;
  - the `do_disconnect` teardown;
  - the mouse, halt and timer handlers.

  It too is modelled twice: as values (`Session`) and as a class updated in place (`Gui`).

The second part is a set of C and C++ building blocks of the FeabhOS course library:

- three bounded circular FIFOs, all proved against one abstract queue (`QueueSpec`):
  - the C++14 `Utility::FIFO` (`Fifo14`);
  - the C++03 `Utility::FIFO` (`Fifo03`);
  - the C USART ring buffer (`UsartBuffer`);
- the POSIX fixed-block pool allocator, whose free list is threaded through the blocks (`Allocator`);
- the millisecond and `timespec` helpers (`TimeUtils`);
- `Bitops.h` (`Bitops`);
- the STM32F407 memory map (`MemoryMap`).

The imperative pieces of the source are Dafny classes whose methods are proved against specification functions. These include:

- the framer loops;
- the FIFO rings over arrays;
- the pool's link array;
- the `PinMap` and `BoardDisplay` fields;
- the GUI handlers;
- the `bit_range` loop.

The properties the source promises are lemmas about those functions.

Modelling choices:

- **Sockets.** Each receive is a value (`Recv`). Every message written goes to the listener's `sent` sequence.
- **The canvas.** It is a map from overlay id to the image index shown.
- **Tk widgets.** Each becomes a field: labels are strings, and check boxes are levels. The warning line and the connect-error dialogs are the lists `warnings` and `errors`.
- **`manager`.** It is absent throughout.
- **Integers.** The C and C++ operand widths are written out explicitly:
  - `uint32_t` products;
  - C's truncating `/` and `%` on `long`;
  - Python's floor shift `>>`.

## Model

| member | source | states |
|---|---|---|
| Protocol.StripIac | qemu_wms.py:291-292 | the result is a suffix of the input reached by dropping whole 3-byte groups, and it does not start with 0xFF |
| Protocol.SplitPending | qemu_wms.py:293-295 | text and pending bytes concatenate back to the input; the pending bytes hold no whitespace; the text is empty or ends in whitespace |
| Protocol.DecodeAscii | qemu_wms.py:297-299 | decoding succeeds exactly when every byte is below 128, and then yields the characters with the same codes |
| Protocol.Encode | qemu_wms.py:297 | `str.encode` of ASCII text: one byte per character, with its code |
| Protocol.DecodeEncode | qemu_wms.py:297 | encoding the decoded text gives back the bytes |
| Protocol.FrameReadText | qemu_wms.py:279-299 | framing round trip: the text handed on, re-encoded, followed by the new pending bytes, is the old pending bytes plus the chunk with the leading IAC groups removed; the text is empty or ends in whitespace |
| Protocol.FramePending | qemu_wms.py:288-299 | a zero-length chunk stops with the shutdown-detected warning and keeps the pending bytes; any other chunk leaves pending bytes free of whitespace (the tail after the last whitespace), never reports a closed socket, and stops only with the timeout warning |
| Protocol.FrameReadAscii | qemu_wms.py:279-299 | a non-empty ASCII chunk with no IAC in front is always text: the decoded part up to the last whitespace, with the rest kept pending |
| Protocol.ChunkingInvariant | qemu_wms.py:279-299 | for non-empty ASCII chunks a and b, reading a then b yields the same tokens and the same pending bytes as reading a + b in one go, so how the socket splits the stream does not matter |
| Protocol.TokenLength | qemu_wms.py:326 | the length of the leading run of non-whitespace characters: all before it are non-space, the one at it is space |
| Protocol.Split | qemu_wms.py:326 | `str.split()`: every token is non-empty and holds no whitespace |
| Protocol.SplitKeepsNonSpace | qemu_wms.py:326 | the tokens, concatenated, are exactly the non-whitespace characters of the text, in order |
| Protocol.HexDigit | qemu_wms.py:331-343 | a base-16 digit has a value below 16 |
| Protocol.HexDigitsValue | qemu_wms.py:331-343 | the hex digits of n read back as n |
| Protocol.HexRoundTrip | qemu_wms.py:331-343 | `int(s, 16)` parses back any zero-padded upper-case hex rendering of n as n |
| Protocol.HexValueSingle | qemu_wms.py:331 | `int(reply[2], 16)` on one character succeeds exactly for a hex digit, with its value |
| Protocol.HexDigits | qemu_wms.py:818-847 | the digits are all hex digits, with no `x` |
| Protocol.ToHex | qemu_wms.py:818-847 | a zero-padded rendering made only of hex digits |
| Protocol.TagCode | qemu_wms.py:198-211 | every `QEmuTag` value is positive |
| Protocol.TagCodeInjective | qemu_wms.py:198-211 | two tags have the same code exactly when they are the same tag |
| Protocol.FindSeparator | qemu_wms.py:335 | the first `?/` at or after a position: found there, and absent before it |
| Protocol.Partition | qemu_wms.py:335 | `partition('?/')` splits the token into the parts before and after the separator |
| Protocol.ClassifyByFirstChar | qemu_wms.py:326-343 | `?` yields the invalid-response warning; `-`/`+` pin low/high with the hex value of `reply[2]`, or an uncaught exception when that is missing or not a digit; `=` always yields something; any other first character yields nothing |
| Protocol.ClassifyNeverShutdown | qemu_wms.py:326-343 | no reply token produces a `qemu_shutdown` event |
| Protocol.KeysHaveNoQuestionMark | qemu_wms.py:214-218 | every `REPLY_MAP` key starts with `=` and contains no `?`, so `partition` cannot cut inside one |
| Protocol.MemoryToken | qemu_wms.py:334-343 | a reply that partitions into a map key and a parsable value yields the mapped tag with that value |
| Protocol.ClassifyMemoryReply | qemu_wms.py:334-343 | a key of the map, `?/`, and any hex rendering of n yields `(REPLY_MAP[key], n)` |
| Protocol.ClassifyModerExample | qemu_wms.py:334-343 | `=d0?/0000004A` yields `(moder, 0x4A)` |
| Protocol.ModerHex | qemu_wms.py:818 | 0x4A in eight hex digits is `0000004A` |
| Protocol.ClassifyUnknownPrefixExample | qemu_wms.py:339-341 | `=zz?/01` yields the unknown-prefix warning quoting the prefix |
| Protocol.ClassifyMissingSeparatorExample | qemu_wms.py:335-338 | `=d0` yields the missing-separator warning quoting the reply |
| Protocol.ClassifyAllNoShutdown | qemu_wms.py:327-343 | the token loop of one read never posts a shutdown |
| Protocol.ListenStepShape | qemu_wms.py:324-351 | a pass that stops posts exactly a warning followed by the shutdown; any other pass posts no shutdown |
| Protocol.ListenShutdownLast | qemu_wms.py:319-351 | over any receive sequence, a shutdown is posted exactly when the loop stops through a handler, once, as the last event, right after a warning |
| Protocol.ListenZeroLength | qemu_wms.py:288-289 | a zero-length receive ends the loop with the shutdown-detected warning and the shutdown |
| Protocol.ListenTimeout | qemu_wms.py:298-299 | a receive timeout also ends the loop, with the timeout warning and the shutdown |
| Listener.QEmuListener.constructor | qemu_wms.py:257-274 | a new connection has an empty receive buffer and has sent `noecho ` |
| Listener.QEmuListener.Close | qemu_wms.py:276-277 | the connection is closed |
| Listener.QEmuListener.Write | qemu_wms.py:301-317 | the message is appended to everything sent |
| Listener.QEmuListener.DropIac | qemu_wms.py:291-292 | the loop's result is `StripIac` of its input |
| Listener.QEmuListener.TakePending | qemu_wms.py:293-295 | the pop/insert loop computes `SplitPending` |
| Listener.QEmuListener.Read | qemu_wms.py:279-299 | result and new `recv_buffer` are `FrameRead` of the old buffer and the receive |
| Listener.QEmuListener.ClassifyReplies | qemu_wms.py:327-343 | the events posted, and whether a reply raised, are `ClassifyAll` of the tokens |
| Listener.QEmuListener.ListenOnce | qemu_wms.py:325-351 | a pass of `while True` is `ListenStep` |
| Listener.QEmuListener.Listen | qemu_wms.py:319-351 | the events, the outcome and the buffer over all receives are `ListenSpec` |
| Board.LedName | qemu_wms.py:138-144 | `led-k` names the overlay with id k |
| Board.MapIndex | qemu_wms.py:185-191 | finds the position of a named pin map, or reports that none has the name |
| Board.ButtonFacts | qemu_wms.py:157-166 | latch and toggle buttons have pins, every pin indexes `latched`, every button overlay has at least two images |
| Board.OverlayFacts | qemu_wms.py:138-183 | every overlay id indexes the frame table consistently and has at least two images |
| Board.OverlayIdsDistinct | qemu_wms.py:138-183 | distinct overlay names have distinct ids |
| Board.PinMapFacts | qemu_wms.py:185-191 | each group's pins run consecutively from its base pin and each imaged group's reset index names an image |
| Board.MapOfPin | qemu_wms.py:469-470 | the group holding an output pin, or none holds it |
| Board.PinInOneMap | qemu_wms.py:185-191 | no pin belongs to two groups |
| Board.SpriteLimit | qemu_wms.py:122 | the sprite range of a group is positive and contains its reset index |
| Board.Initial | qemu_wms.py:398-405 | the constructed display is valid |
| Board.UpdateGroupBits | qemu_wms.py:101-107 | `update_board`: the pin's bit takes the level, no other bit changes, level 0 resets the sprite |
| Board.UpdateGroupBound | qemu_wms.py:101-107 | the group state stays below 2^(number of pins) |
| Board.DisplayIndexBound | qemu_wms.py:108-110 | the index shown (`state` or `reset`) always names an image of the overlay |
| Board.StepSprite | qemu_wms.py:123-128 | the stepped sprite stays in range |
| Board.StepSpriteInverse | qemu_wms.py:123-128 | stepping backwards undoes stepping forwards and vice versa |
| Board.AnimateCadence | qemu_wms.py:112-129 | from a fresh count, the first update-1 calls only count, and the update-th steps the sprite and restarts the count |
| Board.CountPolls | qemu_wms.py:116-119 | the general cadence from any poll count |
| Board.AnimateIdle | qemu_wms.py:113-114 | with no pin high, animation changes nothing |
| Board.UpdateLatch | qemu_wms.py:479-490 | `update_latch` keeps the display's shape and leaves the pin groups untouched |
| Board.ButtonsPinOk | qemu_wms.py:157-166 | every button of the table that keeps a flag has a pin indexing `latched` |
| Board.ReleaseLatched | qemu_wms.py:482-490 | the release loop keeps the latch and the groups |
| Board.ReleaseOne | qemu_wms.py:483-490 | releasing one latch-style button keeps the shape |
| Board.ReleaseLatchedFlags | qemu_wms.py:482-485 | exactly the flags of latch-style buttons are cleared; toggle flags survive |
| Board.ReleaseLatchedShown | qemu_wms.py:488-490 | exactly the overlays of latch-style buttons show the level |
| Board.ReleaseLatchedCommands | qemu_wms.py:486-487 | with a connection the `up` commands of the latch-style buttons are written once each, in order; without one nothing |
| Board.LatchTablePins | qemu_wms.py:157-166 | the latch-style buttons are those on pins 1 to 5 |
| Board.LatchTableOverlays | qemu_wms.py:169-183 | of these only PS1 to PS3 have overlays (ids 4 to 6) |
| Board.LatchTableUps | qemu_wms.py:157-166 | their release commands in table order |
| Board.UpdateMaps | qemu_wms.py:469-476 | the group loop of `update_device` keeps the display's shape |
| Board.GroupUpdate | qemu_wms.py:101-110 | `update_board` with its image update keeps the shape |
| Board.MapUpdate | qemu_wms.py:470-474 | the loop body for a holding group keeps the shape |
| Board.UpdateDevice | qemu_wms.py:466-476 | `update_device` keeps the display's shape |
| Board.LatchLowShape | qemu_wms.py:466-490 | pin 14 low is the latch group lowered, followed by the release loop |
| Board.LatchCascade | qemu_wms.py:466-490 | pin 14 low turns the latch off, clears the flags of pins 1 to 5 only, shows PS1 to PS3 released, and writes the release commands with a connection |
| Board.LatchRaise | qemu_wms.py:473-481 | pin 14 high only sets the latch: no flag changes, nothing is written |
| Board.UpdateDeviceQuiet | qemu_wms.py:466-476 | any other pin leaves latch and flags alone and writes nothing |
| Board.UnwiredSilent | qemu_wms.py:486-487 | without a connection `update_device` writes nothing |
| Board.UpdateMapsGroups | qemu_wms.py:469-476 | the loop updates exactly the groups holding the pin |
| Board.UpdateDeviceLevel | qemu_wms.py:466-476 | afterwards the driven pin reads the new level and every other output pin reads as before |
| Board.Reset | qemu_wms.py:439-441 | `reset` keeps the shape |
| Board.ResetFrom | qemu_wms.py:440-441 | the loop of `reset` over pins p to 14 keeps the shape |
| Board.ResetFromLevels | qemu_wms.py:440-441 | after driving pins from p to 14 low they all read low |
| Board.ResetFromKeeps | qemu_wms.py:440-441 | later pins leave earlier pins' levels alone |
| Board.ResetFromLatch | qemu_wms.py:439-441 | the reset loop leaves the latch off and no latch-style flag set |
| Board.ResetState | qemu_wms.py:439-441 | after `reset` pins 8 to 14 read low, the latch is off, and no latch-style button is held |
| Board.ButtonDown | qemu_wms.py:509-521 | `button_down` keeps the shape |
| Board.ButtonUp | qemu_wms.py:523-532 | `button_up` keeps the shape |
| Board.Animate | qemu_wms.py:492-500 | `animate` keeps the shape |
| Board.ImageValid | qemu_wms.py:450-458 | showing an existing image keeps the display valid |
| Board.ButtonValid | qemu_wms.py:502-507 | showing a button level keeps the display valid |
| Board.ReleaseLatchedValid | qemu_wms.py:482-490 | the release loop keeps the display valid |
| Board.UpdateMapsValid | qemu_wms.py:469-476 | the group loop keeps every shown index and group state valid |
| Board.UpdateDeviceValid | qemu_wms.py:466-476 | `update_device` keeps the display valid |
| Board.ResetFromValid | qemu_wms.py:440-441 | the reset loop keeps the display valid |
| Board.ResetValid | qemu_wms.py:439-441 | `reset` keeps the display valid |
| Board.ToggleInitValid | qemu_wms.py:445-448 | `toggle_init` keeps the display valid |
| Board.ButtonValidBoth | qemu_wms.py:509-532 | pressing and releasing keep the display valid |
| Board.AnimateValid | qemu_wms.py:492-500 | `animate` keeps the display valid: sprites stay in range |
| Board.AnimateMotor | qemu_wms.py:492-500 | while the motor is stopped nothing moves; while it runs each tick steps its sprite in the spinner's direction and shows the spinner |
| Board.LatchPress | qemu_wms.py:509-532 | a latch-style button pressed with the latch on is held: flag set, shown pressed, `down` written, and its release ignored |
| Board.LatchedButtonHeld | qemu_wms.py:509-526 | a held latch-style button ignores presses and releases |
| Board.LatchOffPress | qemu_wms.py:509-532 | with the latch off a latch-style button behaves like a plain one and its flag stays clear |
| Board.ToggleCycle | qemu_wms.py:514-529 | the door: first press sets the flag, shows pressed and writes `D0L0 `, its release is ignored; the second press only clears the flag; the next release shows released and writes `D0d0 ` |
| Board.PlainPress | qemu_wms.py:519-532 | a plain button shows pressed and released and writes its non-empty commands when connected |
| Board.ResetButton | qemu_wms.py:519-532 | the reset button writes nothing on press and `reset ` on release |
| BoardDisplay.PinMap.constructor | qemu_wms.py:92-99 | a new pin map has its configuration and a zero state, sprite and poll count |
| BoardDisplay.PinMap.UpdateBoard | qemu_wms.py:101-110 | the fields change as `UpdateGroup`, and the index shown is `state` or `reset` |
| BoardDisplay.PinMap.AnimateBoard | qemu_wms.py:112-131 | the fields change as `AnimateGroup`, which says whether the sprite stepped |
| BoardDisplay.Display.Groups | qemu_wms.py:185-191 | one group state per pin map |
| BoardDisplay.Display.Model | qemu_wms.py:396-405 | a valid display has the shape of the board tables |
| BoardDisplay.Display.constructor | qemu_wms.py:398-405 | the new display is valid and is `Initial` |
| BoardDisplay.Display.UpdateImage | qemu_wms.py:450-458 | the new state is `Board.UpdateImage` of the old |
| BoardDisplay.Display.UpdateButton | qemu_wms.py:502-507 | the new state is `Board.UpdateButton` of the old |
| BoardDisplay.Display.UpdateLatch | qemu_wms.py:479-490 | the new state and the commands sent are `Board.UpdateLatch`; the groups and the listener's buffer are untouched |
| BoardDisplay.Display.ReleaseButton | qemu_wms.py:483-490 | one release: `ReleaseOne`, and its `up` command sent |
| BoardDisplay.Display.UpdateDevice | qemu_wms.py:466-476 | the new state and the commands sent are `Board.UpdateDevice` |
| BoardDisplay.Display.MapStep | qemu_wms.py:469-476 | one pass of the group loop keeps the loop's goal |
| BoardDisplay.Display.UpdateMap | qemu_wms.py:470-474 | the loop body for a holding group is `MapUpdate` |
| BoardDisplay.Display.Reset | qemu_wms.py:439-443 | the new state is `Board.Reset` of the old |
| BoardDisplay.Display.ToggleInit | qemu_wms.py:445-448 | the new state is `Board.ToggleInit` of the old |
| BoardDisplay.Display.ButtonDown | qemu_wms.py:509-521 | the new state and the commands sent are `Board.ButtonDown`; the groups are untouched |
| BoardDisplay.Display.ButtonUp | qemu_wms.py:523-532 | the new state and the commands sent are `Board.ButtonUp`; the groups are untouched |
| BoardDisplay.Display.Animate | qemu_wms.py:492-500 | the new state is `Board.Animate` of the old |
| Session.HexFieldRoundTrip | qemu_wms.py:818-847 | a register label's digits parse back to the register value, for any integer |
| Session.HexFieldWidth | qemu_wms.py:818-847 | a label is never narrower than its field |
| Session.ZeroLabels | qemu_wms.py:680-702 | the initial and reset texts are the labels of a zero register |
| Session.DecimalRoundTrip | qemu_wms.py:859 | `str(n)` is non-empty, all digits, and reads back as n |
| Session.NoPins | qemu_wms.py:726-731 | seven clear check boxes |
| Session.ToggleInitKeeps | qemu_wms.py:445-448 | `toggle_init` changes only what is shown |
| Session.StartState | qemu_wms.py:598-714 | the window starts consistent, disconnected and waiting to resync |
| Session.ZeroLevels | qemu_wms.py:101-110 | with all group states zero every output pin reads low |
| Session.ResetIndicators | qemu_wms.py:726-731 | `reset_state` keeps the session's shape |
| Session.Disconnect | qemu_wms.py:733-748 | `do_disconnect` keeps the session's shape |
| Session.DisconnectFields | qemu_wms.py:733-748 | a state is the teardown of another exactly when it differs in the fields `do_disconnect` sets |
| Session.DisconnectState | qemu_wms.py:733-748 | after a teardown the check boxes agree with the display, all outputs read low, the latch is off, there is no listener, the state is disconnected and the next `idr` resyncs; messages and serial labels are kept |
| Session.SyncPin | qemu_wms.py:821-827 | one loop pass sets check box k to bit 8+k of the value |
| Session.SyncPins | qemu_wms.py:821-827 | the loop keeps seven check boxes |
| Session.SyncPinsPins | qemu_wms.py:821-827 | after k passes the first k check boxes hold their bits and the rest are untouched |
| Session.SyncPinLevels | qemu_wms.py:822-827 | one pass drives pin 8+k to its bit and leaves the other pins alone |
| Session.SyncPinsLevels | qemu_wms.py:821-827 | after k passes the display drives those k pins to their bits |
| Session.SyncPinsSteady | qemu_wms.py:823 | with no resync and every check box already showing its bit, the loop changes nothing |
| Session.SyncPinCommands | qemu_wms.py:822-827 | a pass writes only at pin 14: the latch releases, when connected, when bit 14 is low and when a resync is under way or the check box was high |
| Session.SyncPinsCommands | qemu_wms.py:821-827 | the seven passes write the latch releases once, under exactly those conditions, and nothing else |
| Session.PressButton | qemu_wms.py:830-835 | one replayed button keeps the shape |
| Session.PressPinned | qemu_wms.py:830-835 | the whole replay keeps the shape |
| Session.PressButtonGroups | qemu_wms.py:833-835 | a replayed press and release leaves the pin groups alone |
| Session.PressPinnedGroups | qemu_wms.py:830-835 | the replay leaves every output level alone |
| Session.OnMessage | qemu_wms.py:807-859 | every message keeps the session's shape |
| Session.OnIndicator | qemu_wms.py:817-859 | register, USART3, warning and unknown-tag branches change no display, check box or flag |
| Session.OnGpiodEnabled | qemu_wms.py:810-816 | the `gpiod_enabled` branch keeps the shape |
| Session.OnIdr | qemu_wms.py:819-835 | the `idr` branch keeps the shape |
| Session.OnShutdown | qemu_wms.py:850-857 | the `qemu_shutdown` branch keeps the shape |
| Session.IdrTracksValue | qemu_wms.py:819-835 | after an `idr` value the resync is over, every check box holds its bit and the display drives every output to it (from any display when resyncing, from a consistent one otherwise) |
| Session.OnIdrFields | qemu_wms.py:819-835 | the branch's result is the loop, followed by the replay when resyncing |
| Session.IdrSetsPins | qemu_wms.py:821-825 | every check box holds bit 8+k of the value, whatever the flags |
| Session.IdrDrivesLevels | qemu_wms.py:821-835 | every output pin 8 to 14 reads its bit of the value |
| Session.IdrIdempotent | qemu_wms.py:819-835 | the same `idr` value twice: the second changes nothing and writes nothing |
| Session.IdrCommands | qemu_wms.py:821-835 | the only commands are the latch releases, once, when pin 14 reads low and either a resync is under way or it read high; the replay writes nothing |
| Session.ShutdownDisconnects | qemu_wms.py:850-857 | a shutdown tears the session down consistently and tells the user: a warning when connected, a connect error otherwise, nothing without a listener |
| Session.ConnectReportedOnce | qemu_wms.py:810-816 | GPIOD reports connect the session; only the first after a (re)connection warns and enables the buttons; the check box follows bit 3 |
| Session.UnknownTagWarns | qemu_wms.py:858-859 | an unhandled tag only adds the internal-error warning naming the tag's number |
| Session.MessageKeepsConsistent | qemu_wms.py:807-859 | every message keeps the check boxes in agreement with the display |
| Session.B1Down | qemu_wms.py:784-787 | the mouse press keeps the shape |
| Session.B1Up | qemu_wms.py:790-794 | the mouse release keeps the shape |
| Session.TimerRunning | qemu_wms.py:885-894 | a timer tick keeps the display's shape |
| Session.LowerAll | qemu_wms.py:866-874 | lower-casing keeps the length |
| Session.LowerNoUpper | qemu_wms.py:214-218 | lower-casing a string with no capitals changes nothing |
| Session.KeyOf | qemu_wms.py:866-874 | the reply key of a one-letter register query is `=`, the lower-case letter and the address |
| Session.PollKeys | qemu_wms.py:866-874 | the six poll commands' reply keys are the six `REPLY_MAP` keys |
| Session.TimerQueriesAnswered | qemu_wms.py:866-894 | every command a tick writes is a query, and each one's reply maps to the tag of its register |
| Session.AnimateKeepsStates | qemu_wms.py:492-500 | animation moves sprites only: every group state is kept |
| Session.SameStatesSameLevels | qemu_wms.py:101-108 | output levels depend on the group states alone |
| Session.B1DownConsistent | qemu_wms.py:784-787 | a press keeps the check boxes in agreement with the display |
| Session.B1UpConsistent | qemu_wms.py:790-794 | a release keeps the check boxes in agreement with the display |
| Session.TimerKeepsConsistent | qemu_wms.py:885-894 | a tick keeps check boxes and display in agreement |
| Session.HaltKeepsConsistent | qemu_wms.py:755-758 | a halt keeps check boxes and display in agreement |
| Session.HaltSilences | qemu_wms.py:755-758 | a halt writes `halt ` when connected, and afterwards the timer, the queries and the mouse write nothing |
| Gui.BoardGui.constructor | qemu_wms.py:598-714 | the new window is `Session.Start` |
| Gui.BoardGui.ResetState | qemu_wms.py:726-731 | the labels and check boxes are the zero texts and levels |
| Gui.BoardGui.StopPanel | qemu_wms.py:734-738 | timer cancelled, connected-only buttons disabled, indicators reset |
| Gui.BoardGui.DropConnection | qemu_wms.py:740-747 | the listener is closed and dropped (the serial console with it), disconnected, and resync set |
| Gui.BoardGui.Teardown | qemu_wms.py:733-748 | every field `do_disconnect` sets, and every other field kept |
| Gui.BoardGui.DoDisconnect | qemu_wms.py:733-748 | the new state is `Session.Disconnect` of the old, and the old listener is closed with nothing more sent |
| Gui.BoardGui.OnHalt | qemu_wms.py:755-758 | the new state and the commands sent are `Session.Halt` |
| Gui.BoardGui.OnB1Down | qemu_wms.py:784-787 | the new state and the commands sent are `Session.B1Down` |
| Gui.BoardGui.OnB1Up | qemu_wms.py:790-794 | the new state and the commands sent are `Session.B1Up` |
| Gui.BoardGui.DoQueryQemu | qemu_wms.py:866-874 | the listener is sent `Session.Query` of the state |
| Gui.BoardGui.PollQueries | qemu_wms.py:888-892 | the listener is sent the tick's queries |
| Gui.BoardGui.OnTimerRunning | qemu_wms.py:885-894 | the new state and the commands sent are `Session.TimerRunning` |
| Gui.BoardGui.SyncStep | qemu_wms.py:822-827 | one pass of the bit loop is `SyncPin` |
| Gui.BoardGui.SyncNext | qemu_wms.py:821-827 | pass k advances the loop to `SyncPins` of k+1 passes |
| Gui.BoardGui.SyncIdr | qemu_wms.py:821-827 | the whole bit loop is `SyncPins` of seven passes, and its commands are sent |
| Gui.BoardGui.Replay | qemu_wms.py:830-835 | the replay is `PressPinned` |
| Gui.BoardGui.EndResync | qemu_wms.py:828-835 | the resync flag is cleared and the replay runs only when it was set |
| Gui.BoardGui.OnIdrMessage | qemu_wms.py:819-835 | the new state and the commands sent are `Session.OnIdr` |
| Gui.BoardGui.ShutdownNotice | qemu_wms.py:852-856 | the closed-down warning or the not-running error, as the connection stood |
| Gui.BoardGui.OnShutdownMessage | qemu_wms.py:850-857 | the new state is `Session.OnShutdown`; the listener is closed |
| Gui.BoardGui.OnRegisterMessage | qemu_wms.py:817-847 | the register-label and USART3 branches are `Session.OnIndicator` |
| Gui.BoardGui.OnIndicatorMessage | qemu_wms.py:817-859 | the indicator, warning and unknown-tag branches are `Session.OnIndicator` |
| Gui.BoardGui.OnGpiodMessage | qemu_wms.py:810-816 | the new state is `Session.OnGpiodEnabled` |
| Gui.BoardGui.OnQemuMessage | qemu_wms.py:807-859 | the new state and the commands sent are `Session.OnMessage` |
| QueueSpec.Add | middleware/feabhos/C++14/inc/FIFO.h:61-71 | refused exactly when full, leaving the queue; otherwise the element is appended at the back |
| QueueSpec.Get | middleware/feabhos/C++14/inc/FIFO.h:76-86 | refused exactly when empty, leaving the caller's value; otherwise the front element is removed and returned |
| QueueSpec.AddAll | middleware/feabhos/C++14/inc/FIFO.h:61-71 | one status per add and never more than the capacity |
| QueueSpec.GetN | middleware/feabhos/C++14/inc/FIFO.h:76-86 | one value per get |
| QueueSpec.AddAllFits | middleware/feabhos/C++14/inc/FIFO.h:61-71 | while there is room every add succeeds and the elements queue up in order |
| QueueSpec.GetNDrains | middleware/feabhos/C++14/inc/FIFO.h:76-86 | as many gets as elements hand them all out in order and leave the queue empty |
| QueueSpec.FirstInFirstOut | middleware/feabhos/C++14/inc/FIFO.h:61-86 | whatever is added within capacity comes back out in the same order |
| QueueSpec.AddAllWhenFull | middleware/feabhos/C++14/inc/FIFO.h:63 | once full, every add is refused and the queue stays as it is |
| QueueSpec.Next | middleware/feabhos/C++14/inc/FIFO.h:67-68 | the advanced index stays in range and wraps to the start exactly from the last slot |
| QueueSpec.Slot | middleware/feabhos/C++14/inc/FIFO.h:65-85 | the slot i places after `read` lies in the ring |
| QueueSpec.SlotIsMod | middleware/feabhos/C++14/inc/FIFO.h:65-85 | that slot is `(read + i) mod sz` |
| QueueSpec.RingContents | middleware/feabhos/C++14/inc/FIFO.h:51-54 | the ring holds as many elements as its count |
| QueueSpec.RingAdd | middleware/feabhos/C++14/inc/FIFO.h:65-68 | storing at `write` and advancing it appends to the contents and keeps the indices aligned |
| QueueSpec.RingGet | middleware/feabhos/C++14/inc/FIFO.h:80-83 | taking at `read` and advancing it removes the front and keeps the indices aligned |
| Fifo14.Fifo.Contents | middleware/feabhos/C++14/inc/FIFO.h:51-54 | the queued elements number `num_items`, at most `sz` |
| Fifo14.Fifo.constructor | middleware/feabhos/C++14/inc/FIFO.h:51-54 | a new FIFO is empty with both iterators at the start |
| Fifo14.Fifo.IsEmpty | middleware/feabhos/C++14/inc/FIFO.h:43 | true exactly when nothing is queued |
| Fifo14.Fifo.Size | middleware/feabhos/C++14/inc/FIFO.h:44 | the number queued, at most the capacity |
| Fifo14.Fifo.Capacity | middleware/feabhos/C++14/inc/FIFO.h:45 | `sz`, never below the size |
| Fifo14.Fifo.Add | middleware/feabhos/C++14/inc/FIFO.h:58-71 | behaves as `QueueSpec.Add`: FULL with no change, or stored at `write`, which advances and wraps |
| Fifo14.Fifo.Get | middleware/feabhos/C++14/inc/FIFO.h:74-86 | behaves as `QueueSpec.Get`: EMPTY with the caller's value, or the oldest element with `read` advanced and wrapped |
| Fifo03.Fifo.Contents | middleware/feabhos/C++03/inc/FIFO.h:44-48 | the queued elements number `numItems`, at most `sz` |
| Fifo03.Fifo.constructor | middleware/feabhos/C++03/inc/FIFO.h:52-56 | a new FIFO is empty, because it is flushed |
| Fifo03.Fifo.Flush | middleware/feabhos/C++03/inc/FIFO.h:112-118 | from any contents, both indices and the count are 0 and the FIFO is empty |
| Fifo03.Fifo.IsEmpty | middleware/feabhos/C++03/inc/FIFO.h:105-109 | true exactly when nothing is queued |
| Fifo03.Fifo.Add | middleware/feabhos/C++03/inc/FIFO.h:65-82 | behaves as `QueueSpec.Add`: FULL with no change, or stored at `write`, which wraps to 0 at `sz` |
| Fifo03.Fifo.Get | middleware/feabhos/C++03/inc/FIFO.h:85-102 | behaves as `QueueSpec.Get`: EMPTY with the caller's value, or the oldest element with `read` wrapped |
| UsartBuffer.UsartBuffer.Contents | drivers-c/usart_buffer.c:21-24 | the buffered values number `num_items`, at most 4 |
| UsartBuffer.UsartBuffer.constructor | drivers-c/usart_buffer.c:21-24 | the static initialisers leave the buffer empty |
| UsartBuffer.UsartBuffer.Init | drivers-c/usart_buffer.c:27-29 | `usart_buffer_init` changes nothing |
| UsartBuffer.UsartBuffer.Add | drivers-c/usart_buffer.c:32-42 | behaves as `QueueSpec.Add` with capacity 4: FULL without storing, or stored at `next_in`, which wraps |
| UsartBuffer.UsartBuffer.Get | drivers-c/usart_buffer.c:45-55 | behaves as `QueueSpec.Get`: EMPTY with `*value` untouched, or the oldest value with `next_out` wrapped |
| UsartBuffer.UsartBuffer.IsEmpty | drivers-c/usart_buffer.c:58-61 | true exactly when nothing is buffered |
| Allocator.CreateCheckAsWritten | middleware/feabhos/C/platform/POSIX/src/feabhOS_allocator.c:153-158 | the checks in source order with the 32-bit product: OK implies every argument check passed; PARAM1 exactly for NULL memory |
| Allocator.CreateCheck | middleware/feabhos/C/platform/FreeRTOS/inc/feabhOS_allocator.h:57-65 | the documented checks: each error code exactly for its condition in order, OK exactly when all pass and the blocks fit the pool |
| Allocator.CreateChecksAgree | middleware/feabhos/C/platform/POSIX/src/feabhOS_allocator.c:153-158 | when the product does not wrap, the written checks are the documented ones |
| Allocator.CreateCheckWraps | middleware/feabhos/C/platform/POSIX/src/feabhOS_allocator.c:158 | 65536 blocks of 64 KiB pass the written check for a 256-byte pool, and the documented check rejects them |
| Allocator.Range | middleware/feabhos/C/platform/POSIX/src/feabhOS_allocator.c:173-181 | the block indices lo to n-1 in order |
| Allocator.InitialLinks | middleware/feabhos/C/platform/POSIX/src/feabhOS_allocator.c:171-181 | one link per block |
| Allocator.FreeListUnique | middleware/feabhos/C/platform/POSIX/src/feabhOS_allocator.c:204-211 | the links and the head determine the free list |
| Allocator.InitialFreeList | middleware/feabhos/C/platform/POSIX/src/feabhOS_allocator.c:161-181 | a created pool lists every block exactly once, in address order, ending in NULL |
| Allocator.FreeListFrame | middleware/feabhos/C/platform/POSIX/src/feabhOS_allocator.c:235-237 | rewriting the link of a block not on the list keeps the list |
| Allocator.Allocate | middleware/feabhos/C/platform/POSIX/src/feabhOS_allocator.c:204-214 | allocation changes no link |
| Allocator.Free | middleware/feabhos/C/platform/POSIX/src/feabhOS_allocator.c:235-238 | the freed block links to the old head and becomes the head |
| Allocator.AllocateN | middleware/feabhos/C/platform/POSIX/src/feabhOS_allocator.c:204-214 | after n allocations the rest of the free list remains |
| Allocator.AllocateNDrains | middleware/feabhos/C/platform/POSIX/src/feabhOS_allocator.c:204-214 | allocating as often as there are free blocks hands out the list in order, then NULL |
| Allocator.FreshPoolServesEachBlockOnce | middleware/feabhos/C/platform/POSIX/src/feabhOS_allocator.c:171-211 | a fresh pool of n blocks serves exactly the n distinct blocks 0 to n-1, then NULL |
| Allocator.AllocatePreservesFreeList | middleware/feabhos/C/platform/POSIX/src/feabhOS_allocator.c:204-214 | NULL on an empty list, otherwise the head, leaving the rest as a well-formed list |
| Allocator.FreePreservesFreeList | middleware/feabhos/C/platform/POSIX/src/feabhOS_allocator.c:235-238 | freeing a non-free block keeps the list well formed with the block in front, and the next allocation returns it |
| Allocator.Pool.End | middleware/feabhos/C/platform/POSIX/src/feabhOS_allocator.c:75-91 | `end()` is start plus blocks times block size, and every block address lies between `begin()` and it |
| Allocator.Pool.constructor | middleware/feabhos/C/platform/POSIX/src/feabhOS_allocator.c:56 | a zero-initialised descriptor |
| Allocator.Pool.Init | middleware/feabhos/C/platform/POSIX/src/feabhOS_allocator.c:161-181 | the fields are set and the links written by the loop give the initial free list |
| Allocator.PoolTable.constructor | middleware/feabhos/C/platform/POSIX/src/feabhOS_allocator.c:56-57 | a fresh table with `next_pool` 0 |
| Allocator.PoolTable.GetInstance | middleware/feabhos/C/platform/POSIX/src/feabhOS_allocator.c:54-62 | slots are handed out in order and never reused; none once all are used (where the source asserts) |
| Allocator.PoolTable.PoolCreate | middleware/feabhos/C/platform/POSIX/src/feabhOS_allocator.c:136-186 | the result is the documented check; errors take no slot; success gives a fresh pool whose free list is every block in order; every other descriptor of the table is left as it was |
| Allocator.BlockAllocate | middleware/feabhos/C/platform/POSIX/src/feabhOS_allocator.c:191-215 | NULL for a NULL `pool_handle` or an empty list; otherwise the head block's address, with the list advancing by one |
| Allocator.BlockFree | middleware/feabhos/C/platform/POSIX/src/feabhOS_allocator.c:219-241 | INVALID_HANDLE for a NULL `pool_handle`, OK with no change for a NULL block, STUPID with no change outside the pool; otherwise the block becomes the head, linked to the old head |
| TimeUtils.CRem | middleware/feabhos/C/platform/POSIX/src/feabhOS_time_utils.c:59 | C's `%`: quotient and remainder rebuild the dividend, and the remainder takes the dividend's sign |
| TimeUtils.ToTimespec | middleware/feabhos/C/platform/POSIX/src/feabhOS_time_utils.c:36-48 | whole seconds of the period and the rest as nanoseconds, normalized and a multiple of 1e6 |
| TimeUtils.ToTimespecLossless | middleware/feabhos/C/platform/POSIX/src/feabhOS_time_utils.c:38-39 | seconds and milliseconds add back up to the period |
| TimeUtils.TimespecAdd | middleware/feabhos/C/platform/POSIX/src/feabhOS_time_utils.c:53-62 | seconds add exactly; nanoseconds add and reduce with C's `%`, normalized for non-negative sums |
| TimeUtils.TimespecAddExactness | middleware/feabhos/C/platform/POSIX/inc/feabhOS_time_utils.h:59 | for normalized operands the sum is exact precisely when the nanoseconds stay below 1e9, else it is one second short |
| TimeUtils.TimespecAddDropsCarry | middleware/feabhos/C/platform/POSIX/src/feabhOS_time_utils.c:58-59 | 0.6 s + 0.6 s comes out as 0.2 s |
| TimeUtils.TimespecAddCarry | middleware/feabhos/C/platform/POSIX/inc/feabhOS_time_utils.h:59 | the corrected sum is exactly lhs + rhs, normalized |
| TimeUtils.TimespecAddAgreesWithoutCarry | middleware/feabhos/C/platform/POSIX/src/feabhOS_time_utils.c:58-59 | without a carry the written and corrected sums agree |
| Bitops.BitIsPow2 | middleware/feabhos/C++14/inc/Bitops.h:28-32 | `bit(n)` is 2^n for every n below 32 |
| Bitops.BitSingle | middleware/feabhos/C++14/inc/Bitops.h:28-32 | `bit(n)` has bit n set and no other |
| Bitops.IsSetIffBit | middleware/feabhos/C++14/inc/Bitops.h:52-56 | `is_set(word, b)` holds exactly when bit b of word is 1 |
| Bitops.BitRange | middleware/feabhos/C++14/inc/Bitops.h:38-47 | 0 when start > end; otherwise 2^(end+1) - 2^start, with exactly bits start to end set |
| Bitops.BitRangeFromZero | middleware/feabhos/C++14/inc/Bitops.h:38-47 | `bit_range(0, n)` is 2^(n+1) - 1, so `clear_all` clears n+1 flags |
| Bitops.SetBitBits | qemu_wms.py:104 | `x \| (1 << b)` sets bit b and keeps every other bit |
| Bitops.ClearBitBits | qemu_wms.py:106 | `x & ~(1 << b)` clears bit b and keeps every other bit |
| Bitops.SetBitBound | qemu_wms.py:104 | setting a bit below n keeps a value below 2^n |
| Bitops.ClearBitBound | qemu_wms.py:106 | clearing a bit never makes a value larger |
| MemoryMap.Ahb1Number | drivers-cpp/Peripherals.h:25-36 | the AHB1 device numbers, at most 8 |
| MemoryMap.Apb1Number | drivers-cpp/Peripherals.h:38-58 | the APB1 device numbers, at most 23 |
| MemoryMap.Apb2Number | drivers-cpp/Peripherals.h:60-72 | the APB2 device numbers, at most 18 |
| MemoryMap.Ahb1Address | drivers-cpp/Memory_map.h:40-42 | the AHB1 base plus one 0x400 slot per device number |
| MemoryMap.Apb1Address | drivers-cpp/Memory_map.h:44-46 | the APB1 base plus one 0x400 slot per device number, below the APB2 base |
| MemoryMap.Apb2Address | drivers-cpp/Memory_map.h:48-50 | the APB2 base plus one 0x400 slot per device number, below the AHB1 base |
| MemoryMap.BusBases | drivers-cpp/Memory_map.h:30-38 | APB1 at 0x40000000, APB2 at 0x40010000, AHB1 at 0x40020000, above flash and SRAM |
| MemoryMap.AddressesIncrease | drivers-cpp/Memory_map.h:40-50 | within each bus addresses grow strictly with the device number (on APB1 by exactly 0x400 per number), and distinct devices have distinct addresses |
| MemoryMap.Usart3Address | drivers-cpp/Memory_map.h:44-46 | USART3 is at 0x40004800, the address the USART driver hard-codes |
| MemoryMap.GpioDAddress | drivers-cpp/Memory_map.h:40-42 | GPIO port D is at 0x40020C00 |
| MemoryMap.AddressesFitWord | drivers-cpp/Memory_map.h:30-50 | every device address fits a `uint32_t` and lies above the peripheral base |

## Left out

- The Tk user interface is not modelled: widgets, menus, dialogs, scrolling, cursors, image loading, and the canvas's create and delete calls. The canvas is a map from overlay id to the image index shown.
- Sockets, `select`, the listener thread and the `tk.Event` hand-off in `qemu_update` are not modelled. Each receive is an input (`Recv`), and the events are returned in order. The shared `tk.Event.message` attribute is modelled as a message carried by each event, so a race on it is not captured.
- `QEmuListener.write` assumes the socket takes the whole message. Its retry loop and its send-error warnings are not modelled.
- `root.after` timers are not modelled: the 10 ms delay of `warning()` and the rescheduling of `on_timer_running`. A warning is appended to `warnings` at once, and the timer is the flag `ticker`.
- The serial console is not modelled: `QEmuSerial`, `do_poll_serial` and `on_putty_key`. It is I/O over a second socket, so only whether there is a serial connection is kept.
- `do_connect`, `do_start_connect`, `on_connect` and `on_connect_serial` are not modelled. They open sockets, and their failures come from the network.
- `Settings`, the settings dialogs and `on_quit` are not modelled. They are file I/O and window management.
- `device_ticks`, `warn_ticks` and `do_warning`'s time stamp are not modelled. They read the clock and set widget text.
- `on_move` is not modelled: it finds the button under the mouse from screen geometry. The hovered button is a parameter of `OnB1Down` and `OnB1Up`, and the button table omits the coordinates.
- The `manager` hook is treated as absent throughout.
- `find_button`, `build_overlay` and `remove_image` are not modelled. They are screen geometry and file loading.
- Gui.BoardGui.DoDisconnect: the display is reset before the indicators are cleared. The two steps touch disjoint state, so the final state is the same.
- Gui.BoardGui.OnTimerRunning: the display is animated after the queries are written. The two steps touch disjoint state, so the written commands and the final state are the same.
- Session.OnIndicator: the `pin_low` and `pin_high` events reach the unknown-tag branch. Their handling is commented out in the source.
- Protocol.ListenSpec: the `int(..., 16)` and `reply[2]` failures escape the loop's handlers and end the listener thread. They are modelled as the outcome `Crashed`, and what Python then prints is not modelled.
- Allocator.BlockAllocate: `null` stands for a NULL `pool_handle`. A non-NULL `pool_handle` whose descriptor `*pool_handle` is NULL, which a failed `pool_create` leaves, is not modelled: the source dereferences it unchecked, which is undefined behaviour.
- Allocator.BlockFree: `null` stands for a NULL `pool_handle`. A NULL descriptor behind a non-NULL `pool_handle` is not modelled: `begin()` dereferences it unchecked, which is undefined behaviour.
- Allocator.BlockFree: an address inside the pool must be the start of a block. The source accepts any address in range, and the model does not say what a misaligned address does to the list.
- Allocator.BlockFree: freeing a block that is already free is allowed and the link is written as in the source, but the contract then promises no well-formed free list.
- Allocator: `lock`/`unlock` are pthread mutex calls and are left out. Memory is modelled as block indices with one link array, not as raw bytes.
- Fifo14.Fifo.Get: `std::move` out of the read slot is modelled as a copy, so the contract says the buffer is unchanged. For a type with a non-trivial move the source leaves that slot moved-from. The queue contents are the same either way, because the slot leaves the queue.
- Allocator.PoolTable.GetInstance: the `assert` on an exhausted table is modelled as a NULL result that `PoolCreate` reports as `aborted`.
- `abs_duration` is not modelled, because it reads `clock_gettime`.
- The FeabhOS RTOS primitives, the driver register code and the build scripts are not part of this model.

## Findings

| source | as written | input that shows it | evidently intended | confidence | as-written member | corrected member |
|---|---|---|---|---|---|---|
| middleware/feabhos/C/platform/POSIX/src/feabhOS_time_utils.c:58-59 | `timespec_add` reduces the nanosecond sum modulo 1e9 without carrying a second into `tv_sec` | lhs = rhs = {0 s, 600000000 ns} gives {0 s, 200000000 ns} | the header's "lhs + rhs", i.e. {1 s, 200000000 ns} | not executed | TimeUtils.TimespecAddDropsCarry | TimeUtils.TimespecAddCarry |
| middleware/feabhos/C/platform/POSIX/src/feabhOS_allocator.c:158 | `block_size * num_blocks` is a `uint32_t` product, which wraps before it is compared with `pool_size` | pool_size 256, block_size 0x10000, num_blocks 0x10000: the product wraps to 0, so `ERROR_OK` | `ERROR_PARAM2`, since the blocks do not fit the pool, as the header documents | not executed | Allocator.CreateCheckWraps | Allocator.CreateCheck |
