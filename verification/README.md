# Serial mouse forwarder — Dafny model

This project models the serial-forwarding program of MacMousePi
(`mouse_to_serial.py`). The program reads decoded events from a USB mouse and
writes a line-oriented text protocol to a serial link:

- relative X or Y motion of magnitude at least 2 becomes `X:<delta>\n` or `Y:<delta>\n`;
- a left-button change becomes `BTN:<value>\n`, debounced: the value must differ from the
  last forwarded one, and strictly more than 50 ms must have passed since it was forwarded;
- every other event is ignored.

The loop body is modelled as a pure step function over an immutable button
state. The model also has a fold over finite event streams and a loop method
that builds the text written to the link.

Modules:

- `Wrappers`: the `Option` type. It is used for the absent button state and for parsers.
- `Decimal`: Python's signed decimal rendering of an `int` (`IntToString`). It comes with
  a canonical parser `ParseInt`, and both round-trip directions are proved.
- `Protocol`: the command datatype and its line rendering (`Render`). It also defines the
  receiving side's reading of a line (`ParseLine`) and of a whole stream (`ParseStream`).
  These readers are partner definitions: they are not in the program. They show that the
  text the program writes is unambiguous and decodes back to the commands.
- `Bridge`: the constants, the input event, the button state `(last value, last time)`,
  the step `Step`, the fold `Run`, the loop method `Forward`, and the per-event and
  whole-stream properties.

Two details of the button path, as `mouse_to_serial.py` has them:

- Line 44 forwards `event.value` whatever it is. A key-repeat value of 2 goes out as
  `BTN:2` just as 0 and 1 do, and the model's button command carries any integer.
- Line 43 is a strict `> 50` test against the time of the last *accepted* event, not the
  last event seen. It comes together with a change-of-value test against the last accepted
  value, and `None` differs from every value.

## Model

| member | source | states |
|---|---|---|
| `Bridge.Accepts` | mouse_to_serial.py:43 | A repeat of the last accepted value is refused, and so is any event at most 50 ms after the last acceptance. An accepted event is strictly later than the last acceptance. Before any acceptance, every value passes once the clock is more than 50 ms past the start time. |
| `Bridge.Step` | mouse_to_serial.py:34-47 | The button state changes only when a left-button event is forwarded, and then becomes (that value, that time). A forwarded move carries the event's own axis and value and has magnitude at least 2. A forwarded button line passes the debounce test. |
| `Bridge.Written` | mouse_to_serial.py:35-45 | The text one event hands to `ser.write`: empty exactly when no command is produced, otherwise a single line that reads back as the command. |
| `Bridge.MotionWritesLine` | mouse_to_serial.py:35-40 | X/Y motion with magnitude at least 2 writes exactly `X:` or `Y:` (by code), the signed decimal of the value, and a newline. The decimal decodes back to the value, the line parses back to the move, and the state is unchanged. |
| `Bridge.SmallMotionDropped` | mouse_to_serial.py:35-40 | X/Y motion with magnitude below the threshold of 2 writes nothing and leaves the state unchanged. |
| `Bridge.MotionKeepsButtonState` | mouse_to_serial.py:34-40 | No relative-motion event, on any axis, changes the button value or timestamp. Only X/Y motion can write anything. |
| `Bridge.RepeatedButtonIgnored` | mouse_to_serial.py:41-43 | A left-button event equal to the last accepted value writes nothing and leaves the state unchanged. |
| `Bridge.DebounceWindowSuppresses` | mouse_to_serial.py:41-43 | A left-button event at most 50 ms after the last accepted one writes nothing and leaves the state unchanged, even when its value differs. |
| `Bridge.DebounceBoundaryIsStrict` | mouse_to_serial.py:43 | Concrete case: a change exactly 50 ms after the last accepted one is dropped, and one at 51 ms is forwarded. |
| `Bridge.ButtonForwardedIff` | mouse_to_serial.py:41-47 | A left-button event writes a line if and only if its value differs and strictly more than 50 ms have passed. The line is exactly `BTN:`, the decimal of the value and a newline; the decimal decodes back to the value, and the state becomes (value, now). |
| `Bridge.FirstButtonForwarded` | mouse_to_serial.py:29-47 | From the initial state (no value, time 0), any left-button event is forwarded once the clock reads more than 50 ms. |
| `Bridge.OtherEventsIgnored` | mouse_to_serial.py:34-41 | An event that is neither REL_X/REL_Y motion nor the left button writes nothing and leaves the state unchanged. |
| `Bridge.Run` | mouse_to_serial.py:33-47 | The loop over a finite event stream threads the button state through `Step` and writes at most one line per event (`|emitted| <= |evs|`). |
| `Bridge.DebounceInvariant` | mouse_to_serial.py:41-47 | Over any event stream, with clock readings in any order, forwarded button lines form a debounced sequence. The first passes the test against the start state. Each later one has a different value from, and is more than 50 ms after, the previous one. The final state is the last forwarded button, or the start state if there is none. |
| `Bridge.TimesStrictlyIncrease` | mouse_to_serial.py:43-47 | Between the i-th and j-th forwarded button lines (i < j), more than (j - i) * 50 ms elapse. |
| `Bridge.Forward` | mouse_to_serial.py:29-47 | The loop, starting from (no value, 0), appends each event's line to the written text. The result is the concatenation of the fold's commands, it parses back to exactly those commands, and the final state is the fold's. |
| `Decimal.IntToString` | mouse_to_serial.py:36 | Interpolating an int gives non-empty text. It starts with '-' exactly for negative values, and everything after that sign (the whole text for non-negative values) is digits. |
| `Decimal.ParseIntRoundTrip` | mouse_to_serial.py:36 | Decoding the decimal text of any integer gives back that integer. |
| `Decimal.ParseIntCanonical` | mouse_to_serial.py:36 | Every text the decoder accepts is exactly the rendering of the value it returns, so each value has one spelling. |
| `Decimal.IntToStringInjective` | mouse_to_serial.py:36 | Distinct integers render to distinct texts. |
| `Protocol.Render` | mouse_to_serial.py:36-44 | Every command line is pure ASCII, at least 4 characters long, and ends in its only newline. So `encode()` writes one byte per character, and lines never run into each other. |
| `Protocol.ParseLineRoundTrip` | mouse_to_serial.py:36-44 | Reading a rendered line gives back the command it was rendered from. |
| `Protocol.ParseLineCanonical` | mouse_to_serial.py:36-44 | Every line the reader accepts is the rendering of the command it reads. |
| `Protocol.TranscriptLines` | mouse_to_serial.py:36-45 | The text written for a command sequence holds exactly one line break per command. |
| `Protocol.TranscriptEndsLine` | mouse_to_serial.py:36-45 | The text written for a non-empty command sequence ends in a line break, so no partial line is left. |
| `Protocol.ParseStreamRoundTrip` | mouse_to_serial.py:36-45 | The concatenation of the lines written for any command sequence splits and reads back as exactly that sequence. |

## Left out

- Device discovery (`find_mouse`, mouse_to_serial.py:13-19) and its exit with status 1 when no mouse is found. This is evdev enumeration and process exit.
- Opening the serial port at `/dev/serial0` and 115200 baud, the open-error exit, `ser.write` and `ser.close` (lines 6-7, 24-27, 37, 40, 45, 53). This is I/O. The written bytes are modelled as returned text (`Written`, `Forward`).
- The blocking `read_loop` iteration and the `KeyboardInterrupt` and catch-all exception handlers (lines 33, 48-53). This is runtime plumbing. The fold and `Forward` take a finite event sequence instead.
- The clock `time.time() * 1000` (line 42) is a float. It becomes an integer millisecond reading supplied with each event, so sub-millisecond differences in the strict `> 50` comparison are not modelled. The initial last time is 0, as at line 30.
- Event values are unbounded integers. The kernel's values are signed 32-bit, and every model property holds for all integers.
- The numeric event codes (EV_KEY = 1, EV_REL = 2, REL_X = 0, REL_Y = 1, BTN_LEFT = 0x110) are those of the Linux input event interface. They come from the evdev library, which is not part of this model.
- The quadrature-output program (`Just the pi/mouse_to_serial.py`) is not part of this model. This covers its motion scaling, pending-step buffers, pacing tiers, waveform table and GPIO output.
