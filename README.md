# PVDriver serial protocol, modelled in Dafny

`PVDriver` (driver/driver.py) is the host-side bridge to an Arduino that
drives a two-axis (tilt and rotation) photovoltaic test mount. It speaks a
small ASCII protocol over a serial port:

| direction | frame | meaning |
|---|---|---|
| to device | `RP;` | request the position |
| from device | `POS:<tilt>,<rot>` | the position, in degrees |
| to device | `GT,<v>;` / `GTR,<v>;` | set the tilt, absolute / relative |
| to device | `GR,<v>;` / `GRR,<v>;` | set the rotation, absolute / relative |
| to device | `RS;` | request the state |
| from device | `STATE:<n>` | 0 = IDLE, 1 = MOVING, anything else = ERROR |

The model has three modules:

- `Text` (text.dfy): the Python string operations the driver uses. These
  are `endswith`, `in`, `split` on one character, `str` of an integer and
  `int(...)`, which ignores surrounding whitespace.
- `Protocol` (protocol.dfy): the pure part. It covers the setpoint frames
  and a decoder for them, the state codes and `_get_state`'s naming of
  them, the decoding of `POS:` and `STATE:` lines, and `Poll`. `Poll`
  states which incoming line answers a blocking request.
- `Driver` (driver.dfy): class `PVDriver`. The serial port is two fields:
  `written`, the log of frames written (append-only), and `incoming`, the
  finite queue of lines that `readline` will return. A read that times out
  is an empty or partial line in that queue. `SendCommand` keeps the poll loop of the
  source as a `while` loop, proved against `Poll`. `SetPosition` keeps the
  source's `if`/`elif` branches, proved against `SetpointFrames`. The class
  invariant `Valid()` says that every frame in the write log ends with
  `;`.

The model keeps these behaviours of the code:

- `get_position` takes the payload between the first and the second `:` of
  the response line and applies `float` to the first two `,`-fields of it.
  `_get_state` applies `int` to the whole payload. Both conversions ignore
  surrounding whitespace, so a line terminator such as `\r\n` is accepted.
  A `;` left at the end of a response (`POS:12,-3;`, `STATE:0;`) makes them
  raise ValueError, as `TerminatedPositionRejected` and
  `TerminatedStateRejected` show. The model uses integer angles and
  `int`-style conversion for both (see "## Left out").
- Fields of a position payload after the second are ignored.
- An angle of `0` is treated as "not given", because of Python
  truthiness: `set_position(tilt=0)` writes nothing.
- The controller-parameter methods are empty stubs that do nothing.

## Model

| member | source | states |
|---|---|---|
| `Text.EndsWith` | driver/driver.py:116 | `cmd.endswith(';')`: true exactly when the text is some prefix followed by the suffix |
| `Text.Contains` | driver/driver.py:131 | `res_pattern in res`: true when the line starts with the pattern, and only when the pattern fits in the line |
| `Text.Split` | driver/driver.py:48-49 | `str.split` on one character yields at least one field, and no field contains the separator |
| `Text.JoinSplit` | driver/driver.py:48-49 | splitting loses nothing: joining the fields with the separator gives back the line |
| `Text.SplitNoSeparator` | driver/driver.py:48-49 | a line without the separator is a single field |
| `Text.SplitAtFirst` | driver/driver.py:48-49 | the first field is the text before the first separator, and the remaining fields are those of the text after it |
| `Text.SplitSecondField` | driver/driver.py:48-49 | field 1 is the text between the first and the second separator, or up to the end of the line when there is no second one |
| `Text.TrimEndDropsSpace` | driver/driver.py:151 | the whitespace that `int`/`float` ignore, such as a line terminator, is dropped and the text before it is kept |
| `Text.Str` | driver/driver.py:79-100 | `str(v)` of an integer angle: non-empty, only `-` and decimal digits, no surrounding whitespace |
| `Text.ParseInt` | driver/driver.py:151 | `int(...)` on a field (also standing for `float` at lines 48-49): the decimal integer after stripping whitespace; blank text raises ValueError |
| `Text.StrRoundTrip` | driver/driver.py:79-83 | `str(v)` of an integer angle reads back as `v` |
| `Text.ParseIntStr` | driver/driver.py:151 | `int(str(v) + eol)` is `v` for any trailing whitespace `eol` |
| `Text.StrInjective` | driver/driver.py:79-83 | different angles give different text |
| `Text.ParseIntRejectsTerminator` | driver/driver.py:151 | text whose last character is `;` is not an integer: `int` raises ValueError |
| `Protocol.Truthy` | driver/driver.py:76-95 | definition of Python truthiness of an optional angle (absent or 0 is false); its effect is stated by `Protocol.ZeroAngleIsAbsent` and `Protocol.SetpointFramesCases` |
| `Protocol.TruthyText` | driver/driver.py:121 | definition of Python truthiness of an optional response pattern (absent or empty is false); its effect is stated by the `MissingPattern` clause of `Driver.PVDriver.SendCommand` |
| `Protocol.Frame` | driver/driver.py:79-100 | a setpoint frame: its axis and mode prefix (`GT,`, `GTR,`, `GR,`, `GRR,`), then `str` of the value, then `;` |
| `Protocol.FrameRoundTrip` | driver/driver.py:78-100 | every setpoint frame `prefix + str(v) + ";"` ends with `;` and decodes back to its axis, its mode and its value |
| `Protocol.FrameInjective` | driver/driver.py:78-100 | two different setpoints never produce the same frame |
| `Protocol.Setpoints` | driver/driver.py:76-105 | one setpoint per truthy angle (none, one or two); all in the requested mode; the tilt comes first and the rotation last |
| `Protocol.SetpointFrames` | driver/driver.py:76-105 | the frames one `set_position` call writes: one per truthy angle, each ending in `;` |
| `Protocol.SetpointFramesCases` | driver/driver.py:76-105 | the four branches: no truthy angle writes nothing, one truthy angle writes that axis's frame only, two write the tilt frame then the rotation frame |
| `Protocol.SetpointFramesDecode` | driver/driver.py:76-105 | the frames of one `set_position` call match its setpoints one for one and in order; each frame ends with `;` and decodes to its setpoint |
| `Protocol.ZeroAngleIsAbsent` | driver/driver.py:76-95 | an angle of 0 writes the same frames as an absent one |
| `Protocol.SetpointFramesExamples` | driver/driver.py:87-105 | no angle writes nothing; `tilt=5` writes `GT,5;`; `rot=-2` writes `GR,-2;` |
| `Protocol.SetpointFramesRelativeExamples` | driver/driver.py:62-65 | the documented `set_position(tilt=2, rot=-5, relative=True)` writes `GTR,2;` then `GRR,-5;`; `tilt=5, rot=-2, relative` writes `GTR,5;` then `GRR,-2;` |
| `Protocol.StateName` | driver/driver.py:151-157 | `"IDLE"` exactly for code 0, `"MOVING"` exactly for code 1, `"ERROR"` exactly for every other code, including -1 |
| `Protocol.DecodeState` | driver/driver.py:151-157 | `_get_state` on a line: a line without `:` raises IndexError; the result is one of the three names, or IndexError or ValueError |
| `Protocol.DecodeStateRoundTrip` | driver/driver.py:145-157 | a line `STATE:<n>` followed by any line terminator decodes to the name of code `n` |
| `Protocol.TerminatedStateRejected` | driver/driver.py:151 | `STATE:<n>;` raises ValueError, because the `;` stays in the field passed to `int` |
| `Protocol.DecodePosition` | driver/driver.py:48-49 | `get_position` on a line: a line without `:` raises IndexError; the only errors are IndexError and ValueError |
| `Protocol.DecodePositionFields` | driver/driver.py:48-49 | the payload's field 0 as tilt and field 1 as rotation; a payload without `,` is refused; the only errors are IndexError and ValueError |
| `Protocol.DecodePositionPayload` | driver/driver.py:48-49 | the position is decoded from the text between the first and the second `:`, whatever comes before or after it |
| `Protocol.DecodePositionRoundTrip` | driver/driver.py:41-50 | a line `POS:<tilt>,<rot>` followed by any line terminator decodes to that tilt (field 0) and that rotation (field 1) |
| `Protocol.TerminatedPositionRejected` | driver/driver.py:48-49 | `POS:<tilt>,<rot>;` raises ValueError, because the `;` stays in the rotation field |
| `Protocol.Poll` | driver/driver.py:130-133 | the line a blocking request returns contains the pattern, is one of the incoming lines, and is followed by exactly the lines left unread |
| `Protocol.PollFindsFirstMatch` | driver/driver.py:130-134 | the first incoming line that contains the pattern is the answer; every earlier line is consumed and discarded; every later line stays unread |
| `Protocol.PollExhaustedIffNoMatch` | driver/driver.py:130-134 | the incoming lines run out without an answer exactly when none of them contains the pattern |
| `Driver.PVDriver.constructor` | driver/driver.py:28-29 | a new driver has written nothing, and its port will deliver the given lines |
| `Driver.PVDriver.ReadLine` | driver/driver.py:130 | `readline` pops the oldest incoming line and writes nothing |
| `Driver.PVDriver.SendCommand` | driver/driver.py:107-134 | a frame not ending in `;` raises with nothing written or read. Otherwise the frame is appended to the log. Without `fb_required` nothing is read and `None` is returned. With `fb_required` and no or an empty pattern, the call raises after the write and reads nothing. Otherwise the result is `Poll`'s first matching line, and the queue is what `Poll` leaves unread. Every frame in the log ends with `;` |
| `Driver.PVDriver.SetPosition` | driver/driver.py:52-105 | the log grows by exactly `SetpointFrames(tilt, rot, relative)`, and nothing is read |
| `Driver.PVDriver.GetPosition` | driver/driver.py:34-50 | writes exactly `RP;` and decodes the first incoming line that contains `POS:` |
| `Driver.PVDriver.GetState` | driver/driver.py:136-157 | writes exactly `RS;` and names the code in the first incoming line that contains `STATE:` |
| `Driver.SessionLines` | driver/driver.py:130-157 | on the port `"", "OK", "POS:12,-3\r\n", "STATE:7\r\n"`, the noise is skipped, the position request gets `(12, -3)`, and the state request gets `"ERROR"` for the unknown code 7 |

## Left out

- Opening and closing the serial port (`__init__`'s `serial.Serial` call and `close_connexion`) are foreign I/O. The port is the write log and the incoming queue.
- The `time.sleep` calls and every `print` are timing and console output. They do not change what is written or read.
- ASCII encoding of frames and UTF-8 decoding of lines are left out. Frames and lines are strings.
- Floating-point angles: `str(...)` of a float and `float(...)` are not modelled. Angles are integers, `str` is decimal `Str`, and `float` on a field is `int`-style `ParseInt`. So a fractional reply such as `POS:12.5,-3.25` is not covered.
- `Text.ParseInt` does not model the rest of Python's number syntax: `_` digit separators, non-ASCII digits, non-ASCII whitespace (such as `\x85` and `\xa0`), and for `float` exponents, `inf` and `nan`. Its whitespace is the ASCII set that Python strips, including `\x1c` to `\x1f`.
- `Driver.PVDriver.SendCommand`: when the finite incoming queue runs out before a matching line, the model returns `Err(NoMatchingLine)` with the queue empty. The source keeps calling `readline` forever, and its termination is not modelled.
- Driver.PVDriver.GetPosition and Driver.PVDriver.GetState inherit that `NoMatchingLine` outcome from `SendCommand`.
- `_get_controller_parameters` and `_set_controller_parameters` are empty stubs with no protocol.
- The `__main__` demo needs hardware. `Driver.Session` plays a similar session against a scripted port.
- Requests cannot overlap or be issued concurrently here: every method runs to completion on one object, as in the single-threaded source.
