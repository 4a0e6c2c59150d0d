# rhythmerror control panel: a Dafny model of its core

`gui.py` is the desktop control panel of a tapping experiment. It opens a serial
port to a Teensy microcontroller and checks the stimulus code and trial duration an
operator types in. It then sends the Teensy a play command. Whenever the port is
open (`capturing`), the main loop polls each line the Teensy reports (taps and a
completion message), shows it, and appends it to the output file of the last trial
started. The filename is never cleared, so lines read after a trial has ended still
go to that trial's file. This project models the part underneath the GUI and proves
what it does:

- `wrappers.dfy` (module `Wrappers`): `Option` and `Result`.
- `text.dfy` (module `Text`): the Python string operations the program relies on, on
  ASCII text: `str.strip()`, `str.upper()`, `str.isdigit()`, `int()` on a digit
  string and `str.find()`.
- `int32.dfy` (module `Int32`): `struct.pack('i', v)`. This is a signed 32-bit
  two's-complement integer in the machine's own byte order. Values outside the range
  make `struct.error` be raised. `struct.unpack` is modelled as its inverse.
- `protocol.dfy` (module `Protocol`): the three message constants and the checks
  `send_play_config` applies to its two fields. It also has the 9-byte play command
  and its decoding, and `check_and_convert_int`.
- `session.dfy` (module `Controller`): the session. `SessionState` is a value view of
  the state: the two flags of the global `config` dictionary (`capturing` and
  `running`), the port handle, the output filename, every byte written to the port,
  the lines appended to each output file, and the enabled state of the play and
  abort buttons as the last `update_enabled` call left it. Each operation (`openserial`,
  `send_play_config`, `send_play`, `abort`, `listen`, `update_enabled`, and the main
  loop's repeated `listen`) is first a function on that value (`OpenStep`, ...), with
  lemmas that state what it does. Each is then a method of `class Session` that makes
  the same changes to its fields in place and ensures `State() == Step(old(State()), ...)`.
  The module ends with one whole session: open a port, refuse a two-letter stimulus,
  play "no stimulus" for five seconds, then read a tap and the completion line.

External effects are parameters:
- whether `serial.Serial` succeeded is a `bool`;
- the line `readline` returned is a string, empty when nothing arrived;
- the output path `start_recording` builds is an opaque string;
- the machine's byte order is a `ByteOrder` fixed when a `Session` is made.

Three points about what the code actually does:

- The duration is packed with `'i'`, which has no `!`, `<` or `>` prefix. It goes out
  in the machine's byte order, not in network order, so the model never assumes
  big-endian. `Int32.PackLittle` gives the little-endian bytes used on x86 and ARM.
- `running ==> capturing` is not an invariant of the program, and the buttons do not
  always follow the flags. If `openserial` fails while a trial runs, it clears
  `capturing`, leaves `running` set, and returns before `update_enabled`, so both
  buttons stay enabled (`Controller.OpenFailureKeepsRunning`). The old handle is
  still there, so the stale play button can start a trial while `capturing` is false
  (`Controller.StalePlayButton`). The invariant the model keeps is `Consistent`: a set
  flag or an enabled play button implies that a port handle exists, and abort is never
  enabled without play.
- Among the lines read from the port, only one containing the exact substring
  `Trial completed at` ends a trial. (`abort` and `send_play` clear `running` too.) A
  line such as `Trial 3 completed at …` does not contain it, so it would leave
  `running` set (`Controller.NumberedLineIsNotMarker`).

Where each definition comes from in `gui.py`:
- `Text.Strip`: the `strip()` calls at gui.py:134, 156, 183, 192.
- `Text.Upper`: gui.py:183.
- `Text.DigitsValue`: `int()` at gui.py:162, 198.
- `Text.Find`: gui.py:138.
- `Int32.Pack`: gui.py:213.
- `Protocol.NormaliseStimulus`: gui.py:183-186.
- `Protocol.ParseDuration`: gui.py:192-198.
- `Protocol.ParseTrial`: gui.py:183-198.
- `Protocol.CheckAndConvertInt`: gui.py:150-162.
- `Protocol.EncodeFrame`: gui.py:205-213.
- `Controller.UpdateEnabled`: gui.py:168-172.
- `Controller.OpenStep`: gui.py:53-71.
- `Controller.PlayConfigStep`: gui.py:175-219.
- `Controller.SendTrialStep`: gui.py:205-231.
- `Controller.SendPlayStep`: gui.py:240-246.
- `Controller.AbortStep`: gui.py:252-255.
- `Controller.ListenStep`: gui.py:125-145.
- `Controller.ListenAll`: gui.py:381-383.

## Model

| member | source | states |
|---|---|---|
| Text.StripLeftShape | gui.py:183 | strip's left half removes a prefix made only of whitespace; what is left starts with a non-space (or is empty) |
| Text.StripRightShape | gui.py:183 | strip's right half removes a suffix made only of whitespace; what is left ends with a non-space (or is empty) |
| Text.StripUnique | gui.py:192 | however much whitespace surrounds a text with no whitespace at its ends, strip returns exactly that text |
| Text.StripShape | gui.py:156 | the stripped text has no whitespace at either end, and is a contiguous piece of the input with only whitespace cut away on each side |
| Text.StripAscii | gui.py:134 | stripping ASCII text gives ASCII text |
| Text.StripIdempotent | gui.py:183 | stripping twice is the same as stripping once |
| Text.StripEmpty | gui.py:185 | a field strips to "" exactly when it is all whitespace |
| Text.Upper | gui.py:183 | upper() keeps the length and upper-cases each character in place |
| Text.UpperProperties | gui.py:183 | upper() keeps text ASCII, leaves no lower-case letter, and a second upper() changes nothing |
| Text.UpperFixed | gui.py:183 | upper() leaves a text unchanged exactly when it has no lower-case letter |
| Text.ShowDecimal | gui.py:198 | the decimal rendering of a number is one or more digits, with a leading 0 only for zero |
| Text.DigitsRoundTrip | gui.py:198 | int() of the decimal rendering of n is n |
| Text.DigitsValueBound | gui.py:198 | a k-digit string denotes a number below 10^k |
| Text.LeadingZero | gui.py:198 | a leading zero does not change the value int() gives |
| Text.ZerosPrefix | gui.py:198 | any run of leading zeros does not change the value int() gives |
| Text.DigitsCanonical | gui.py:198 | every digit string is some leading zeros followed by the decimal rendering of the number int() reads from it |
| Text.FindFromFirst | gui.py:138 | find from k returns the first index at or after k where the pattern occurs, and -1 exactly when there is none |
| Text.ContainsIff | gui.py:138 | the test `find(p) > -1` holds exactly when p occurs somewhere in the text |
| Int32.Pack | gui.py:213 | struct.pack('i', v) gives four bytes exactly when v is in the signed 32-bit range, and raises otherwise |
| Int32.Unpack | gui.py:213 | reading four bytes back as a signed int gives a value in the 32-bit range |
| Int32.UnpackPack | gui.py:213 | unpacking the packed bytes gives v back, in either byte order |
| Int32.PackUnpack | gui.py:213 | every four bytes are the packing of exactly the value they unpack to |
| Int32.PackLittle | gui.py:213 | in little-endian order the bytes are v's base-256 digits, least significant first |
| Int32.FromToLittle | gui.py:213 | the base-256 digits of a number that fits read back as that number |
| Int32.ToFromLittle | gui.py:213 | every byte string is the digit string of the number it denotes |
| Protocol.NormaliseStimulusRule | gui.py:183-186 | the normalised stimulus is never empty: a blank field becomes "---"; otherwise it is the stripped text with each character upper-cased in place (ASCII upper-casing), so of the same length and with no lower-case letter, and ASCII when the input is |
| Protocol.StimulusRule | gui.py:183-190 | for ASCII text (the model's upper-casing is ASCII only), the stimulus is accepted exactly when the stripped field is empty or 3 characters long; the code sent is then 3 ASCII characters with no lower-case letter |
| Protocol.DurationValue | gui.py:192-198 | a duration field denotes n exactly when, stripped, it is zeros followed by the decimal rendering of n |
| Protocol.DurationRule | gui.py:192-198 | any whitespace around the decimal rendering of n is accepted, and the field denotes n |
| Protocol.ShortDurationsFit | gui.py:194-213 | a duration of at most nine digits always fits the 32-bit integer that is sent |
| Protocol.ParseTrialRule | gui.py:183-198 | for ASCII text (the model's strip and upper-casing are ASCII only), a request is refused for its stimulus exactly when the stripped field is neither empty nor 3 characters long, and for its duration exactly when the stimulus passes and the stripped duration is not digits; an accepted trial carries "---" for a blank field or else the upper-cased 3 characters, and a duration whose field is zeros followed by its decimal rendering |
| Protocol.ParseTrialWellFormed | gui.py:188-210 | for ASCII input, an accepted trial has a 3-character ASCII stimulus, so it can be encoded |
| Protocol.CheckAndConvertInt | gui.py:150-162 | the result is a number exactly when the key is present and its stripped value is digits, and it is then the value of those digits; the duration check follows the same rule |
| Protocol.CheckAndConvertIntRoundTrip | gui.py:150-162 | a number stored in decimal under the key is read back unchanged |
| Protocol.AsciiBytes | gui.py:210 | bytes(s, 'ascii') has one byte per character, equal to its code, each below 128 |
| Protocol.AsciiText | gui.py:134 | decode('ascii') has one character per byte, equal to its code |
| Protocol.AsciiRoundTrip | gui.py:210 | decoding the ASCII bytes of a text gives the text back |
| Protocol.AsciiRoundTripBytes | gui.py:134 | encoding the decoded text of ASCII bytes gives the bytes back |
| Protocol.EncodeFrame | gui.py:205-213 | the play command exists exactly when the duration is below 2^31; it is then 9 bytes: STOP 66, PLAY_STIMULUS 44, the three stimulus bytes, and four bytes that unpack to the duration |
| Protocol.DecodeFrame | gui.py:205-213 | what the receiver reads from 9 bytes is always a well-formed trial |
| Protocol.DecodeEncode | gui.py:205-213 | a command that was sent decodes to the trial it was made from |
| Protocol.EncodeDecode | gui.py:205-213 | every byte string that decodes is exactly the command of the decoded trial |
| Controller.UpdateEnabled | gui.py:168-172 | for any flags, abort is never enabled without play; that is the half of Consistent about the buttons, which the rule lemmas below show every operation keeps, including the failed open that does not call update_enabled |
| Controller.OpenSerialRule | gui.py:53-71 | openserial sets `capturing` to whether the port opened and records the new handle only on success; `running`, the filename, the wire and the files are untouched; Consistent is kept; the buttons are updated from the flags (play enabled) on success and left as they were on failure |
| Controller.OpenFailureKeepsRunning | gui.py:62-65 | a failed open during a trial leaves `running` true with `capturing` false, and both buttons still enabled, out of step with the flags |
| Controller.StalePlayButton | gui.py:240-246 | after such a failed open the play button is still enabled, and pressing it writes the play command and sets `running` although `capturing` is false; both buttons end disabled |
| Controller.PlayRejected | gui.py:183-196 | send_play_config refuses the stimulus exactly when it is invalid, and the duration exactly when the stimulus is valid but the duration is not; a refused request writes nothing and changes nothing |
| Controller.PlayAcceptedState | gui.py:205-231 | an accepted request appends the play command to the wire and sets the output filename, and changes nothing else |
| Controller.PlayOverflowState | gui.py:205-213 | a duration of 2^31 or more appends STOP, PLAY_STIMULUS and the stimulus, then stops, and changes nothing else |
| Controller.FrameAppended | gui.py:205-213 | appending the command of a trial adds 9 bytes after the old wire, in the order STOP, PLAY_STIMULUS, stimulus, duration, and the new bytes decode to the trial |
| Controller.PlayOutcomeRule | gui.py:183-219 | a request is refused exactly when a field is invalid, fails in struct.pack exactly when both are valid and the duration is 2^31 or more, and is accepted otherwise |
| Controller.PlayAccepted | gui.py:205-231 | after an accepted request the wire grows by exactly the 9-byte command for the normalised stimulus and the parsed duration, the filename is set, and the flags, port and files are unchanged |
| Controller.PlayOverflow | gui.py:205-213 | after a struct.pack failure the wire has grown by STOP, PLAY_STIMULUS and the stimulus bytes only; the filename and the flags are unchanged |
| Controller.SendPlayRule | gui.py:240-246 | for any state with a port handle: after send_play, `running` holds exactly when send_play_config accepted; `capturing`, the port and the files are unchanged; a refused request only clears `running` and updates the buttons; the buttons end as update_enabled makes them from `capturing` and the outcome; Consistent is kept |
| Controller.AbortRule | gui.py:252-255 | abort appends the single byte 66 and clears `running`; `capturing`, the port, the filename and the files are unchanged; the buttons are updated, so abort is disabled; Consistent is kept |
| Controller.ListenIdle | gui.py:129-132 | when not capturing, or when the read line is empty, listen changes nothing |
| Controller.ListenRule | gui.py:129-145 | a read line clears `running` and updates the buttons exactly when the stripped line contains "Trial completed at", and otherwise keeps both; buttons in step with the flags stay so, and Consistent is kept; the stripped line is appended to the current output file exactly when a filename is set, and no other file changes; the flags' `capturing`, port, wire and filename stay |
| Controller.ListenAllRule | gui.py:381-383 | over any run of the polling loop, `capturing`, port, wire and filename stay fixed, `running` can only go from true to false, buttons in step with the flags stay so, Consistent is kept, and while capturing with a filename set the file receives exactly the non-empty lines read, stripped, in order |
| Controller.OnlyAtStart | gui.py:138 | when the marker's first character occurs in a line only at its start, the line contains the marker exactly when it begins with it |
| Controller.CompletionMarker | gui.py:138 | a completion line as the Teensy sends it contains the marker |
| Controller.NumberedLineIsNotMarker | gui.py:138 | a line "Trial 3 completed at" does not contain the marker |
| Controller.ScenarioFrame | gui.py:205-213 | "no stimulus" for five seconds is sent as 66, 44, 45, 45, 45, 5, 0, 0, 0 on a little-endian machine |
| Controller.ScenarioRefused | gui.py:183-190 | a two-letter stimulus is refused and send_play only clears `running` and updates the buttons |
| Controller.ScenarioAccepted | gui.py:183-246 | an empty stimulus with duration "5" is accepted: its nine bytes are written, the filename is set, the trial runs, and abort is enabled exactly when capturing |
| Controller.ScenarioPolls | gui.py:129-145 | during that trial a tap line, a silent read and the completion line record the two lines and end the trial, leaving play enabled and abort disabled |
| Controller.Session.constructor | gui.py:361-370 | a session starts with both flags false, no port, no filename, nothing written, and both buttons disabled |
| Controller.Session.OpenSerial | gui.py:53-71 | the fields change as OpenStep says (buttons updated only on success), keeping Consistent; the result is whether the port opened |
| Controller.Session.SendPlayConfig | gui.py:175-219 | validates the two fields and writes the command byte by byte; state and outcome are as PlayConfigStep says |
| Controller.Session.SendTrial | gui.py:205-231 | writes STOP, PLAY_STIMULUS and the stimulus, then the packed duration, then sets the filename; stops after the stimulus when struct.pack fails |
| Controller.Session.SendPlay | gui.py:240-246 | clears `running` and updates the buttons, runs SendPlayConfig, then sets `running` on acceptance and updates the buttons again unless struct.pack raised, as SendPlayStep says |
| Controller.Session.Abort | gui.py:252-255 | appends STOP, clears `running` and updates the buttons, as AbortStep says |
| Controller.Session.Listen | gui.py:125-145 | handles one read line in place, updating the buttons on the marker, as ListenStep says |
| Controller.Session.UpdateButtons | gui.py:168-172 | sets the buttons from the flags and nothing else, keeping Consistent; afterwards the buttons are in step with the flags |
| Controller.Session.Poll | gui.py:381-383 | the main loop over a sequence of read lines; the state afterwards is ListenAll of the state before |
| Controller.StartScenario | gui.py:53-71 | a fresh session, opened, with one refused and one accepted play, has written exactly the nine bytes, is running and recording, and has both buttons enabled |
| Controller.EndToEnd | gui.py:240-246 | after the polls the wire holds the nine bytes, the port is still in use, the trial is over, play is enabled and abort disabled, and the file holds "tap 1200" and "Trial completed at 00:00:05" |

## Left out

- The Tk GUI is left out: widgets, message boxes, file dialogs and the on-screen report (`build_gui`, `browse_serial`, `error_message`, `output`). It is display only. Error messages are modelled only as the `Rejected` outcome.
- `guess_serial` is left out. It inspects the file system and uses `glob`, whose order is unspecified. The port name is a parameter.
- `start_recording` builds the output path from `os.path.join`, `os.makedirs` and `time.strftime`. The model takes the path as an opaque argument and models only the assignment of `config["out.filename"]`.
- Real serial I/O is left out (`serial.Serial`, `readline`, `write`, timeouts, the baud rate). The open result and each read line are parameters, and the bytes written are the `wire` log.
- `time.sleep` in `send_play_config` and in the main loop, `on_closing` and `keep_going` are left out. They are timing and shutdown plumbing. `Controller.Session.Poll` takes a finite sequence of read lines in place of the endless loop.
- Files are modelled as the lines this program appends to each path. Their earlier contents and the file system itself are not modelled.
- `MESSAGE_RECORD_TAPS` (55) is defined but used nowhere, as in the program. The commented-out record button (gui.py:331-336) calls `send_record`, which the program never defines.
- The Python 2 import shims and the pySerial import guard are left out.
- Non-ASCII stimulus text is not modelled. Python's `upper()` also changes non-ASCII letters and can change the length: `'ß'.upper()` is `"SS"`, so the field `"ßa"` becomes `"SSA"`, passes the length check and is sent as a full 9-byte command, while `"é"` is refused with nothing written. A stimulus that is still non-ASCII after strip and upper and passes both checks makes `bytes(..., 'ascii')` raise after STOP and PLAY_STIMULUS were written. `Text.Upper` upper-cases ASCII letters only, and `Controller.Session.SendPlay` and `Controller.Session.SendPlayConfig` require ASCII stimulus text, so none of these paths is modelled.
- A line with a non-ASCII byte would make `decode('ascii')` raise in `listen`. `Controller.Session.Listen` and `Controller.Session.Poll` require ASCII lines, so that failure path is not modelled.
- Protocol.ParseDuration and Controller.PlayConfigStep: CPython 3.11 and later make `int()` raise `ValueError` on a digit string longer than 4300 digits, before anything is written. The limit counts leading zeros too. The model has no such limit and reads the number where the program raises. A value of 2^31 or more then ends as `PackOverflow` after five bytes were written. A small value behind many leading zeros (4300 zeros followed by `5`) is accepted, and all nine bytes are written.
- Protocol.ParseDuration: whitespace and digits are the ASCII ones. Python's `strip` and `isdigit` also accept other Unicode whitespace and digits, and on those the model differs from the program.
- Controller.Session.SendPlayConfig: requires a port handle (`port.Some?`). In the program, `config["comm"]` missing raises `KeyError`. `send_play` and `abort` are only reachable through their buttons, and an enabled play button implies a handle (`Consistent`), so `Controller.Session.SendPlay`, `Controller.Session.Abort` and `Controller.SendPlayRule` require only `port.Some?`. They cover the stale buttons left by a failed re-open, when `capturing` is false.
