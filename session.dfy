/** The session controller of gui.py: the two flags `capturing` and `running`
    of the global config dictionary, the serial port handle, the current output
    filename, and the operations the buttons and the polling loop call on them.

    SessionState is the value-level view of a session; each operation is given
    first as a function on that view (its specification, about which the lemmas
    speak) and then as a method of class Session that performs the same steps in
    place. */
module Controller {
  import opened Wrappers
  import opened Text
  import opened Int32
  import opened Protocol

  /** The substring by which the microcontroller reports the end of a trial. */
  const TRIAL_COMPLETED: string := "Trial completed at"

  /** `port` names the device config["comm"] was last opened on (None before any
      successful open); `wire` is every byte written to the port so far; `files`
      holds, per output path, the lines this program appended to it; `buttons` is what
      the last call of update_enabled left enabled. */
  datatype SessionState = SessionState(
    capturing: bool,
    running: bool,
    port: Option<string>,
    outFilename: Option<string>,
    wire: seq<byte>,
    files: map<string, seq<string>>,
    buttons: Buttons)

  /** The state at start-up: both flags false, nothing opened, written or recorded, and
      both buttons disabled by the update_enabled call that ends build_gui. */
  const Initial: SessionState := SessionState(false, false, None, None, [], map[], UpdateEnabled(false, false))

  /** The handle config["comm"] exists whenever a flag says the port is in use or the play
      button is enabled, and abort is never enabled without play. The program does not keep
      running ==> capturing, nor buttons in step with the flags (see OpenFailureKeepsRunning). */
  predicate Consistent(s: SessionState) {
    && ((s.capturing || s.running || s.buttons.playEnabled) ==> s.port.Some?)
    && (s.buttons.abortEnabled ==> s.buttons.playEnabled)
  }

  /** The buttons show what update_enabled would make of the current flags. */
  predicate Synced(s: SessionState) {
    s.buttons == UpdateEnabled(s.capturing, s.running)
  }

  /** Which buttons update_enabled leaves enabled. */
  datatype Buttons = Buttons(playEnabled: bool, abortEnabled: bool)

  /** update_enabled: play while capturing, abort while capturing and running. */
  function UpdateEnabled(capturing: bool, running: bool): (b: Buttons)
    ensures b.playEnabled <==> capturing
    ensures b.abortEnabled <==> capturing && running
    ensures b.abortEnabled ==> b.playEnabled
  {
    Buttons(capturing, capturing && running)
  }

  /** How a call of send_play_config ends: it returned True, it returned False with an
      error message, or struct.pack raised because the duration needs more than 31 bits. */
  datatype PlayOutcome = Accepted | Rejected(error: TrialError) | PackOverflow

  /** openserial, given whether serial.Serial succeeded. A failure leaves the old handle,
      `running` and the buttons as they were: it returns before update_enabled. */
  function OpenStep(s: SessionState, portName: string, success: bool): SessionState {
    if success then s.(capturing := true, port := Some(portName), buttons := UpdateEnabled(true, s.running))
    else s.(capturing := false)
  }

  /** send_play_config: validate, then write STOP, PLAY_STIMULUS, the stimulus code and
      the packed duration, then start recording to `filename`. */
  function PlayConfigStep(s: SessionState, order: ByteOrder, stimulusText: string,
                          durationText: string, filename: string): (SessionState, PlayOutcome)
    requires IsAscii(stimulusText)
  {
    ParseTrialWellFormed(stimulusText, durationText);
    SendTrialStep(s, order, ParseTrial(stimulusText, durationText), filename)
  }

  /** The part of send_play_config after validation, given its verdict. */
  function SendTrialStep(s: SessionState, order: ByteOrder, parsed: Result<TrialConfig, TrialError>,
                         filename: string): (SessionState, PlayOutcome)
    requires parsed.Success? ==> WellFormed(parsed.value)
  {
    match parsed
    case Failure(e) => (s, Rejected(e))
    case Success(t) =>
      match EncodeFrame(t, order)
      case Some(frame) => (s.(wire := s.wire + frame, outFilename := Some(filename)), Accepted)
      case None => (s.(wire := s.wire + FramePrefix(t.stimulus)), PackOverflow)
  }

  lemma SendTrialAccepted(s: SessionState, order: ByteOrder, t: TrialConfig, filename: string)
    requires WellFormed(t) && Pack(t.duration, order).Some?
    ensures SendTrialStep(s, order, Success(t), filename)
            == (s.(wire := s.wire + (FramePrefix(t.stimulus) + Pack(t.duration, order).value),
                   outFilename := Some(filename)), Accepted)
  {
  }

  lemma SendTrialOverflow(s: SessionState, order: ByteOrder, t: TrialConfig, filename: string)
    requires WellFormed(t) && Pack(t.duration, order).None?
    ensures SendTrialStep(s, order, Success(t), filename)
            == (s.(wire := s.wire + FramePrefix(t.stimulus)), PackOverflow)
  {
  }

  /** send_play: clear `running` and update the buttons, run send_play_config, then set
      `running` if it returned True and update the buttons again. When struct.pack raises,
      the exception leaves send_play before its second update. */
  function SendPlayStep(s: SessionState, order: ByteOrder, stimulusText: string,
                        durationText: string, filename: string): (SessionState, PlayOutcome)
    requires IsAscii(stimulusText)
  {
    var cleared := s.(running := false, buttons := UpdateEnabled(s.capturing, false));
    var (after, outcome) := PlayConfigStep(cleared, order, stimulusText, durationText, filename);
    if outcome == PackOverflow then (after, outcome)
    else (after.(running := outcome == Accepted, buttons := UpdateEnabled(after.capturing, outcome == Accepted)),
          outcome)
  }

  /** abort: write STOP, clear `running` and update the buttons. */
  function AbortStep(s: SessionState): SessionState {
    s.(wire := s.wire + [MESSAGE_STOP], running := false, buttons := UpdateEnabled(s.capturing, false))
  }

  /** The lines recorded so far in file `name`. */
  function Lines(files: map<string, seq<string>>, name: string): seq<string> {
    if name in files then files[name] else []
  }

  /** listen, given the line readline returned (empty when nothing arrived in time). */
  function ListenStep(s: SessionState, line: string): SessionState {
    if !s.capturing || line == [] then s
    else
      var msg := Strip(line);
      var s1 := if Contains(msg, TRIAL_COMPLETED)
        then s.(running := false, buttons := UpdateEnabled(s.capturing, false)) else s;
      match s1.outFilename
      case None => s1
      case Some(name) => s1.(files := s1.files[name := Lines(s1.files, name) + [msg]])
  }

  /** Successive iterations of the polling loop, one read line each. */
  function ListenAll(s: SessionState, lines: seq<string>): SessionState {
    if lines == [] then s else ListenStep(ListenAll(s, lines[..|lines| - 1]), lines[|lines| - 1])
  }

  /** The record listen keeps of a sequence of read lines: each non-empty one, stripped. */
  function Recorded(lines: seq<string>): (r: seq<string>)
    ensures |r| <= |lines|
  {
    if lines == [] then []
    else
      var last := lines[|lines| - 1];
      Recorded(lines[..|lines| - 1]) + (if last == [] then [] else [Strip(last)])
  }

  lemma OpenSerialRule(s: SessionState, portName: string, success: bool)
    requires Consistent(s)
    ensures var r := OpenStep(s, portName, success);
      && r.capturing == success
      && r.running == s.running
      && r.port == (if success then Some(portName) else s.port)
      && r.outFilename == s.outFilename && r.wire == s.wire && r.files == s.files
      && Consistent(r)
      && r.buttons == (if success then UpdateEnabled(true, s.running) else s.buttons)
      && (success ==> Synced(r) && r.buttons.playEnabled)
  {
  }

  /** A failed (re)open while a trial runs leaves running set with capturing cleared, and
      both buttons still enabled although update_enabled would now disable them. */
  lemma OpenFailureKeepsRunning(p: string, q: string)
    ensures var active := SessionState(true, true, Some(p), None, [], map[], UpdateEnabled(true, true));
      var r := OpenStep(active, q, false);
      && r.running && !r.capturing
      && r.buttons.playEnabled && r.buttons.abortEnabled
      && !Synced(r) && Consistent(r)
  {
  }

  /** A refused request writes nothing and changes nothing. */
  lemma PlayRejected(s: SessionState, order: ByteOrder, stimulusText: string,
                     durationText: string, filename: string)
    requires IsAscii(stimulusText)
    ensures var (r, outcome) := PlayConfigStep(s, order, stimulusText, durationText, filename);
      && (outcome == Rejected(BadStimulus) <==> !ValidStimulus(stimulusText))
      && (outcome == Rejected(BadDuration) <==> ValidStimulus(stimulusText) && !ValidDuration(durationText))
      && (outcome.Rejected? ==> r == s)
  {
  }

  /** The state after an accepted request: the frame appended, the filename set. */
  lemma PlayAcceptedState(s: SessionState, order: ByteOrder, stimulusText: string,
                          durationText: string, filename: string)
    requires IsAscii(stimulusText)
    requires ParseTrial(stimulusText, durationText).Success?
    requires ParseTrial(stimulusText, durationText).value.duration < TWO_31
    ensures var t := ParseTrial(stimulusText, durationText).value;
      && WellFormed(t) && EncodeFrame(t, order).Some?
      && PlayConfigStep(s, order, stimulusText, durationText, filename)
           == (s.(wire := s.wire + EncodeFrame(t, order).value, outFilename := Some(filename)), Accepted)
  {
    ParseTrialWellFormed(stimulusText, durationText);
  }

  /** The state after struct.pack refused the duration: the prefix appended, nothing else. */
  lemma PlayOverflowState(s: SessionState, order: ByteOrder, stimulusText: string,
                          durationText: string, filename: string)
    requires IsAscii(stimulusText)
    requires ParseTrial(stimulusText, durationText).Success?
    requires ParseTrial(stimulusText, durationText).value.duration >= TWO_31
    ensures var t := ParseTrial(stimulusText, durationText).value;
      PlayConfigStep(s, order, stimulusText, durationText, filename)
        == (s.(wire := s.wire + FramePrefix(t.stimulus)), PackOverflow)
  {
  }

  /** Appending the frame of a trial to a wire log puts the nine bytes in their places. */
  lemma FrameAppended(w: seq<byte>, t: TrialConfig, order: ByteOrder)
    requires WellFormed(t) && t.duration < TWO_31
    ensures var w' := w + EncodeFrame(t, order).value;
      && |w'| == |w| + 9
      && w'[..|w|] == w
      && w'[|w|] == MESSAGE_STOP
      && w'[|w| + 1] == MESSAGE_PLAY_STIMULUS
      && w'[|w| + 2..|w| + 5] == AsciiBytes(t.stimulus)
      && DecodeFrame(w'[|w|..], order) == Some(t)
  {
    var f := EncodeFrame(t, order).value;
    var w' := w + f;
    assert w'[..|w|] == w;
    assert w'[|w|..] == f;
    assert w'[|w| + 2..|w| + 5] == f[2..5];
    DecodeEncode(t, order);
  }

  /** What a request leads to: refused when a field is invalid, struct.pack failing when the
      duration needs more than 31 bits, accepted otherwise. */
  lemma PlayOutcomeRule(s: SessionState, order: ByteOrder, stimulusText: string,
                        durationText: string, filename: string)
    requires IsAscii(stimulusText)
    ensures var outcome := PlayConfigStep(s, order, stimulusText, durationText, filename).1;
      && (outcome.Rejected? <==> !ValidStimulus(stimulusText) || !ValidDuration(durationText))
      && (outcome == Accepted <==>
            ValidStimulus(stimulusText) && ValidDuration(durationText)
            && ParseDuration(durationText).value < TWO_31)
      && (outcome == PackOverflow <==>
            ValidStimulus(stimulusText) && ValidDuration(durationText)
            && ParseDuration(durationText).value >= TWO_31)
  {
  }

  /** An accepted request appends exactly the nine-byte play command and sets the
      output filename; nothing else changes. */
  lemma PlayAccepted(s: SessionState, order: ByteOrder, stimulusText: string,
                     durationText: string, filename: string)
    requires IsAscii(stimulusText)
    requires PlayConfigStep(s, order, stimulusText, durationText, filename).1 == Accepted
    ensures var r := PlayConfigStep(s, order, stimulusText, durationText, filename).0;
      && |r.wire| == |s.wire| + 9
      && r.wire[..|s.wire|] == s.wire
      && r.wire[|s.wire|] == MESSAGE_STOP
      && r.wire[|s.wire| + 1] == MESSAGE_PLAY_STIMULUS
      && r.wire[|s.wire| + 2..|s.wire| + 5] == AsciiBytes(NormaliseStimulus(stimulusText))
      && DecodeFrame(r.wire[|s.wire|..], order)
           == Some(TrialConfig(NormaliseStimulus(stimulusText), ParseDuration(durationText).value))
      && r.outFilename == Some(filename)
      && r.capturing == s.capturing && r.running == s.running
      && r.port == s.port && r.files == s.files
  {
    PlayOutcomeRule(s, order, stimulusText, durationText, filename);
    PlayAcceptedState(s, order, stimulusText, durationText, filename);
    var t := ParseTrial(stimulusText, durationText).value;
    FrameAppended(s.wire, t, order);
  }

  /** A duration of 2^31 or more makes struct.pack raise after the first five bytes
      were written; the output filename is left as it was. */
  lemma PlayOverflow(s: SessionState, order: ByteOrder, stimulusText: string,
                     durationText: string, filename: string)
    requires IsAscii(stimulusText)
    requires PlayConfigStep(s, order, stimulusText, durationText, filename).1 == PackOverflow
    ensures var r := PlayConfigStep(s, order, stimulusText, durationText, filename).0;
            && r.wire == s.wire + [MESSAGE_STOP, MESSAGE_PLAY_STIMULUS]
                                + AsciiBytes(NormaliseStimulus(stimulusText))
            && r.outFilename == s.outFilename
            && r.capturing == s.capturing && r.running == s.running
  {
  }

  /** After send_play, `running` holds exactly when send_play_config returned True, so a
      refused request stops a trial the program thought was running. */
  lemma SendPlayRule(s: SessionState, order: ByteOrder, stimulusText: string,
                     durationText: string, filename: string)
    requires IsAscii(stimulusText) && Consistent(s) && s.port.Some?
    ensures var (r, outcome) := SendPlayStep(s, order, stimulusText, durationText, filename);
      && (r.running <==> outcome == Accepted)
      && r.capturing == s.capturing && r.port == s.port && r.files == s.files
      && (outcome.Rejected? ==> r == s.(running := false, buttons := UpdateEnabled(s.capturing, false)))
      && r.buttons == UpdateEnabled(s.capturing, outcome == Accepted)
      && Synced(r) && Consistent(r)
  {
    var cleared := s.(running := false, buttons := UpdateEnabled(s.capturing, false));
    var (c, o) := PlayConfigStep(cleared, order, stimulusText, durationText, filename);
    PlayRejected(cleared, order, stimulusText, durationText, filename);
  }

  /** With the handle of an earlier open still there, the stale play button starts a trial
      although capturing is cleared; afterwards update_enabled disables both buttons while
      the program thinks a trial runs. */
  lemma StalePlayButton(p: string, q: string, filename: string)
    ensures var active := SessionState(true, true, Some(p), None, [], map[], UpdateEnabled(true, true));
      var stale := OpenStep(active, q, false);
      && stale.buttons.playEnabled
      && SendPlayStep(stale, LittleEndian, "", "5", filename)
         == (stale.(wire := [66, 44, 45, 45, 45, 5, 0, 0, 0], outFilename := Some(filename), running := true,
                    buttons := Buttons(false, false)),
             Accepted)
  {
    var active := SessionState(true, true, Some(p), None, [], map[], UpdateEnabled(true, true));
    var stale := OpenStep(active, q, false);
    ScenarioAccepted(stale, filename);
    assert stale.wire + [66, 44, 45, 45, 45, 5, 0, 0, 0] == [66, 44, 45, 45, 45, 5, 0, 0, 0];
  }

  /** abort writes one STOP byte and clears `running`; nothing else changes. */
  lemma AbortRule(s: SessionState)
    requires Consistent(s)
    ensures var r := AbortStep(s);
      && r.wire == s.wire + [66]
      && !r.running
      && r.capturing == s.capturing && r.port == s.port
      && r.outFilename == s.outFilename && r.files == s.files
      && r.buttons == UpdateEnabled(s.capturing, false) && !r.buttons.abortEnabled
      && Synced(r) && Consistent(r)
  {
  }

  /** When not capturing, or when nothing was read, listen changes nothing. */
  lemma ListenIdle(s: SessionState, line: string)
    requires !s.capturing || line == []
    ensures ListenStep(s, line) == s
  {
  }

  /** A read line clears `running` exactly when it contains the completion marker, and is
      recorded, stripped, exactly when an output filename is set. */
  lemma ListenRule(s: SessionState, line: string)
    requires s.capturing && line != []
    ensures var r := ListenStep(s, line);
      var ended := exists i :: OccursAt(Strip(line), TRIAL_COMPLETED, i);
      && r.running == (s.running && !ended)
      && r.buttons == (if ended then UpdateEnabled(s.capturing, false) else s.buttons)
      && (Synced(s) ==> Synced(r))
      && (Consistent(s) ==> Consistent(r))
      && r.capturing == s.capturing && r.port == s.port
      && r.wire == s.wire && r.outFilename == s.outFilename
      && (s.outFilename.None? ==> r.files == s.files)
      && (s.outFilename.Some? ==>
            && Lines(r.files, s.outFilename.value) == Lines(s.files, s.outFilename.value) + [Strip(line)]
            && forall n :: n != s.outFilename.value ==> Lines(r.files, n) == Lines(s.files, n))
  {
    ContainsIff(Strip(line), TRIAL_COMPLETED);
  }

  /** Over any run of the polling loop: the port, the flags' `capturing`, the wire and the
      filename stay fixed, `running` can only be cleared, and while capturing the current
      file receives exactly the recorded lines. */
  lemma {:induction false} ListenAllRule(s: SessionState, lines: seq<string>)
    ensures var r := ListenAll(s, lines);
      && r.capturing == s.capturing && r.port == s.port
      && r.wire == s.wire && r.outFilename == s.outFilename
      && (r.running ==> s.running)
      && (!s.capturing ==> r == s)
      && (Synced(s) ==> Synced(r))
      && (Consistent(s) ==> Consistent(r))
      && (s.capturing && s.outFilename.Some? ==>
            Lines(r.files, s.outFilename.value) == Lines(s.files, s.outFilename.value) + Recorded(lines))
      && (forall n :: s.outFilename != Some(n) ==> Lines(r.files, n) == Lines(s.files, n))
  {
    if lines != [] {
      var init := lines[..|lines| - 1];
      var last := lines[|lines| - 1];
      ListenAllRule(s, init);
      var m := ListenAll(s, init);
      if m.capturing && last != [] {
        ListenRule(m, last);
      }
    }
  }

  /** When the first character of `p` appears in `h` only at the start, `h` contains `p`
      exactly when it begins with it. */
  lemma OnlyAtStart(h: string, p: string)
    requires p != [] && h != [] && p[0] !in h[1..]
    ensures Contains(h, p) <==> |p| <= |h| && h[..|p|] == p
  {
    ContainsIff(h, p);
    forall j | 0 < j ensures !OccursAt(h, p, j) {
      if j + |p| <= |h| {
        assert h[j] == h[1..][j - 1];
        assert h[j..j + |p|][0] == h[j];
      }
    }
    assert |p| <= |h| && h[..|p|] == p ==> OccursAt(h, p, 0);
  }

  /** A completion line as the device sends it contains the marker. */
  lemma CompletionMarker()
    ensures Contains("Trial completed at 00:00:05", TRIAL_COMPLETED)
  {
    assert OccursAt("Trial completed at 00:00:05", TRIAL_COMPLETED, 0);
    ContainsIff("Trial completed at 00:00:05", TRIAL_COMPLETED);
  }

  /** The marker must appear as written: a line that numbers the trial, "Trial 3 completed
      at", does not contain it, so it would not end the trial. */
  lemma NumberedLineIsNotMarker()
    ensures !Contains("Trial 3 completed at", TRIAL_COMPLETED)
  {
    var h := "Trial 3 completed at";
    assert h[1..] == "rial 3 completed at";
    assert 'T' !in h[1..];
    OnlyAtStart(h, TRIAL_COMPLETED);
    assert h[..18][6] == '3';
  }

  lemma AppendTwice(w: seq<byte>, a: byte, b: byte, c: seq<byte>)
    ensures w + [a] + [b] + c == w + ([a, b] + c)
  {
  }

  lemma AppendAssoc(w: seq<byte>, p: seq<byte>, n: seq<byte>)
    ensures w + p + n == w + (p + n)
  {
  }

  /** A session: the flags, the port handle, the output filename, and the logs of what was
      written to the port and appended to output files. `order` is the machine's byte order,
      which struct.pack('i', ...) uses. */
  class Session {
    const order: ByteOrder
    var capturing: bool
    var running: bool
    var port: Option<string>
    var outFilename: Option<string>
    var wire: seq<byte>
    var files: map<string, seq<string>>
    var buttons: Buttons

    function State(): SessionState
      reads this
    {
      SessionState(capturing, running, port, outFilename, wire, files, buttons)
    }

    predicate Valid()
      reads this
    {
      Consistent(State())
    }

    constructor (order: ByteOrder)
      ensures Valid() && State() == Initial && this.order == order
    {
      this.order := order;
      capturing, running := false, false;
      port, outFilename := None, None;
      wire, files := [], map[];
      buttons := UpdateEnabled(false, false);
    }

    /** The "open" button, given whether the device could be opened. The result is True
        on success and False on failure (openserial returns None or False). */
    method OpenSerial(portName: string, success: bool) returns (ok: bool)
      requires Valid()
      modifies this
      ensures Valid() && State() == OpenStep(old(State()), portName, success)
      ensures ok == success
    {
      if !success {
        capturing := false;
        return false;
      }
      port := Some(portName);
      capturing := true;
      UpdateButtons();
      ok := true;
    }

    /** send_play_config. */
    method SendPlayConfig(stimulusText: string, durationText: string, filename: string)
      returns (outcome: PlayOutcome)
      requires Valid() && port.Some? && IsAscii(stimulusText)
      modifies this
      ensures Valid()
      ensures (State(), outcome) == PlayConfigStep(old(State()), order, stimulusText, durationText, filename)
    {
      ParseTrialWellFormed(stimulusText, durationText);
      outcome := SendTrial(ParseTrial(stimulusText, durationText), filename);
    }

    /** send_play_config after validation, given its verdict. */
    method SendTrial(parsed: Result<TrialConfig, TrialError>, filename: string)
      returns (outcome: PlayOutcome)
      requires Valid() && port.Some? && (parsed.Success? ==> WellFormed(parsed.value))
      modifies this
      ensures Valid()
      ensures (State(), outcome) == SendTrialStep(old(State()), order, parsed, filename)
    {
      if parsed.Failure? {
        return Rejected(parsed.error);
      }
      var trial := parsed.value;
      wire := wire + [MESSAGE_STOP];
      wire := wire + [MESSAGE_PLAY_STIMULUS];
      wire := wire + AsciiBytes(trial.stimulus);
      AppendTwice(old(wire), MESSAGE_STOP, MESSAGE_PLAY_STIMULUS, AsciiBytes(trial.stimulus));
      var packed := Pack(trial.duration, order);
      if packed.None? {
        SendTrialOverflow(old(State()), order, trial, filename);
        return PackOverflow;
      }
      wire := wire + packed.value;
      AppendAssoc(old(wire), FramePrefix(trial.stimulus), packed.value);
      outFilename := Some(filename);
      SendTrialAccepted(old(State()), order, trial, filename);
      return Accepted;
    }

    /** The "go" button. */
    method SendPlay(stimulusText: string, durationText: string, filename: string)
      returns (outcome: PlayOutcome)
      requires Valid() && port.Some? && IsAscii(stimulusText)
      modifies this
      ensures Valid()
      ensures (State(), outcome) == SendPlayStep(old(State()), order, stimulusText, durationText, filename)
    {
      running := false;
      UpdateButtons();
      outcome := SendPlayConfig(stimulusText, durationText, filename);
      if outcome == PackOverflow {
        return;
      }
      if outcome == Accepted {
        running := true;
      }
      UpdateButtons();
    }

    /** The "abort" button. */
    method Abort()
      requires Valid() && port.Some?
      modifies this
      ensures Valid() && State() == AbortStep(old(State()))
    {
      wire := wire + [MESSAGE_STOP];
      running := false;
      UpdateButtons();
    }

    /** listen, given the line readline returned. */
    method Listen(line: string)
      requires Valid() && IsAscii(line)
      modifies this
      ensures Valid() && State() == ListenStep(old(State()), line)
    {
      if capturing && line != [] {
        var msg := Strip(line);
        if Find(msg, TRIAL_COMPLETED) > -1 {
          running := false;
          UpdateButtons();
        }
        if outFilename.Some? {
          var name := outFilename.value;
          files := files[name := Lines(files, name) + [msg]];
        }
      }
    }

    /** update_enabled: set the buttons from the flags. */
    method UpdateButtons()
      requires Valid()
      modifies this
      ensures Valid() && Synced(State())
      ensures State() == old(State()).(buttons := UpdateEnabled(old(capturing), old(running)))
    {
      buttons := UpdateEnabled(capturing, running);
    }

    /** The main loop, one read line per iteration. */
    method Poll(lines: seq<string>)
      requires Valid() && forall i :: 0 <= i < |lines| ==> IsAscii(lines[i])
      modifies this
      ensures Valid() && State() == ListenAll(old(State()), lines)
    {
      for k := 0 to |lines|
        invariant Valid()
        invariant State() == ListenAll(old(State()), lines[..k])
      {
        assert lines[..k + 1][..k] == lines[..k];
        Listen(lines[k]);
      }
      assert lines[..|lines|] == lines;
    }
  }

  /** The scenario's refused request: a two-letter stimulus. */
  lemma ScenarioRefusedInput()
    ensures !ValidStimulus("ab")
  {
    var ab := "ab";
    assert [] + ab + [] == ab;
    StripUnique([], ab, []);
    NormaliseStimulusRule(ab);
  }

  /** The scenario's accepted request: an empty stimulus field means "no stimulus", and
      the duration field is five seconds. */
  lemma ScenarioPlayInput()
    ensures ParseTrial("", "5") == Success(TrialConfig(NO_STIMULUS, 5))
  {
    NormaliseStimulusRule("");
    var five := "5";
    assert [] + five + [] == five;
    StripUnique([], five, []);
  }

  /** The frame for "no stimulus" for five seconds, packed little-endian. */
  lemma ScenarioFrame()
    ensures EncodeFrame(TrialConfig(NO_STIMULUS, 5), LittleEndian) == Some([66, 44, 45, 45, 45, 5, 0, 0, 0])
  {
    assert Pack(5, LittleEndian) == Some([5, 0, 0, 0]) by {
      PackLittle(5);
    }
    var prefix := FramePrefix(NO_STIMULUS);
    assert prefix == [66, 44, 45, 45, 45] by {
      assert AsciiBytes(NO_STIMULUS) == [45, 45, 45];
    }
    assert EncodeFrame(TrialConfig(NO_STIMULUS, 5), LittleEndian) == Some(prefix + [5, 0, 0, 0]);
    assert prefix + [5, 0, 0, 0] == [66, 44, 45, 45, 45, 5, 0, 0, 0];
  }

  /** How the scenario's tap line is read. */
  lemma ScenarioTap()
    ensures Strip("tap 1200\r\n") == "tap 1200" && !Contains("tap 1200", TRIAL_COMPLETED)
  {
    var tap := "tap 1200";
    assert "tap 1200\r\n" == [] + tap + "\r\n";
    StripUnique([], tap, "\r\n");
    ContainsIff(tap, TRIAL_COMPLETED);
    assert |TRIAL_COMPLETED| > |tap|;
  }

  /** How the scenario's completion line is read. */
  lemma ScenarioCompletion()
    ensures Strip("Trial completed at 00:00:05\r\n") == "Trial completed at 00:00:05"
    ensures Contains("Trial completed at 00:00:05", TRIAL_COMPLETED)
  {
    var done := "Trial completed at 00:00:05";
    assert "Trial completed at 00:00:05\r\n" == [] + done + "\r\n";
    assert Trimmed(done);
    StripUnique([], done, "\r\n");
    CompletionMarker();
  }

  /** The lines the scenario below reads from the port, one per poll. */
  const SCENARIO_LINES: seq<string> := ["tap 1200\r\n", "", "Trial completed at 00:00:05\r\n"]

  /** The scenario's first play request: a two-character stimulus is refused, and only
      `running` is cleared. */
  lemma ScenarioRefused(s: SessionState, filename: string)
    ensures SendPlayStep(s, LittleEndian, "ab", "5", filename)
      == (s.(running := false, buttons := UpdateEnabled(s.capturing, false)), Rejected(BadStimulus))
  {
    ScenarioRefusedInput();
    PlayRejected(s.(running := false, buttons := UpdateEnabled(s.capturing, false)), LittleEndian, "ab", "5", filename);
  }

  /** The scenario's second play request: "no stimulus" for five seconds is accepted, its
      nine bytes are written, and the trial runs recording to `filename`. */
  lemma ScenarioAccepted(s: SessionState, filename: string)
    ensures SendPlayStep(s, LittleEndian, "", "5", filename)
      == (s.(wire := s.wire + [66, 44, 45, 45, 45, 5, 0, 0, 0], outFilename := Some(filename), running := true,
             buttons := UpdateEnabled(s.capturing, true)),
          Accepted)
  {
    ScenarioPlayInput();
    ScenarioFrame();
    ParseTrialWellFormed("", "5");
    var cleared := s.(running := false, buttons := UpdateEnabled(s.capturing, false));
    var r := PlayConfigStep(cleared, LittleEndian, "", "5", filename);
    assert r == SendTrialStep(cleared, LittleEndian, Success(TrialConfig(NO_STIMULUS, 5)), filename);
  }

  /** The scenario's lines are ASCII. */
  lemma ScenarioLinesAscii()
    ensures forall i :: 0 <= i < |SCENARIO_LINES| ==> IsAscii(SCENARIO_LINES[i])
  {
    var lines := SCENARIO_LINES;
    assert IsAscii(lines[0]) && IsAscii(lines[1]) && IsAscii(lines[2]);
  }

  /** Reading the tap line during a trial records it and changes nothing else. */
  lemma ScenarioTapStep(s: SessionState, filename: string)
    requires s.capturing && s.outFilename == Some(filename)
    ensures ListenStep(s, "tap 1200\r\n")
      == s.(files := s.files[filename := Lines(s.files, filename) + ["tap 1200"]])
  {
    ScenarioTap();
  }

  /** Reading the completion line records it and ends the trial. */
  lemma ScenarioDoneStep(s: SessionState, filename: string)
    requires s.capturing && s.outFilename == Some(filename)
    ensures ListenStep(s, "Trial completed at 00:00:05\r\n")
      == s.(running := false, buttons := UpdateEnabled(true, false),
            files := s.files[filename := Lines(s.files, filename) + ["Trial completed at 00:00:05"]])
  {
    ScenarioCompletion();
  }

  /** The scenario's polls during a trial that records to `filename`: the tap is recorded,
      the silent read is skipped, and the completion line is recorded and ends the trial. */
  lemma ScenarioPolls(s: SessionState, filename: string)
    requires s.capturing && s.running && s.outFilename == Some(filename)
    ensures var r := ListenAll(s, SCENARIO_LINES);
      && r.wire == s.wire && r.capturing && !r.running && r.buttons == UpdateEnabled(true, false)
      && Lines(r.files, filename) == Lines(s.files, filename) + ["tap 1200", "Trial completed at 00:00:05"]
  {
    var lines := SCENARIO_LINES;
    assert lines[..1] == [lines[0]] && lines[..2][..1] == lines[..1] && lines[..3] == lines;
    assert ListenAll(s, []) == s;
    var s1 := ListenStep(s, lines[0]);
    ScenarioTapStep(s, filename);
    assert ListenAll(s, lines[..1]) == s1;
    assert ListenAll(s, lines[..2]) == s1;
    ScenarioDoneStep(s1, filename);
  }

  /** The first half of the session below, driven through the class: open a port and send
      the two play requests. */
  method StartScenario(filename: string) returns (session: Session)
    ensures fresh(session) && session.Valid()
    ensures session.wire == [66, 44, 45, 45, 45, 5, 0, 0, 0]
    ensures session.capturing && session.running && session.outFilename == Some(filename)
    ensures session.buttons == UpdateEnabled(true, true)
    ensures Lines(session.files, filename) == []
  {
    session := new Session(LittleEndian);
    var ok := session.OpenSerial("/dev/ttyACM0", true);
    ScenarioRefused(session.State(), filename);
    var refused := session.SendPlay("ab", "5", filename);
    ScenarioAccepted(session.State(), filename);
    var played := session.SendPlay("", "5", filename);
  }

  /** The whole session driven through the class: after the polls the trial is over, the
      port stays open, and the file holds the two lines read. */
  method EndToEnd() returns (wire: seq<byte>, capturing: bool, running: bool, buttons: Buttons,
                              recorded: seq<string>)
    ensures wire == [66, 44, 45, 45, 45, 5, 0, 0, 0]
    ensures capturing && !running && buttons.playEnabled && !buttons.abortEnabled
    ensures recorded == ["tap 1200", "Trial completed at 00:00:05"]
  {
    var filename := "data/subject/subject_20240101_000000.txt";
    var session := StartScenario(filename);
    ScenarioPolls(session.State(), filename);
    ScenarioLinesAscii();
    session.Poll(SCENARIO_LINES);
    wire, capturing, running, buttons := session.wire, session.capturing, session.running, session.buttons;
    recorded := Lines(session.files, filename);
  }
}
