/** The command protocol between the control panel and the microcontroller, and
    the validation of a play request before anything is sent (send_play_config
    and check_and_convert_int in gui.py). */
module Protocol {
  import opened Wrappers
  import opened Text
  import opened Int32

  /** Command bytes; they must match the microcontroller's own constants. */
  const MESSAGE_PLAY_STIMULUS: byte := 44
  const MESSAGE_RECORD_TAPS: byte := 55
  const MESSAGE_STOP: byte := 66

  /** The stimulus code sent for "play nothing". */
  const NO_STIMULUS: string := "---"

  /** One trial as sent to the microcontroller: a stimulus code and a duration in seconds. */
  datatype TrialConfig = TrialConfig(stimulus: string, duration: nat)

  /** A trial whose stimulus code can be put on the wire: three ASCII characters. */
  predicate WellFormed(t: TrialConfig) {
    |t.stimulus| == 3 && IsAscii(t.stimulus)
  }

  /** Why a play request was refused (the two error messages of send_play_config). */
  datatype TrialError = BadStimulus | BadDuration

  /** The stimulus field stripped and upper-cased, with empty meaning NO_STIMULUS. */
  function NormaliseStimulus(text: string): string {
    var s := Upper(Strip(text));
    if s == [] then NO_STIMULUS else s
  }

  lemma NormaliseStimulusRule(text: string)
    ensures var r := NormaliseStimulus(text);
      && r != []
      && (Strip(text) == [] ==> r == NO_STIMULUS)
      && (Strip(text) != [] ==> |r| == |Strip(text)| && forall i :: 0 <= i < |r| ==> !IsLower(r[i]))
      && (Strip(text) != [] ==> forall i :: 0 <= i < |r| ==> r[i] == UpperChar(Strip(text)[i]))
      && (IsAscii(text) ==> IsAscii(r))
  {
    UpperProperties(Strip(text));
    StripShape(text);
    if IsAscii(text) {
      StripAscii(text);
    }
  }

  /** The stimulus field is acceptable: after normalising it has exactly three characters. */
  predicate ValidStimulus(text: string) {
    |NormaliseStimulus(text)| == 3
  }

  /** The duration field is acceptable: stripped, it is one or more decimal digits. */
  predicate ValidDuration(text: string) {
    IsDigits(Strip(text))
  }

  /** The number of seconds a duration field denotes, or None if it is not digits. */
  function ParseDuration(text: string): (r: Option<nat>)
    ensures r.Some? <==> ValidDuration(text)
  {
    var d := Strip(text);
    if IsDigits(d) then Some(DigitsValue(d)) else None
  }

  /** The checks of send_play_config, in its order: the stimulus first, then the duration. */
  function ParseTrial(stimulusText: string, durationText: string): (r: Result<TrialConfig, TrialError>)
    ensures r.Success? <==> ValidStimulus(stimulusText) && ValidDuration(durationText)
    ensures r == Failure(BadStimulus) <==> !ValidStimulus(stimulusText)
    ensures r.Success? ==> (r.value.stimulus == NormaliseStimulus(stimulusText)
                            && Some(r.value.duration) == ParseDuration(durationText))
  {
    var stimulus := NormaliseStimulus(stimulusText);
    if |stimulus| != 3 then Failure(BadStimulus)
    else match ParseDuration(durationText)
      case None => Failure(BadDuration)
      case Some(d) => Success(TrialConfig(stimulus, d))
  }

  lemma ParseTrialWellFormed(stimulusText: string, durationText: string)
    requires IsAscii(stimulusText)
    ensures ParseTrial(stimulusText, durationText).Success? ==> WellFormed(ParseTrial(stimulusText, durationText).value)
  {
    NormaliseStimulusRule(stimulusText);
  }

  /** check_and_convert_int: the integer a dictionary entry holds, or None when the key
      is missing or the stripped value is not all digits. */
  function CheckAndConvertInt(key: string, data: map<string, string>): (r: Option<nat>)
    ensures r.Some? <==> key in data && IsDigits(Strip(data[key]))
    ensures r == if key in data then ParseDuration(data[key]) else None
  {
    if key !in data then None
    else
      var val := Strip(data[key]);
      if !IsDigits(val) then None else Some(DigitsValue(val))
  }

  /** The ASCII encoding of a text, one byte per character (bytes(s, 'ascii')). */
  function AsciiBytes(s: string): (r: seq<byte>)
    requires IsAscii(s)
    ensures |r| == |s|
    ensures forall i :: 0 <= i < |s| ==> r[i] as int == s[i] as int && r[i] < 128
  {
    if s == [] then [] else [s[0] as int as byte] + AsciiBytes(s[1..])
  }

  predicate AllAscii(b: seq<byte>) {
    forall i :: 0 <= i < |b| ==> b[i] < 128
  }

  /** The text of ASCII bytes (bytes.decode('ascii')). */
  function AsciiText(b: seq<byte>): (s: string)
    requires AllAscii(b)
    ensures |s| == |b| && IsAscii(s)
    ensures forall i :: 0 <= i < |b| ==> s[i] as int == b[i] as int
  {
    if b == [] then [] else [b[0] as int as char] + AsciiText(b[1..])
  }

  lemma AsciiRoundTrip(s: string)
    requires IsAscii(s)
    ensures AllAscii(AsciiBytes(s)) && AsciiText(AsciiBytes(s)) == s
  {
    var t := AsciiText(AsciiBytes(s));
    assert forall i :: 0 <= i < |s| ==> t[i] == s[i];
  }

  lemma AsciiRoundTripBytes(b: seq<byte>)
    requires AllAscii(b)
    ensures AsciiBytes(AsciiText(b)) == b
  {
    var c := AsciiBytes(AsciiText(b));
    assert forall i :: 0 <= i < |b| ==> c[i] == b[i];
  }

  /** The bytes written before the duration: STOP, PLAY_STIMULUS and the stimulus code. */
  function FramePrefix(stimulus: string): (r: seq<byte>)
    requires IsAscii(stimulus)
  {
    [MESSAGE_STOP, MESSAGE_PLAY_STIMULUS] + AsciiBytes(stimulus)
  }

  /** The whole play command for a trial, or None when struct.pack refuses the duration. */
  function EncodeFrame(t: TrialConfig, order: ByteOrder): (r: Option<seq<byte>>)
    requires WellFormed(t)
    ensures r.Some? <==> t.duration < TWO_31
    ensures r.Some? ==> (|r.value| == 9 && r.value[..5] == FramePrefix(t.stimulus)
                         && r.value[0] == MESSAGE_STOP && r.value[1] == MESSAGE_PLAY_STIMULUS
                         && r.value[2..5] == AsciiBytes(t.stimulus)
                         && Unpack(r.value[5..], order) == t.duration)
  {
    match Pack(t.duration, order)
    case None => None
    case Some(n) =>
      UnpackPack(t.duration, order);
      var f := FramePrefix(t.stimulus) + n;
      assert f[5..] == n;
      Some(f)
  }

  /** How a receiver reads a play command back: the inverse of EncodeFrame. */
  function DecodeFrame(b: seq<byte>, order: ByteOrder): (r: Option<TrialConfig>)
    ensures r.Some? ==> WellFormed(r.value)
  {
    if |b| == 9 && b[0] == MESSAGE_STOP && b[1] == MESSAGE_PLAY_STIMULUS
       && AllAscii(b[2..5]) && Unpack(b[5..], order) >= 0
    then Some(TrialConfig(AsciiText(b[2..5]), Unpack(b[5..], order)))
    else None
  }

  /** A frame that was sent decodes to the trial it was made from. */
  lemma DecodeEncode(t: TrialConfig, order: ByteOrder)
    requires WellFormed(t) && t.duration < TWO_31
    ensures EncodeFrame(t, order).Some?
    ensures DecodeFrame(EncodeFrame(t, order).value, order) == Some(t)
  {
    var f := EncodeFrame(t, order).value;
    AsciiRoundTrip(t.stimulus);
    assert f[2..5] == AsciiBytes(t.stimulus);
  }

  /** Every byte string that decodes is exactly the frame of the decoded trial. */
  lemma EncodeDecode(b: seq<byte>, order: ByteOrder)
    requires DecodeFrame(b, order).Some?
    ensures EncodeFrame(DecodeFrame(b, order).value, order) == Some(b)
  {
    var t := DecodeFrame(b, order).value;
    AsciiRoundTripBytes(b[2..5]);
    PackUnpack(b[5..], order);
    assert b == [b[0], b[1]] + b[2..5] + b[5..];
  }

  /** Stimulus rule: accepted exactly when the stripped text is empty or three characters
      long; the code sent is then ASCII and has no lower-case letter. */
  lemma StimulusRule(text: string)
    ensures ValidStimulus(text) <==> (|Strip(text)| == 0 || |Strip(text)| == 3)
    ensures ValidStimulus(text) && IsAscii(text) ==>
              WellFormed(TrialConfig(NormaliseStimulus(text), 0))
    ensures forall i :: 0 <= i < |NormaliseStimulus(text)| ==> !IsLower(NormaliseStimulus(text)[i])
  {
    NormaliseStimulusRule(text);
  }

  /** The value of a duration field, stated without int(): the field denotes n exactly
      when, stripped, it is zeros followed by the decimal rendering of n. */
  lemma DurationValue(text: string, n: nat)
    ensures ParseDuration(text) == Some(n) <==> ZerosThen(Strip(text), ShowDecimal(n))
  {
    var d := Strip(text);
    if ParseDuration(text) == Some(n) {
      DigitsCanonical(d);
    }
    if ZerosThen(d, ShowDecimal(n)) {
      var k := |d| - |ShowDecimal(n)|;
      assert d == d[..k] + ShowDecimal(n);
      ZerosPrefix(d[..k], ShowDecimal(n));
      DigitsRoundTrip(n);
    }
  }

  /** The checks of send_play_config in terms of the stripped fields: the stimulus must
      be empty or three characters, it is checked first, and an accepted request carries
      the upper-cased code (or NO_STIMULUS) and the number the duration field spells. */
  lemma ParseTrialRule(stimulusText: string, durationText: string)
    ensures var r := ParseTrial(stimulusText, durationText);
      var st, dt := Strip(stimulusText), Strip(durationText);
      && (r == Failure(BadStimulus) <==> |st| != 0 && |st| != 3)
      && (r == Failure(BadDuration) <==> (|st| == 0 || |st| == 3) && !IsDigits(dt))
      && (r.Success? <==> (|st| == 0 || |st| == 3) && IsDigits(dt))
      && (r.Success? && st == [] ==> r.value.stimulus == NO_STIMULUS)
      && (r.Success? && st != [] ==>
            |r.value.stimulus| == 3 && forall i :: 0 <= i < 3 ==> r.value.stimulus[i] == UpperChar(st[i]))
      && (r.Success? ==> ZerosThen(dt, ShowDecimal(r.value.duration)))
  {
    StimulusRule(stimulusText);
    var r := ParseTrial(stimulusText, durationText);
    if r.Success? {
      DurationValue(durationText, r.value.duration);
    }
  }

  /** Duration rule: any whitespace around the decimal rendering of n is accepted and
      denotes n. */
  lemma DurationRule(pre: string, n: nat, post: string)
    requires AllSpace(pre) && AllSpace(post)
    ensures ParseDuration(pre + ShowDecimal(n) + post) == Some(n)
  {
    var d := ShowDecimal(n);
    assert Trimmed(d) by {
      assert !IsSpace(d[0]) && !IsSpace(d[|d| - 1]);
    }
    StripUnique(pre, d, post);
    DigitsRoundTrip(n);
  }

  /** A duration of at most nine digits always fits the 32-bit integer on the wire. */
  lemma ShortDurationsFit(text: string)
    requires ValidDuration(text) && |Strip(text)| <= 9
    ensures ParseDuration(text).value < TWO_31
  {
    DigitsValueBound(Strip(text));
    assert Pow10(9) == 1_000_000_000;
    assert Pow10(|Strip(text)|) <= Pow10(9) by {
      PowMonotone(|Strip(text)|, 9);
    }
  }

  lemma {:induction false} PowMonotone(m: nat, n: nat)
    requires m <= n
    ensures Pow10(m) <= Pow10(n)
  {
    if m < n {
      PowMonotone(m, n - 1);
    }
  }

  /** check_and_convert_int reads back any number stored in decimal under the key. */
  lemma CheckAndConvertIntRoundTrip(key: string, data: map<string, string>, n: nat)
    ensures CheckAndConvertInt(key, data[key := ShowDecimal(n)]) == Some(n)
  {
    var m := data[key := ShowDecimal(n)];
    assert m[key] == [] + ShowDecimal(n) + [];
    DurationRule([], n, []);
  }
}
