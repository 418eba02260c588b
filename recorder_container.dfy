/** The recorder strip of the panel: the elapsed-time label built from the
    session timecode in milliseconds, and the icon with its click rule. */
module RecorderContainer {
  import opened Wrappers
  import opened Numbers
  import opened Text

  /** The state the panel passes down. */
  datatype RecorderState = Recording | Transcribing | Transcribed

  datatype Icon = Spinner | Check | Microphone

  /** JavaScript truthiness of a `number | null` timecode: null and 0 are falsy. */
  predicate IsSet(timecodeMs: Option<real>) {
    timecodeMs.Some? && timecodeMs.value != 0.0
  }

  /** Whole minutes shown: `Math.floor(timecode / 60 / 1000)`, 0 when unset. */
  function DisplayMinutes(timecodeMs: Option<real>): int {
    if IsSet(timecodeMs) then Floor(timecodeMs.value / 60.0 / 1000.0) else 0
  }

  /** Seconds shown: `Math.floor((timecode % 60000) / 1000)`, 0 when unset. */
  function DisplaySeconds(timecodeMs: Option<real>): int {
    if IsSet(timecodeMs) then Floor(JsRem(timecodeMs.value, 60000.0) / 1000.0) else 0
  }

  /** The label `minutes:seconds`, the seconds padded with '0' to two
      characters. With no timecode yet, or a zero one, it reads `0:00`. */
  function ElapsedLabel(timecodeMs: Option<real>): (shown: string)
    ensures !IsSet(timecodeMs) ==> shown == "0:00"
  {
    IntToString(DisplayMinutes(timecodeMs)) + ":" + PadStart(IntToString(DisplaySeconds(timecodeMs)), 2, '0')
  }

  /** For a non-negative timecode the seconds are in 0..59 (never 60, since
      they are floored and not rounded), the minutes are the whole minutes,
      minutes and seconds together are the whole seconds elapsed, and the
      label is `M:SS`. */
  lemma ElapsedFields(timecodeMs: real)
    requires timecodeMs >= 0.0
    ensures var minutes := DisplayMinutes(Some(timecodeMs));
            var seconds := DisplaySeconds(Some(timecodeMs));
            && minutes == Floor(timecodeMs / 60000.0)
            && 0 <= minutes && 0 <= seconds <= 59
            && minutes * 60 + seconds == Floor(timecodeMs / 1000.0)
            && ElapsedLabel(Some(timecodeMs)) == NatToString(minutes) + ":" + (if seconds < 10 then "0" else "") + NatToString(seconds)
  {
    ElapsedArithmetic(timecodeMs);
    var minutes, seconds := DisplayMinutes(Some(timecodeMs)), DisplaySeconds(Some(timecodeMs));
    assert ElapsedLabel(Some(timecodeMs)) == IntToString(minutes) + ":" + PadStart(IntToString(seconds), 2, '0');
    LabelText(minutes, seconds);
  }

  /** Helper: the label of whole minutes and seconds below a minute. */
  lemma LabelText(minutes: int, seconds: int)
    requires 0 <= minutes && 0 <= seconds <= 59
    ensures IntToString(minutes) + ":" + PadStart(IntToString(seconds), 2, '0')
         == NatToString(minutes) + ":" + (if seconds < 10 then "0" else "") + NatToString(seconds)
  {
    PaddedSeconds(seconds);
  }

  /** Helper: the minutes and seconds shown, without the label. */
  lemma ElapsedArithmetic(timecodeMs: real)
    requires timecodeMs >= 0.0
    ensures var minutes := DisplayMinutes(Some(timecodeMs));
            var seconds := DisplaySeconds(Some(timecodeMs));
            && minutes == Floor(timecodeMs / 60000.0)
            && 0 <= minutes && 0 <= seconds <= 59
            && minutes * 60 + seconds == Floor(timecodeMs / 1000.0)
  {
    var minutes := Floor(timecodeMs / 60000.0);
    assert timecodeMs / 60.0 / 1000.0 == timecodeMs / 60000.0;
    RemOfNonNegative(timecodeMs, 60000.0);
    var rem := JsRem(timecodeMs, 60000.0);
    assert timecodeMs / 1000.0 == rem / 1000.0 + (minutes * 60) as real;
    FloorShift(rem / 1000.0, minutes * 60);
    var seconds := Floor(rem / 1000.0);
    if timecodeMs == 0.0 {
      assert minutes == 0 && seconds == 0;
    }
  }

  /** Helper: seconds below a minute are padded to two digits. */
  lemma PaddedSeconds(seconds: int)
    requires 0 <= seconds <= 59
    ensures PadStart(IntToString(seconds), 2, '0') == (if seconds < 10 then "0" else "") + NatToString(seconds)
  {
    var digits := NatToString(seconds);
    NatToStringLength(seconds);
    assert IntToString(seconds) == digits;
    if seconds < 10 {
      assert PadStart(digits, 2, '0') == Repeat('0', 1) + digits;
      assert Repeat('0', 1) == "0";
    } else {
      assert PadStart(digits, 2, '0') == digits;
    }
  }

  /** Flooring commutes with adding a whole number. */
  lemma FloorShift(x: real, n: int)
    ensures Floor(x + n as real) == Floor(x) + n
  {
  }

  /** 61 seconds reads `1:01`; 59.999 seconds reads `0:59`, where the
      timecode label of the formatted transcription would round up to `0:60`. */
  lemma ElapsedLabelExamples()
    ensures ElapsedLabel(Some(61000.0)) == "1:01"
    ensures ElapsedLabel(Some(59999.0)) == "0:59"
  {
    ElapsedFields(61000.0);
    ElapsedFields(59999.0);
    assert Floor(61000.0 / 1000.0) == 61;
    assert Floor(59999.0 / 1000.0) == 59;
  }

  /** The icon: a spinner while transcribing, a check once transcribed, the
      microphone otherwise. */
  function IconFor(state: RecorderState): (icon: Icon)
    ensures icon == Spinner <==> state == Transcribing
    ensures icon == Check <==> state == Transcribed
    ensures icon == Microphone <==> state == Recording
  {
    match state
    case Transcribing => Spinner
    case Transcribed => Check
    case Recording => Microphone
  }

  /** A click on the icon stops the recorder exactly when the microphone is
      shown (the only icon with a click handler) and a recording is running. */
  function ClickStopsRecording(state: RecorderState, isRecording: bool): (stops: bool)
    ensures stops <==> state == Recording && isRecording
  {
    IconFor(state) == Microphone && isRecording
  }
}
