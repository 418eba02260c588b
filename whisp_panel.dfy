/** The dictation panel: it opens and starts a recording, feeds audio
    timecodes to the paste capture, hands finished recordings to the
    transcription service, shows the recorder state, and copies the composed
    transcription to the clipboard. */
module WhispPanel {
  import opened Wrappers
  import opened Text
  import opened PasteSegments
  import opened Format
  import AudioRecorder
  import RecorderContainer

  // ---------------------------------------------------------------------
  // Clipboard serialisation

  const PasteOpenTag: string := "<pasted-text>\n"
  const PasteCloseTag: string := "\n</pasted-text>"
  const ElementSeparator: string := "\n\n"

  /** One element as it is copied: a paste is wrapped in `<pasted-text>`
      tags on lines of their own, spoken text is copied as it is. */
  function SerialiseSegment(segment: Segment): (s: string)
    ensures segment.Transcription? ==> s == segment.text
    ensures segment.Paste? ==> |s| == |PasteOpenTag| + |segment.text| + |PasteCloseTag|
                               && s[..|PasteOpenTag|] == PasteOpenTag
                               && s[|PasteOpenTag|..|s| - |PasteCloseTag|] == segment.text
                               && s[|s| - |PasteCloseTag|..] == PasteCloseTag
  {
    match segment
    case Transcription(text) => text
    case Paste(text, _) => PasteOpenTag + text + PasteCloseTag
  }

  /** The serialised elements, in order. */
  function SerialisedSegments(segments: seq<Segment>): (parts: seq<string>)
    ensures |parts| == |segments| && forall k :: 0 <= k < |segments| ==> parts[k] == SerialiseSegment(segments[k])
  {
    seq(|segments|, k requires 0 <= k < |segments| => SerialiseSegment(segments[k]))
  }

  /** The clipboard text for a composed transcription: the serialised
      elements separated by blank lines. Nothing copies as the empty string,
      and a single element as its own serialisation, with no separator. */
  function ClipboardText(segments: seq<Segment>): (copied: string)
    ensures segments == [] ==> copied == ""
    ensures |segments| == 1 ==> copied == SerialiseSegment(segments[0])
  {
    Join(SerialisedSegments(segments), ElementSeparator)
  }

  /** Copying a timeline is copying its two halves with one blank line
      between them: each element is serialised on its own, in order. */
  lemma ClipboardTextConcat(xs: seq<Segment>, ys: seq<Segment>)
    requires xs != [] && ys != []
    ensures ClipboardText(xs + ys) == ClipboardText(xs) + ElementSeparator + ClipboardText(ys)
  {
    assert SerialisedSegments(xs + ys) == SerialisedSegments(xs) + SerialisedSegments(ys);
    JoinConcat(SerialisedSegments(xs), SerialisedSegments(ys), ElementSeparator);
  }

  /** A transcription followed by a paste is copied as the spoken text, a
      blank line, and the tagged paste. */
  lemma ClipboardTextSpokenThenPaste(spoken: string, pasted: string, timecodeInSeconds: real)
    ensures ClipboardText([Transcription(spoken), Paste(pasted, timecodeInSeconds)])
         == spoken + "\n\n<pasted-text>\n" + pasted + "\n</pasted-text>"
  {
    var t, p := Transcription(spoken), Paste(pasted, timecodeInSeconds);
    ClipboardTextPair(t, p);
    TaggedAfterSpoken(spoken, pasted);
  }

  /** Helper: a two-element timeline is copied as the two elements around
      one blank line. */
  lemma ClipboardTextPair(first: Segment, second: Segment)
    ensures ClipboardText([first, second]) == SerialiseSegment(first) + ElementSeparator + SerialiseSegment(second)
  {
    var xs, ys := [first], [second];
    ClipboardTextConcat(xs, ys);
    assert xs + ys == [first, second];
  }

  /** Helper: the literal text of a spoken part followed by a tagged paste. */
  lemma TaggedAfterSpoken(spoken: string, pasted: string)
    ensures spoken + ElementSeparator + (PasteOpenTag + pasted + PasteCloseTag)
         == spoken + "\n\n<pasted-text>\n" + pasted + "\n</pasted-text>"
  {
    assert ElementSeparator + PasteOpenTag == "\n\n<pasted-text>\n";
  }

  // ---------------------------------------------------------------------
  // Recorder state label

  /** The state shown by the recorder strip: transcribing wins; otherwise a
      transcription with non-empty text counts as transcribed; otherwise the
      strip is recording. */
  function RecorderStateFor(isTranscribing: bool, transcription: Option<WhisperVerboseJson>): (state: RecorderContainer.RecorderState)
    ensures state == RecorderContainer.Transcribing <==> isTranscribing
    ensures state == RecorderContainer.Transcribed <==> !isTranscribing && transcription.Some? && transcription.value.text != ""
    ensures state == RecorderContainer.Recording <==> !isTranscribing && (transcription.None? || transcription.value.text == "")
  {
    if isTranscribing then RecorderContainer.Transcribing
    else if transcription.Some? && transcription.value.text != "" then RecorderContainer.Transcribed
    else RecorderContainer.Recording
  }

  /** Clicking the strip's icon stops the recorder only when nothing is being
      transcribed, no non-empty transcription is shown, and a recording runs. */
  lemma IconClickStopsOnlyWhileRecording(isTranscribing: bool, transcription: Option<WhisperVerboseJson>, isRecording: bool)
    ensures RecorderContainer.ClickStopsRecording(RecorderStateFor(isTranscribing, transcription), isRecording)
        <==> isRecording && !isTranscribing && (transcription.None? || transcription.value.text == "")
  {
  }

  // ---------------------------------------------------------------------
  // The panel controller

  class WhispPanelController {
    var isOpen: bool
    /** The copy shortcut was pressed before a transcription existed. */
    var pasteOnComplete: bool
    var transcription: Option<WhisperVerboseJson>
    var isTranscribing: bool
    /** Whether waveform samples are held (their contents are not modelled). */
    var hasAudioData: bool
    /** The latest relative timecode in milliseconds, as shown and as read by
        the paste capture. */
    var timecodeMs: Option<real>
    const recorder: AudioRecorder.AudioRecorderHook
    const pastes: PasteCapture

    /** Both hooks are consistent, and the paste capture is active exactly
        while the recorder reports that it is recording. */
    ghost predicate Valid()
      reads this, recorder, pastes
    {
      recorder.Valid() && pastes.Valid() && pastes.active == recorder.isRecording
    }

    constructor ()
      ensures Valid() && fresh(recorder) && fresh(pastes)
      ensures !isOpen && !pasteOnComplete && transcription == None && !isTranscribing
      ensures !hasAudioData && timecodeMs == None
      ensures !recorder.isRecording && pastes.segments == []
    {
      isOpen := false;
      pasteOnComplete := false;
      transcription := None;
      isTranscribing := false;
      hasAudioData := false;
      timecodeMs := None;
      recorder := new AudioRecorder.AudioRecorderHook();
      pastes := new PasteCapture();
    }

    /** The paste capture follows the recorder's flag: it is activated (and
        emptied) when recording begins and deactivated when it ends. */
    method SyncPasteCapture()
      requires recorder.Valid() && pastes.Valid()
      modifies pastes
      ensures Valid()
      ensures pastes.segments == if recorder.isRecording && !old(pastes.active) then [] else old(pastes.segments)
    {
      if recorder.isRecording {
        pastes.Activate();
      } else {
        pastes.Deactivate();
      }
    }

    /** `stopRecordingAndReset`: stops the recorder if it records, and clears
        the transcription, the audio data, the timecode and the
        paste-on-complete flag. */
    method StopRecordingAndReset()
      requires Valid()
      modifies this, recorder
      ensures Valid()
      ensures recorder.recorder != AudioRecorder.Recording
      ensures recorder.isRecording == old(recorder.isRecording) && recorder.chunks == old(recorder.chunks)
      ensures transcription == None && !isTranscribing && !hasAudioData
      ensures timecodeMs == None && !pasteOnComplete && isOpen == old(isOpen)
      ensures pastes.segments == old(pastes.segments)
    {
      var _ := recorder.StopRecording();
      transcription := None;
      isTranscribing := false;
      hasAudioData := false;
      timecodeMs := None;
      pasteOnComplete := false;
    }

    /** The panel is opened. The open effect runs only on a change: the
        timecode is cleared and a recording is started, which succeeds when
        the microphone is granted. */
    method Open(microphoneGranted: bool)
      requires Valid()
      modifies this, recorder, pastes
      ensures Valid() && isOpen
      ensures old(isOpen) ==> (timecodeMs == old(timecodeMs) && recorder.chunks == old(recorder.chunks)
                               && pastes.segments == old(pastes.segments))
      ensures !old(isOpen) ==> timecodeMs == None && recorder.chunks == []
      ensures !old(isOpen) && microphoneGranted ==> (recorder.isRecording && recorder.error == None
                                                     && (!old(recorder.isRecording) ==> pastes.segments == []))
      ensures !old(isOpen) && !microphoneGranted ==> recorder.error == Some(AudioRecorder.StartFailureMessage)
      ensures transcription == old(transcription) && pasteOnComplete == old(pasteOnComplete)
    {
      if !isOpen {
        isOpen := true;
        timecodeMs := None;
        recorder.StartRecording(microphoneGranted);
        SyncPasteCapture();
      }
    }

    /** The panel is closed. The close effect runs only on a change and
        resets everything through `StopRecordingAndReset`. */
    method Close()
      requires Valid()
      modifies this, recorder
      ensures Valid() && !isOpen
      ensures old(isOpen) ==> (transcription == None && !isTranscribing && !hasAudioData && timecodeMs == None
                               && !pasteOnComplete && recorder.recorder != AudioRecorder.Recording)
      ensures !old(isOpen) ==> (transcription == old(transcription) && isTranscribing == old(isTranscribing)
                                && timecodeMs == old(timecodeMs) && pasteOnComplete == old(pasteOnComplete))
      ensures pastes.segments == old(pastes.segments)
    {
      if isOpen {
        isOpen := false;
        StopRecordingAndReset();
      }
    }

    /** An audio chunk arrives. A non-empty one updates the audio data and
        the timecode to the relative timecode the recorder reports. */
    method AudioChunk(size: nat, deviceTimecode: real)
      requires Valid()
      modifies this, recorder
      ensures Valid()
      ensures size == 0 ==> timecodeMs == old(timecodeMs) && hasAudioData == old(hasAudioData)
      ensures size > 0 ==> (recorder.firstChunkTimecode.Some? && hasAudioData
                            && timecodeMs == Some(deviceTimecode - recorder.firstChunkTimecode.value))
      ensures size > 0 && old(recorder.firstChunkTimecode).None? ==> timecodeMs == Some(0.0)
      ensures transcription == old(transcription) && isOpen == old(isOpen)
      ensures pastes.segments == old(pastes.segments)
    {
      var relative := recorder.DataAvailable(size, deviceTimecode);
      if relative.Some? {
        hasAudioData := true;
        timecodeMs := relative;
      }
    }

    /** The recorder's stop event. The paste capture follows the recorder to
        inactive. When the panel is still open the recording is handed on
        for transcription, which begins; when it has been closed, the
        recording is dropped. */
    method RecordingStopped() returns (toTranscribe: Option<seq<AudioRecorder.Chunk>>)
      requires Valid()
      modifies this, recorder, pastes
      ensures Valid() && !recorder.isRecording && !pastes.active
      ensures recorder.recorder != AudioRecorder.Recording
      ensures pastes.segments == old(pastes.segments)
      ensures !old(isOpen) ==> (toTranscribe == None && transcription == old(transcription)
                                && isTranscribing == old(isTranscribing))
      ensures old(isOpen) ==> (toTranscribe == Some(old(recorder.chunks)) && transcription == None
                               && isTranscribing)
      ensures isOpen == old(isOpen) && timecodeMs == old(timecodeMs)
    {
      var recording := recorder.RecorderStopped();
      SyncPasteCapture();
      if isOpen {
        toTranscribe := Some(recording);
        transcription := None;
        isTranscribing := true;
      } else {
        toTranscribe := None;
      }
    }

    /** The transcription service answers: with a transcription, or with
        nothing on failure. Either way transcribing ends. */
    method TranscriptionFinished(answer: Option<WhisperVerboseJson>)
      requires Valid()
      modifies this
      ensures Valid() && !isTranscribing
      ensures transcription == if answer.Some? then answer else old(transcription)
      ensures isOpen == old(isOpen) && timecodeMs == old(timecodeMs) && pasteOnComplete == old(pasteOnComplete)
    {
      isTranscribing := false;
      if answer.Some? {
        transcription := answer;
      }
    }

    /** A paste on the page, stamped with the current timecode, or 0 before
        any audio chunk has arrived. */
    method Paste(clipboardText: Option<string>)
      requires Valid()
      modifies pastes
      ensures Valid()
      ensures pastes.segments
           == if recorder.isRecording && clipboardText.Some? && clipboardText.value != ""
              then old(pastes.segments) + [PasteSegment(timecodeMs.GetOr(0.0) / 1000.0, clipboardText.value)]
              else old(pastes.segments)
    {
      pastes.HandlePaste(timecodeMs.GetOr(0.0), clipboardText);
    }

    /** A paste badge is dismissed. */
    method RemovePaste(timecodeInSeconds: real, text: string)
      requires Valid()
      modifies pastes
      ensures Valid()
      ensures pastes.segments == RemoveMatching(old(pastes.segments), timecodeInSeconds, text)
    {
      pastes.RemovePasteSegment(timecodeInSeconds, text);
    }

    /** `transcribedText`: none without a transcription, else the
        transcription composed with the current pastes. */
    method TranscribedText() returns (composed: Option<seq<Segment>>)
      requires Valid()
      ensures composed.None? <==> transcription.None?
      ensures transcription.Some? && pastes.segments == [] ==> composed == Some([Transcription(transcription.value.text)])
      ensures transcription.Some? && pastes.segments != [] ==> composed == Some(Merge(transcription.value.segments, pastes.segments))
      ensures composed.Some? ==> PastesOf(composed.value) == pastes.segments
    {
      match transcription
      case None =>
        composed := None;
      case Some(t) =>
        var segments := FormatTranscriptionWithPasteSegments(t, pastes.segments);
        composed := Some(segments);
    }

    /** The copy action. Without a transcription it only flips the
        paste-on-complete flag and copies nothing. Otherwise it copies the
        serialised composed transcription and closes the panel. */
    method CopyToClipboard() returns (copied: Option<string>)
      requires Valid()
      modifies this, recorder
      ensures Valid()
      ensures old(transcription).None? ==> (copied == None && pasteOnComplete == !old(pasteOnComplete)
                                            && isOpen == old(isOpen) && transcription == None)
      ensures old(transcription).Some? && old(pastes.segments) == [] ==> copied == Some(old(transcription).value.text)
      ensures old(transcription).Some? && old(pastes.segments) != [] ==>
                copied == Some(ClipboardText(Merge(old(transcription).value.segments, old(pastes.segments))))
      ensures old(transcription).Some? ==> !isOpen && (old(isOpen) ==> transcription == None && !pasteOnComplete)
      ensures pastes.segments == old(pastes.segments)
    {
      var composed := TranscribedText();
      match composed
      case None =>
        pasteOnComplete := !pasteOnComplete;
        copied := None;
      case Some(segments) =>
        copied := Some(ClipboardText(segments));
        Close();
    }
  }
}
