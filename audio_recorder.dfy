/** The audio-recorder hook: the session's chunk list, its zero reference
    for timecodes, and the recording flags. The media recorder, the audio
    context and the microphone are outside the model: their callbacks are the
    event methods below, taken one at a time. */
module AudioRecorder {
  import opened Wrappers

  /** A chunk of encoded audio as the recorder delivers it: its size in
      bytes and the device timecode, in milliseconds, it carries. */
  datatype Chunk = Chunk(size: nat, timecode: real)

  /** The recorder object held by the hook, and its state. */
  datatype MediaRecorderState = NoRecorder | Recording | Inactive

  /** The message shown when the microphone could not be opened. */
  const StartFailureMessage: string := "Failed to start recording. Please check microphone permissions."

  class AudioRecorderHook {
    var isRecording: bool
    var error: Option<string>
    var recordingTime: real
    var chunks: seq<Chunk>
    var firstChunkTimecode: Option<real>
    var recorder: MediaRecorderState

    /** The device timecodes of the non-empty chunks since the zero
        reference was taken, and the relative timecodes reported for them. */
    ghost var deviceTimecodes: seq<real>
    ghost var reported: seq<real>

    /** The zero reference is the device timecode of the first non-empty
        chunk since it was last cleared, and each report is a device timecode
        minus that reference. */
    ghost predicate Valid()
      reads this
    {
      && |reported| == |deviceTimecodes|
      && (firstChunkTimecode.None? ==> deviceTimecodes == [])
      && (firstChunkTimecode.Some? ==>
            && |deviceTimecodes| > 0
            && deviceTimecodes[0] == firstChunkTimecode.value
            && forall k :: 0 <= k < |reported| ==> reported[k] == deviceTimecodes[k] - firstChunkTimecode.value)
    }

    constructor ()
      ensures Valid()
      ensures !isRecording && error == None && recordingTime == 0.0
      ensures chunks == [] && firstChunkTimecode == None && recorder == NoRecorder
      ensures deviceTimecodes == [] && reported == []
    {
      isRecording := false;
      error := None;
      recordingTime := 0.0;
      chunks := [];
      firstChunkTimecode := None;
      recorder := NoRecorder;
      deviceTimecodes := [];
      reported := [];
    }

    /** `startRecording`. The chunk list and the error are cleared first;
        `microphoneGranted` is the outcome of asking for the microphone. On
        success a recorder starts and `isRecording` becomes true; on failure
        the error message is set and nothing else changes. */
    method StartRecording(microphoneGranted: bool)
      requires Valid()
      modifies this
      ensures Valid()
      ensures chunks == []
      ensures firstChunkTimecode == old(firstChunkTimecode) && recordingTime == old(recordingTime)
      ensures deviceTimecodes == old(deviceTimecodes) && reported == old(reported)
      ensures microphoneGranted ==> isRecording && recorder == Recording && error == None
      ensures !microphoneGranted ==> (isRecording == old(isRecording) && recorder == old(recorder)
                                      && error == Some(StartFailureMessage))
    {
      chunks := [];
      error := None;
      if microphoneGranted {
        recorder := Recording;
        isRecording := true;
      } else {
        error := Some(StartFailureMessage);
      }
    }

    /** The recorder's data callback. An empty chunk is ignored. Otherwise
        the chunk is kept, its timecode becomes the zero reference if there
        is none yet, and the timecode relative to that reference is reported
        and becomes the recording time. */
    method DataAvailable(size: nat, timecode: real) returns (relativeTimecode: Option<real>)
      requires Valid()
      modifies this
      ensures Valid()
      ensures isRecording == old(isRecording) && error == old(error) && recorder == old(recorder)
      ensures size == 0 ==> (relativeTimecode == None && chunks == old(chunks)
                             && firstChunkTimecode == old(firstChunkTimecode) && recordingTime == old(recordingTime))
      ensures size > 0 ==> chunks == old(chunks) + [Chunk(size, timecode)]
      ensures size > 0 && old(firstChunkTimecode).Some? ==> firstChunkTimecode == old(firstChunkTimecode)
      ensures size > 0 && old(firstChunkTimecode).None? ==> firstChunkTimecode == Some(timecode)
      ensures size > 0 ==> (firstChunkTimecode.Some?
                            && relativeTimecode == Some(timecode - firstChunkTimecode.value)
                            && recordingTime == timecode - firstChunkTimecode.value)
      ensures size > 0 && old(firstChunkTimecode).None? ==> relativeTimecode == Some(0.0)
      ensures size == 0 ==> deviceTimecodes == old(deviceTimecodes) && reported == old(reported)
      ensures size > 0 ==> (deviceTimecodes == old(deviceTimecodes) + [timecode]
                            && reported == old(reported) + [relativeTimecode.value])
    {
      relativeTimecode := None;
      if size > 0 {
        chunks := chunks + [Chunk(size, timecode)];
        if firstChunkTimecode.None? {
          firstChunkTimecode := Some(timecode);
        }
        var relative := timecode - firstChunkTimecode.value;
        recordingTime := relative;
        relativeTimecode := Some(relative);
        deviceTimecodes := deviceTimecodes + [timecode];
        reported := reported + [relative];
      }
    }

    /** The recorder's stop callback, which fires once the recorder has
        become inactive: the whole chunk list becomes the recording handed to
        the completion callback, the zero reference and the report history
        are cleared, and the recording time and flag are reset. */
    method RecorderStopped() returns (recording: seq<Chunk>)
      requires Valid()
      modifies this
      ensures Valid()
      ensures recording == old(chunks) && chunks == old(chunks)
      ensures firstChunkTimecode == None && recordingTime == 0.0 && !isRecording
      ensures deviceTimecodes == [] && reported == []
      ensures error == old(error)
      ensures recorder == if old(recorder) == NoRecorder then NoRecorder else Inactive
    {
      if recorder != NoRecorder {
        recorder := Inactive;
      }
      recording := chunks;
      firstChunkTimecode := None;
      recordingTime := 0.0;
      isRecording := false;
      deviceTimecodes := [];
      reported := [];
    }

    /** `stopRecording`: acts only on a recorder that is recording, which it
        stops (its stop callback follows as a separate event). Otherwise it
        does nothing, so calling it twice is harmless. */
    method StopRecording() returns (stopped: bool)
      requires Valid()
      modifies this
      ensures Valid()
      ensures stopped == (old(recorder) == Recording)
      ensures recorder == if stopped then Inactive else old(recorder)
      ensures isRecording == old(isRecording) && error == old(error) && chunks == old(chunks)
      ensures firstChunkTimecode == old(firstChunkTimecode) && recordingTime == old(recordingTime)
      ensures deviceTimecodes == old(deviceTimecodes) && reported == old(reported)
    {
      stopped := recorder == Recording;
      if stopped {
        recorder := Inactive;
      }
    }
  }

  /** Every relative timecode is measured from the first chunk: the first
      report is 0, and when the device timecodes never decrease, neither do
      the reports. */
  lemma ReportedTimecodesFollowDevice(hook: AudioRecorderHook)
    requires hook.Valid()
    ensures |hook.reported| > 0 ==> hook.reported[0] == 0.0
    ensures (forall a, b :: 0 <= a < b < |hook.deviceTimecodes| ==> hook.deviceTimecodes[a] <= hook.deviceTimecodes[b])
            ==> (forall a, b :: 0 <= a < b < |hook.reported| ==> hook.reported[a] <= hook.reported[b])
  {
  }
}
