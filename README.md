# whisp — a verified model of the dictation panel's core

whisp is a browser extension for dictation. A panel opens on the page and
starts recording from the microphone. While it records, it remembers every
text pasted into the page, stamped with the recording time. When the recording
stops, the audio goes to a Whisper-style transcription service. The panel then
interleaves the spoken segments and the pasted texts by time. It copies the
result to the clipboard, each paste wrapped in `<pasted-text>` tags. The
extension also parses SubRip (`.srt`) subtitle files.

This project models that core in Dafny and proves properties of the model:

- `wrappers.dfy`: `Option` and `Result`.
- `numbers.dfy`: JavaScript number operations on `real`.
  - `Math.floor`, and truncation toward zero.
  - The `%` operator, whose remainder takes the sign of the dividend.
  - `Math.round`, which rounds halves upward.
- `text.dfy`: string operations with JavaScript's semantics.
  - `split` and `join`, and the round trip between them.
  - Number-to-string conversion, `padStart`, and `trim`.
- `paste_segments.dfy`: the paste-capture hook, as the class `PasteCapture`.
  - The list of pastes, reset when capture becomes active.
  - Appending a paste, and removing a paste badge.
- `audio_recorder.dfy`: the audio-recorder hook, as the class `AudioRecorderHook`.
  - The chunk list and the zero reference taken from the first chunk's timecode.
  - The relative timecodes it reports.
  - The start, data, stop and stopped events.
- `format.dfy`: the merge of the transcription with the pastes.
  - The timecode label and the paste label.
  - A functional specification of the merge (`Interleave`, then `Coalesce`).
  - The imperative merge, proved equal to that specification.
- `recorder_container.dfy`: the recorder strip.
  - The elapsed-time label.
  - Which icon shows, and when a click stops the recording.
- `whisp_panel.dfy`: the panel, as the class `WhispPanelController`.
  - The open/close effect and the audio and recording callbacks.
  - The paste and remove events.
  - The composed transcription, and the copy-to-clipboard action with its serialisation.
  - The state passed to the recorder strip.
- `subtitle.dfy`: the SubRip parser.
  - Timecodes, as a recogniser of the two-digit / three-digit pattern.
  - Blocks, and whole files.
  - A renderer, proved to be a right inverse of the parser on well-formed input.

Conventions of the model:

- JavaScript numbers are `real`. The integers a label shows are `int`.
- A thrown error is the `Err` case of a `Result`.
- A regular expression is a predicate recognising exactly the strings it
  matches, plus slices for its capture groups.
- React state updates and effects are modelled as one method per event.
  Each method performs its effect's updates in one step.
- The panel holds the timecode state and the timecode ref in one field.
  Both are always assigned the same value.
- A JavaScript string's `length` and `slice` count UTF-16 code units. The
  paste label is therefore computed on the UTF-16 encoding of the first word
  (`Text.Utf16`). Splitting on a space is done on characters, which gives the
  same pieces, because a surrogate is never a space.

## Model

| member | source | states |
|---|---|---|
| Format.FormatTimecode | apps/extension/lib/format.ts:4-8 | for a non-negative time the label has at least four characters, and the third from the end is the colon before the two seconds digits |
| Format.FormatTimecodeFields | apps/extension/lib/format.ts:4-8 | for a non-negative time the label is `M:SS` where M is the floored minutes and SS the rounded remainder, padded to two digits; SS lies in 0..60 and M * 60 + SS is the time rounded to whole seconds |
| Format.FormatTimecodeExamples | apps/extension/lib/format.ts:4-8 | 20 s reads `0:20`, 80 s reads `1:20`, 29.6 s reads `0:30`, and 59.6 s reads `0:60` because the remainder is rounded after the minutes are floored |
| Format.FormatTimecodeNormalisedFields | apps/extension/lib/format.ts:4-8 | the corrected label (see Findings) rounds to whole seconds first: its seconds stay in 0..59, M * 60 + SS is the rounded time, and it agrees with the source's label whenever that label's seconds are below 60 |
| Format.FormatTimecodeNormalisedExample | apps/extension/lib/format.ts:4-8 | 59.6 s reads `1:00` under the corrected label |
| Format.FormatPasteSegment | apps/extension/lib/format.ts:10-25 | a label that is produced is never empty and at most 13 UTF-16 code units long |
| Format.FormatPasteSegmentOutcomes | apps/extension/lib/format.ts:10-25 | the label is an error exactly when the text is empty or starts with a space. Otherwise, with the first word in UTF-16: a word longer than 10 units is cut to 10 units plus `...`; a text with no space is its own label; any other word gets `...` after it |
| Format.WordLengthSpec | apps/extension/lib/format.ts:11 | the first word is the longest prefix without a space: its length is at most the text's, and the character after it, if any, is a space |
| Format.FirstWordIsWord | apps/extension/lib/format.ts:11 | the first piece of splitting on a space is exactly the text up to its first space |
| Format.StoredPasteCanFailToFormat | apps/extension/lib/format.ts:11-14 | a paste the capture hook accepts (non-empty text `" hi"`) still makes the label throw, since its first word is empty |
| Format.FormatPasteSegmentSingleWord | apps/extension/lib/format.ts:20-22 | any non-empty text without a space whose UTF-16 form is at most 10 units is its own label |
| Format.FormatPasteSegmentEmoji | apps/extension/lib/format.ts:16-17 | six emoji are twelve units, so the label keeps five of them and adds `...` |
| Format.FormatPasteSegmentSplitsSurrogatePair | apps/extension/lib/format.ts:16-17 | nine letters and an emoji are eleven units; the cut at ten keeps only the emoji's high surrogate before the `...` |
| Format.InterleaveKeepsSpokenTexts | apps/extension/lib/format.ts:47-104 | the interleaving emits every spoken segment's text once, in order |
| Format.InterleaveKeepsPastes | apps/extension/lib/format.ts:47-104 | the interleaving emits every paste once, in order |
| Format.Interleave | apps/extension/lib/format.ts:47-104 | the three merge loops together take exactly one step per remaining segment and paste |
| Format.InterleaveIndices | apps/extension/lib/format.ts:47-78 | every emitted step names a segment or paste not yet consumed and carries that segment's text or that paste itself |
| Format.InterleaveOrder | apps/extension/lib/format.ts:54-56 | with sorted inputs, a spoken segment comes before a paste exactly when its start is strictly less than the floored paste timecode, so a tie goes to the paste |
| Format.Coalesce | apps/extension/lib/format.ts:57-68 | the composed list never has more elements than there were steps, since a spoken text may join the element before it |
| Format.CoalesceKeepsPastes | apps/extension/lib/format.ts:57-76 | coalescing keeps the pastes and their order unchanged |
| Format.CoalesceKeepsSpokenTexts | apps/extension/lib/format.ts:57-68 | coalescing loses no spoken text: joining the transcription entries with a space gives the same string as joining the spoken texts |
| Format.Merge | apps/extension/lib/format.ts:38-107 | the merged list never has two adjacent transcription entries; its pastes are exactly the input pastes in order; its transcription text, joined with spaces, equals the segments' texts joined with spaces |
| Format.MergeTranscriptionAndPasteSegments | apps/extension/lib/format.ts:38-107 | the three loops compute exactly the specified merge, and so keep its three properties |
| Format.FormatTranscriptionWithPasteSegments | apps/extension/lib/format.ts:109-123 | with no pastes the result is the full transcription text as one entry; otherwise it is the merge; either way the pastes are kept and no two transcription entries are adjacent |
| Format.MergeTieGoesToPaste | apps/extension/lib/format.ts:54-56 | when a paste's floored time equals a segment's start, the paste comes first |
| Format.MergeEarlierPasteFirst | apps/extension/lib/format.ts:54-76 | for any segment and paste whose floored time is at or before the segment's start, the merge is the paste, then the spoken text |
| Format.MergeCoalescesBeforePaste | apps/extension/lib/format.ts:57-68 | any two segments starting before a paste's floored time become one transcription entry, their texts joined by a space, followed by the paste |
| PasteSegments.RemoveMatching | apps/extension/hooks/use-paste-segments.ts:61-69 | the result is no longer than the input, and an entry is in it exactly when it is in the input and does not match both the timecode and the text |
| PasteSegments.RemoveMatchingConcat | apps/extension/hooks/use-paste-segments.ts:62-68 | the filter distributes over concatenation |
| PasteSegments.RemoveAbsentIsNoOp | apps/extension/hooks/use-paste-segments.ts:62-68 | removing a badge that matches nothing leaves the list unchanged |
| PasteSegments.RemoveMatchingIdempotent | apps/extension/hooks/use-paste-segments.ts:62-68 | removing the same badge twice is the same as removing it once |
| PasteSegments.PasteCapture.constructor | apps/extension/hooks/use-paste-segments.ts:28 | capture starts inactive with no pastes |
| PasteSegments.PasteCapture.Activate | apps/extension/hooks/use-paste-segments.ts:31-36 | becoming active clears the list; a repeated activation keeps it |
| PasteSegments.PasteCapture.Deactivate | apps/extension/hooks/use-paste-segments.ts:38-41 | deactivating detaches the listener and keeps the list |
| PasteSegments.PasteCapture.HandlePaste | apps/extension/hooks/use-paste-segments.ts:43-53 | while active, a paste with non-empty text is appended with its millisecond timecode divided by 1000; otherwise nothing changes |
| PasteSegments.PasteCapture.RemovePasteSegment | apps/extension/hooks/use-paste-segments.ts:61-69 | the list becomes the filtered list, and no remaining entry matches the removed badge |
| AudioRecorder.AudioRecorderHook.constructor | apps/extension/hooks/use-audio-recorder.ts:30-35 | the hook starts idle, with no chunks, no zero reference, no recorder and no timecodes reported |
| AudioRecorder.AudioRecorderHook.StartRecording | apps/extension/hooks/use-audio-recorder.ts:37-108 | chunks and error are cleared. With the microphone, a recorder starts and the hook is recording. Without it, the error message is set and the recording flag and recorder are unchanged. The history of reported timecodes is unchanged |
| AudioRecorder.AudioRecorderHook.DataAvailable | apps/extension/hooks/use-audio-recorder.ts:54-77 | an empty chunk changes nothing and reports nothing. Otherwise the chunk is appended and the first chunk's timecode becomes the zero reference. The reported relative timecode is the timecode minus that reference, and it is also the recording time. The first report is 0. The device timecode and the report are each appended to the history |
| AudioRecorder.AudioRecorderHook.RecorderStopped | apps/extension/hooks/use-audio-recorder.ts:79-96 | the recorder is now inactive; the recording handed on is the whole chunk list; the zero reference is cleared, the time and flag reset, and the history of reports starts afresh |
| AudioRecorder.AudioRecorderHook.StopRecording | apps/extension/hooks/use-audio-recorder.ts:110-133 | only a recorder that is recording is stopped; anything else is left as it was. The history of reports is unchanged |
| AudioRecorder.ReportedTimecodesFollowDevice | apps/extension/hooks/use-audio-recorder.ts:58-66 | over the reports since the recorder last stopped, each is its device timecode minus the first one: the first report is 0, and non-decreasing device timecodes give non-decreasing reports |
| RecorderContainer.ElapsedLabel | apps/extension/components/recorder-container.tsx:21-23 | with no timecode, or a timecode of 0, the label reads `0:00` |
| RecorderContainer.ElapsedFields | apps/extension/components/recorder-container.tsx:21-23 | for a non-negative timecode the minutes are the whole minutes and the seconds lie in 0..59. Together they are the whole seconds elapsed, and the label is `M:SS` |
| RecorderContainer.ElapsedLabelExamples | apps/extension/components/recorder-container.tsx:58-60 | 61000 ms reads `1:01` and 59999 ms reads `0:59` |
| RecorderContainer.IconFor | apps/extension/components/recorder-container.tsx:25-46 | spinner exactly while transcribing, check exactly once transcribed, microphone exactly while recording |
| RecorderContainer.ClickStopsRecording | apps/extension/components/recorder-container.tsx:36-45 | a click stops the recorder exactly when the microphone icon shows and a recording runs |
| WhispPanel.SerialiseSegment | apps/extension/entrypoints/whisp-panel.content/whisp-panel-app.tsx:128-132 | a transcription entry is its text; a paste is its text between the opening and closing tags |
| WhispPanel.SerialisedSegments | apps/extension/entrypoints/whisp-panel.content/whisp-panel-app.tsx:127-132 | one serialised string per entry, in order |
| WhispPanel.ClipboardTextConcat | apps/extension/entrypoints/whisp-panel.content/whisp-panel-app.tsx:126-134 | the clipboard text of two lists is their texts joined by a blank line |
| WhispPanel.ClipboardText | apps/extension/entrypoints/whisp-panel.content/whisp-panel-app.tsx:126-134 | no entries copy as the empty string, and a single entry copies as its serialisation, with no separator |
| WhispPanel.ClipboardTextSpokenThenPaste | apps/extension/entrypoints/whisp-panel.content/whisp-panel-app.tsx:126-134 | spoken text followed by a paste copies as the text, a blank line, and the tagged paste |
| WhispPanel.RecorderStateFor | apps/extension/entrypoints/whisp-panel.content/whisp-panel-app.tsx:198-204 | transcribing exactly while a transcription runs; transcribed exactly when not transcribing and the transcription has non-empty text; recording otherwise |
| WhispPanel.IconClickStopsOnlyWhileRecording | apps/extension/entrypoints/whisp-panel.content/whisp-panel-app.tsx:197-206 | the strip's icon stops the recorder exactly when no transcription runs or is shown and the recorder is recording |
| WhispPanel.WhispPanelController.constructor | apps/extension/entrypoints/whisp-panel.content/whisp-panel-app.tsx:26-50 | the panel starts closed with no transcription, no audio, no timecode and no pastes |
| WhispPanel.WhispPanelController.SyncPasteCapture | apps/extension/entrypoints/whisp-panel.content/whisp-panel-app.tsx:111-114 | paste capture follows the recorder's flag, and its list is cleared when capture turns on |
| WhispPanel.WhispPanelController.StopRecordingAndReset | apps/extension/entrypoints/whisp-panel.content/whisp-panel-app.tsx:83-90 | the recorder is no longer recording; transcription, audio, timecode and the paste-on-complete flag are reset |
| WhispPanel.WhispPanelController.Open | apps/extension/entrypoints/whisp-panel.content/whisp-panel-app.tsx:100-104 | opening a closed panel clears the timecode and the chunks and starts recording, clearing the pastes as capture turns on, or sets the microphone error; opening an open one keeps the timecode, chunks and pastes |
| WhispPanel.WhispPanelController.Close | apps/extension/entrypoints/whisp-panel.content/whisp-panel-app.tsx:105-107 | closing an open panel stops the recording and resets the session; the pastes are kept |
| WhispPanel.WhispPanelController.AudioChunk | apps/extension/entrypoints/whisp-panel.content/whisp-panel-app.tsx:52-59 | a non-empty chunk sets the panel timecode to the recorder's relative timecode, which is 0 for the first chunk |
| WhispPanel.WhispPanelController.RecordingStopped | apps/extension/entrypoints/whisp-panel.content/whisp-panel-app.tsx:61-70 | the recorder is no longer recording. A closed panel discards the recording. An open one hands the whole chunk list to transcription and shows transcribing. Paste capture ends either way |
| WhispPanel.WhispPanelController.TranscriptionFinished | apps/extension/hooks/use-transcription.ts:18-34 | transcribing ends; an answer becomes the transcription, a failure leaves it as it was |
| WhispPanel.WhispPanelController.Paste | apps/extension/entrypoints/whisp-panel.content/whisp-panel-app.tsx:111-114 | a paste while recording is stamped with the panel timecode, or 0 before the first chunk |
| WhispPanel.WhispPanelController.RemovePaste | apps/extension/entrypoints/whisp-panel.content/whisp-panel-app.tsx:111 | a badge removal filters the paste list |
| WhispPanel.WhispPanelController.TranscribedText | apps/extension/entrypoints/whisp-panel.content/whisp-panel-app.tsx:116-118 | there is a composed text exactly when there is a transcription; it is the plain text with no pastes and the merge otherwise, and it keeps every paste |
| WhispPanel.WhispPanelController.CopyToClipboard | apps/extension/entrypoints/whisp-panel.content/whisp-panel-app.tsx:120-138 | with no transcription, the paste-on-complete flag toggles and nothing is copied. Otherwise the composed text is copied, the plain text when there are no pastes, and the panel closes |
| Text.JoinSplit | apps/extension/lib/subtitle.ts:76 | joining the pieces of a split with the separator gives back the original string |
| Text.SplitPiecesAvoidSeparator | apps/extension/lib/subtitle.ts:76 | no piece of a split contains the separator |
| Text.NatToStringRoundTrip | apps/extension/lib/format.ts:7 | the decimal form of a number reads back as that number |
| Subtitle.ParseInt | apps/extension/lib/subtitle.ts:32-35 | NaN exactly when the text is empty or does not start with a digit |
| Subtitle.ParseTimecode | apps/extension/lib/subtitle.ts:14-52 | the parse succeeds exactly on `HH:MM:SS,mmm` shapes, and the only error it reports is the invalid-timecode error |
| Subtitle.ParseTimecodeSpec | apps/extension/lib/subtitle.ts:14-52 | on success the fields are the values of the digit groups; hour, minute and second are at most 99 and the millisecond at most 999 |
| Subtitle.ParseTimecodeExample | apps/extension/lib/subtitle.ts:14-52 | `00:00:24,400` parses to 0 hours, 0 minutes, 24 seconds and 400 milliseconds |
| Subtitle.ParseTimecodeOutOfRangeMinutes | apps/extension/lib/subtitle.ts:14-52 | `00:75:00,000` is accepted with 75 minutes, since fields are not range-checked |
| Subtitle.FixedDigitsValue | apps/extension/lib/subtitle.ts:46-51 | a number written with a fixed count of digits reads back as that number modulo the matching power of ten |
| Subtitle.ParseFormattedTimecode | apps/extension/lib/subtitle.ts:14-52 | a time in range, written as `HH:MM:SS,mmm`, parses back to itself |
| Subtitle.FormatParsedTimecode | apps/extension/lib/subtitle.ts:14-52 | a string that parses is exactly the rendering of its parse |
| Subtitle.BlockToSubtitle | apps/extension/lib/subtitle.ts:54-73 | a block converts exactly when it has the index line, the timecode line with ` --> ` and a non-empty text; the only error is the block-format error |
| Subtitle.BlockOfParts | apps/extension/lib/subtitle.ts:54-73 | an index, two timecodes and a text assemble into a block that converts to that start, end and trimmed text |
| Subtitle.ShortArrowRejected | apps/extension/lib/subtitle.test.ts:44-51 | a block using `->` instead of `-->` is rejected with the block-format error |
| Subtitle.CarriageReturnRejected | apps/extension/lib/subtitle.ts:55-56 | a block whose index line ends in a carriage return is rejected |
| Subtitle.CollectResultsSpec | apps/extension/lib/subtitle.ts:82 | collecting succeeds exactly when every block does, with the values in order; otherwise the error is that of the first failing block |
| Subtitle.ParseBlocksSpec | apps/extension/lib/subtitle.ts:82 | every block parses exactly when the list does, value for value; a failure reports the first block's error |
| Subtitle.ParseSubtitles | apps/extension/lib/subtitle.ts:75-83 | a successful parse yields one subtitle per blank-line-separated block |
| Subtitle.ParseSubtitlesEmpty | apps/extension/lib/subtitle.test.ts:40-42 | the empty file is a single empty block and is rejected, not parsed as no subtitles |
| Subtitle.ParseSubtitlesSpec | apps/extension/lib/subtitle.ts:75-83 | a file parses exactly when every block is well formed, and then each subtitle is its block's conversion |
| Subtitle.SplitJoinSeparable | apps/extension/lib/subtitle.ts:76 | splitting the blank-line join of blocks that contain no blank line gives the blocks back |
| Subtitle.ParseRenderedSubtitles | apps/extension/lib/subtitle.ts:75-83 | a non-empty list of subtitles with in-range times and clean text, rendered as a file, parses back to itself |

## Left out

- The waveform, the audio context and the analyser are left out. They only drive the drawing of the waveform. The `Float32Array` handed to the panel with each chunk is not modelled.
- AudioRecorder.AudioRecorderHook.DataAvailable: the report is made for every non-empty chunk. The source makes it only when an analyser exists and a data callback was given. Both always hold once recording has started.
- The recorder's periodic timer and its stop timer are left out. So are stopping the microphone tracks and closing the audio context: they have no effect on the modelled state.
- Calls to the transcription service, and checking its answer against the schema, are outside the model. An answer arrives as a parameter of `TranscriptionFinished`. The transcription error state is not modelled.
- WhispPanel.WhispPanelController.TranscriptionFinished: the transcription hook that ships with the extension handles plain text rather than the verbose JSON the panel uses. The model follows the panel's use: an answer replaces the transcription, and a failure keeps the previous value. That value is none after `RecordingStopped`, which clears it before the transcription starts.
- The `transcriptionToInputPrompt` helper, the auto-paste effect that fills the page's input (`autofill.ts`) and the write to the system clipboard are left out. The model stops at the string to be copied.
- Keyboard shortcuts, messages between the extension's parts, and the toggle hook are left out. They are modelled only as the `Open`, `Close` and `CopyToClipboard` events they trigger.
- React scheduling is not modelled: the order of effects within one render, stale closures, and asynchronous state updates. Each event is one atomic step.
- Numbers are exact reals, not IEEE doubles. Rounding error is not modelled, and neither is the exponent notation JavaScript uses for very large numbers.
- Subtitle.ParseInt: `parseInt`'s skipping of leading whitespace and its sign handling are not modelled. The timecode pattern only ever hands it digits.
- Subtitle.ParseTimecodeSpec: the source also fails when a capture group is undefined. That cannot happen once the pattern has matched, so the branch is not modelled.
- `lib/transcription.ts`, `lib/transcribe-verbose-json.ts` and the popup are not part of this model.

## Findings

| source | as written | input that shows it | evidently intended | confidence | as-written member | corrected member |
|---|---|---|---|---|---|---|
| apps/extension/lib/format.ts:4-8 | the minutes are floored, then the remainder is rounded on its own, so the seconds can round up to 60 | 59.6 s reads `0:60` | `1:00`: round to whole seconds first, then split into minutes and seconds | not executed | Format.FormatTimecodeExamples | Format.FormatTimecodeNormalisedFields |
