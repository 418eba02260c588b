/** Formatting of paste labels and timecodes, and the merge of a verbose
    transcription with the recorded pastes into one ordered list of segments. */
module Format {
  import opened Wrappers
  import opened Numbers
  import opened Text
  import opened PasteSegments

  // ---------------------------------------------------------------------
  // Labels

  /** `formatTimecode`: whole minutes, a colon, then the rounded remainder of
      seconds padded to two digits. A remainder that rounds up to 60 is shown
      as 60 and not carried into the minutes. For a non-negative time the
      label is at least four characters and ends with a colon and the two
      characters of the seconds. */
  function FormatTimecode(timeInSeconds: real): (shown: string)
    ensures timeInSeconds >= 0.0 ==> |shown| >= 4 && shown[|shown| - 3] == ':'
  {
    var minutes := Floor(timeInSeconds / 60.0);
    var seconds := Round(JsRem(timeInSeconds, 60.0));
    SecondsBelowHundred(timeInSeconds);
    IntToString(minutes) + ":" + PadStart(IntToString(seconds), 2, '0')
  }

  /** Helper: for a non-negative time the minutes are not negative and the
      rounded seconds take at most two digits. */
  lemma SecondsBelowHundred(t: real)
    ensures t >= 0.0 ==> Floor(t / 60.0) >= 0 && |IntToString(Round(JsRem(t, 60.0)))| <= 2
    ensures t >= 0.0 ==> |IntToString(Floor(t / 60.0))| >= 1
  {
    if t >= 0.0 {
      var seconds := Round(JsRem(t, 60.0));
      NatToStringLength(seconds);
    }
  }

  /** For a non-negative time the label is `M:SS` where M is the number of
      whole minutes, SS is in 0..60, and M * 60 + SS is the time rounded to
      whole seconds. */
  lemma FormatTimecodeFields(t: real)
    requires t >= 0.0
    ensures var minutes := Floor(t / 60.0);
            var seconds := Round(JsRem(t, 60.0));
            && 0 <= minutes && 0 <= seconds <= 60
            && minutes * 60 + seconds == Round(t)
            && FormatTimecode(t) == NatToString(minutes) + ":" + (if seconds < 10 then "0" else "") + NatToString(seconds)
  {
    var minutes := Floor(t / 60.0);
    var seconds := Round(JsRem(t, 60.0));
    RemOfNonNegative(t, 60.0);
    assert JsRem(t, 60.0) == t - 60.0 * minutes as real;
    RoundShift(JsRem(t, 60.0), minutes * 60);
    NatToStringLength(seconds);
  }

  /** Rounding commutes with adding a whole number. */
  lemma RoundShift(x: real, n: int)
    ensures Round(x + n as real) == Round(x) + n
  {
  }

  /** The known quirk: 59.6 seconds is shown as `0:60`; 29.6 as `0:30`. */
  lemma FormatTimecodeExamples()
    ensures FormatTimecode(20.0) == "0:20"
    ensures FormatTimecode(80.0) == "1:20"
    ensures FormatTimecode(29.6) == "0:30"
    ensures FormatTimecode(59.6) == "0:60"
  {
    TimecodeExample(20.0, 0, 20);
    TimecodeExample(80.0, 1, 20);
    TimecodeExample(29.6, 0, 30);
    TimecodeExample(59.6, 0, 60);
    TwoDigitStrings();
    ExampleLabels();
  }

  /** Helper: the example labels as concatenations of their fields. */
  lemma ExampleLabels()
    ensures "0" + ":" + "20" == "0:20" && "1" + ":" + "20" == "1:20"
    ensures "0" + ":" + "30" == "0:30" && "0" + ":" + "60" == "0:60"
  {
  }

  /** Helper: the label of one time from its minutes and rounded seconds. */
  lemma TimecodeExample(t: real, minutes: nat, seconds: nat)
    requires t >= 0.0 && Floor(t / 60.0) == minutes && Round(JsRem(t, 60.0)) == seconds && seconds >= 10
    ensures FormatTimecode(t) == NatToString(minutes) + ":" + NatToString(seconds)
  {
    FormatTimecodeFields(t);
  }

  /** Helper: the decimal forms used by the examples. */
  lemma TwoDigitStrings()
    ensures NatToString(0) == "0" && NatToString(1) == "1"
    ensures NatToString(20) == "20" && NatToString(30) == "30" && NatToString(60) == "60"
  {
    assert NatToString(2) == "2" && NatToString(3) == "3" && NatToString(6) == "6";
  }

  /** The timecode label with the rounding done first: the time is rounded
      to whole seconds, then split into minutes and seconds, so the seconds
      field never reaches 60. */
  function FormatTimecodeNormalised(timeInSeconds: real): string {
    var total := Round(timeInSeconds);
    IntToString(total / 60) + ":" + PadStart(IntToString(total % 60), 2, '0')
  }

  /** For a non-negative time the normalised label is `M:SS` with SS in
      0..59 and M * 60 + SS the time rounded to whole seconds; it agrees with
      `FormatTimecode` whenever that one's seconds stay below 60. */
  lemma FormatTimecodeNormalisedFields(t: real)
    requires t >= 0.0
    ensures var minutes, seconds := Round(t) / 60, Round(t) % 60;
            && 0 <= minutes && 0 <= seconds <= 59
            && minutes * 60 + seconds == Round(t)
            && FormatTimecodeNormalised(t) == NatToString(minutes) + ":" + (if seconds < 10 then "0" else "") + NatToString(seconds)
    ensures Round(JsRem(t, 60.0)) < 60 ==> FormatTimecodeNormalised(t) == FormatTimecode(t)
  {
    NormalisedLabel(t);
    if Round(JsRem(t, 60.0)) < 60 {
      NormalisedAgrees(t);
    }
  }

  /** Helper: the fields and the text of the normalised label. */
  lemma NormalisedLabel(t: real)
    requires t >= 0.0
    ensures var minutes, seconds := Round(t) / 60, Round(t) % 60;
            && 0 <= minutes && 0 <= seconds <= 59
            && minutes * 60 + seconds == Round(t)
            && FormatTimecodeNormalised(t) == NatToString(minutes) + ":" + (if seconds < 10 then "0" else "") + NatToString(seconds)
  {
    NatToStringLength(Round(t) % 60);
  }

  /** Helper: below 60 rounded seconds the two labels have the same fields. */
  lemma NormalisedAgrees(t: real)
    requires t >= 0.0 && Round(JsRem(t, 60.0)) < 60
    ensures FormatTimecodeNormalised(t) == FormatTimecode(t)
  {
    FormatTimecodeFields(t);
    NormalisedLabel(t);
    DivModOfMinutes(Round(t), Floor(t / 60.0), Round(JsRem(t, 60.0)));
  }

  /** Helper: whole minutes and seconds below 60 are the quotient and the
      remainder by 60. */
  lemma DivModOfMinutes(total: int, minutes: int, seconds: int)
    requires total == minutes * 60 + seconds && 0 <= seconds < 60
    ensures total / 60 == minutes && total % 60 == seconds
  {
  }

  /** 59.6 seconds reads `1:00` once normalised, where `FormatTimecode` shows
      `0:60` (see `FormatTimecodeExamples`). */
  lemma FormatTimecodeNormalisedExample()
    ensures FormatTimecodeNormalised(59.6) == "1:00"
  {
    assert Round(59.6) == 60;
    FormatTimecodeNormalisedFields(59.6);
    assert NatToString(1) == "1" && NatToString(0) == "0";
  }

  datatype FormatError = NoFirstWord

  /** `formatPasteSegment`: a short badge label for a paste. The text is
      split on single spaces; an empty first word is an error. Lengths and
      the cut at ten are in UTF-16 code units, as JavaScript counts them, so
      the label is given as code units: the cut may leave half of a
      surrogate pair. A label is never empty and never longer than 13 units. */
  function FormatPasteSegment(pasteSegment: PasteSegment): (r: Result<seq<CodeUnit>, FormatError>)
    ensures r.Ok? ==> 0 < |r.value| <= 13
  {
    var words := Split(pasteSegment.text, " ");
    var firstWord := words[0];
    var units := Utf16(firstWord);
    EllipsisUnits();
    if firstWord == "" then Err(NoFirstWord)
    else if |units| > 10 then Ok(units[..10] + Utf16("..."))
    else if |words| == 1 then Ok(units)
    else Ok(units + Utf16("..."))
  }

  /** The ellipsis is three code units. */
  lemma EllipsisUnits()
    ensures Utf16("...") == [0x2E, 0x2E, 0x2E]
  {
    assert "..."[1..] == ".." && ".."[1..] == "." && "."[1..] == "";
  }

  /** The number of characters before the first space (or the whole length). */
  function WordLength(s: string): (n: nat)
    ensures n <= |s|
    decreases |s|
  {
    if s == [] || s[0] == ' ' then 0 else 1 + WordLength(s[1..])
  }

  lemma {:induction false} WordLengthSpec(s: string)
    ensures ' ' !in s[..WordLength(s)]
    ensures WordLength(s) < |s| ==> s[WordLength(s)] == ' '
    decreases |s|
  {
    if s != [] && s[0] != ' ' {
      WordLengthSpec(s[1..]);
      assert s[..WordLength(s)] == [s[0]] + s[1..][..WordLength(s[1..])];
    }
  }

  /** The three outcomes of the label, in terms of n, the length of the text
      before its first space, and the code units of that first word: the
      label fails when n is 0 (empty text or a leading space), is the first
      ten units and an ellipsis when the word has more than ten units, is
      the whole text when it is one word of at most ten units, and is the
      first word and an ellipsis otherwise. */
  lemma FormatPasteSegmentOutcomes(p: PasteSegment)
    ensures var t, n := p.text, WordLength(p.text);
            var units := Utf16(t[..n]);
            && (FormatPasteSegment(p).Err? <==> n == 0)
            && (FormatPasteSegment(p).Err? <==> t == [] || t[0] == ' ')
            && (|units| > 10 ==> FormatPasteSegment(p) == Ok(units[..10] + Utf16("...")))
            && (0 < n && |units| <= 10 && n == |t| ==> FormatPasteSegment(p) == Ok(Utf16(t)))
            && (0 < n && |units| <= 10 && n < |t| ==> FormatPasteSegment(p) == Ok(units + Utf16("...")))
  {
    var t := p.text;
    var n := WordLength(t);
    var w := Split(t, " ")[0];
    SplitOnChar(t, ' ');
    FirstWordIsWord(t, w);
    assert w == t[..n];
    if n == |t| {
      assert t[..n] == t;
      assert ' ' !in t;
    } else {
      assert t[n] == ' ';
      assert ' ' in t;
    }
  }

  /** A text without a space is one word. */
  lemma WordLengthOfOneWord(t: string)
    requires ' ' !in t
    ensures WordLength(t) == |t| && t[..WordLength(t)] == t
  {
    WordLengthSpec(t);
  }

  /** The longest space-free prefix has length WordLength. */
  lemma FirstWordIsWord(t: string, w: string)
    requires w <= t && ' ' !in w && (|w| < |t| ==> t[|w|] == ' ')
    ensures |w| == WordLength(t) && w == t[..WordLength(t)]
  {
    WordLengthSpec(t);
    var n := WordLength(t);
    assert forall k :: 0 <= k < n ==> t[..n][k] == t[k];
    assert forall k :: 0 <= k < |w| ==> w[k] == t[k];
  }

  /** The paste capture stores any non-empty text, but a text that begins
      with a space still has an empty first word, so its label fails. */
  lemma StoredPasteCanFailToFormat()
    ensures var p := PasteSegment(0.0, " hi");
            p.text != "" && FormatPasteSegment(p).Err?
  {
    FormatPasteSegmentOutcomes(PasteSegment(0.0, " hi"));
  }

  /** A non-empty text without a space and of at most ten code units is its
      own label. */
  lemma FormatPasteSegmentSingleWord(timecodeInSeconds: real, t: string)
    requires t != [] && ' ' !in t && |Utf16(t)| <= 10
    ensures FormatPasteSegment(PasteSegment(timecodeInSeconds, t)) == Ok(Utf16(t))
  {
    FormatPasteSegmentOutcomes(PasteSegment(timecodeInSeconds, t));
    WordLengthOfOneWord(t);
  }

  /** Text outside the Basic Multilingual Plane counts two units a
      character: six emoji are twelve units, so the label is the first five
      and an ellipsis. */
  lemma FormatPasteSegmentEmoji()
    ensures var e := "\U{1F600}";
            FormatPasteSegment(PasteSegment(0.0, e + e + e + e + e + e)) == Ok(Utf16(e + e + e + e + e) + Utf16("..."))
  {
    var e := "\U{1F600}";
    var five := e + e + e + e + e;
    var t := five + e;
    EmojiUnits(five, e);
    assert ' ' !in t by {
      assert forall k :: 0 <= k < |t| ==> t[k] == '\U{1F600}';
    }
    WordLengthOfOneWord(t);
    FormatPasteSegmentOutcomes(PasteSegment(0.0, t));
  }

  /** Helper: the units of five emoji and of a sixth. */
  lemma EmojiUnits(five: string, e: string)
    requires e == "\U{1F600}" && five == e + e + e + e + e
    ensures |Utf16(e)| == 2 && |Utf16(five)| == 10
    ensures Utf16(five + e) == Utf16(five) + Utf16(e)
  {
    assert e[1..] == "";
    assert |Utf16(e)| == 2;
    Utf16Concat(e + e + e + e, e);
    Utf16Concat(e + e + e, e);
    Utf16Concat(e + e, e);
    Utf16Concat(e, e);
    Utf16Concat(five, e);
  }

  /** The cut at ten units can fall inside a surrogate pair: nine letters
      and an emoji are eleven units, and the label keeps only the high
      surrogate of the emoji before the ellipsis. */
  lemma FormatPasteSegmentSplitsSurrogatePair()
    ensures FormatPasteSegment(PasteSegment(0.0, "abcdefghi\U{1F600}"))
         == Ok(Utf16("abcdefghi") + [0xD83D] + Utf16("..."))
  {
    var letters, e := "abcdefghi", "\U{1F600}";
    var t := letters + e;
    assert t == "abcdefghi\U{1F600}";
    SurrogateCut(letters, e);
    assert ' ' !in letters && ' ' !in e;
    WordLengthOfOneWord(t);
    FormatPasteSegmentOutcomes(PasteSegment(0.0, t));
  }

  /** Helper: the first ten units of nine letters and an emoji. */
  lemma SurrogateCut(letters: string, e: string)
    requires letters == "abcdefghi" && e == "\U{1F600}"
    ensures |Utf16(letters + e)| == 11
    ensures Utf16(letters + e)[..10] == Utf16(letters) + [0xD83D]
  {
    Utf16Concat(letters, e);
    Utf16OfBmp(letters);
    assert e[1..] == "";
    assert Utf16(e) == CharUnits('\U{1F600}');
  }

  // ---------------------------------------------------------------------
  // Transcription and composed segments

  /** One segment of the verbose transcription: its start, in seconds into
      the audio, and its text. The service's other fields are not read. */
  datatype WhisperSegment = WhisperSegment(start: real, text: string)

  /** The verbose transcription: the service's whole text and its segments. */
  datatype WhisperVerboseJson = WhisperVerboseJson(text: string, segments: seq<WhisperSegment>)

  /** An element of the composed timeline. */
  datatype Segment =
    | Transcription(text: string)
    | Paste(text: string, timecodeInSeconds: real)

  /** One step of the merge: a transcription segment or a paste, with its
      position in its own input list. */
  datatype Event =
    | Spoken(index: nat, text: string)
    | Pasted(index: nat, paste: PasteSegment)

  /** The transcription segment texts, in order. */
  function SegmentTexts(ws: seq<WhisperSegment>): (texts: seq<string>)
    ensures |texts| == |ws| && forall k :: 0 <= k < |ws| ==> texts[k] == ws[k].text
  {
    seq(|ws|, k requires 0 <= k < |ws| => ws[k].text)
  }

  /** The order in which the merge takes its inputs, from segment `i` and
      paste `j` on: a segment goes first only when its start is strictly
      below the whole seconds of the paste; ties go to the paste. Once one
      list is used up the other is taken in order. The merge takes exactly
      one step per remaining segment and paste. */
  function Interleave(ws: seq<WhisperSegment>, ps: seq<PasteSegment>, i: nat, j: nat): (events: seq<Event>)
    requires i <= |ws| && j <= |ps|
    ensures |events| == |ws| - i + |ps| - j
    decreases |ws| - i + |ps| - j
  {
    if i < |ws| && j < |ps| then
      if ws[i].start < Floor(ps[j].timecodeInSeconds) as real then [Spoken(i, ws[i].text)] + Interleave(ws, ps, i + 1, j)
      else [Pasted(j, ps[j])] + Interleave(ws, ps, i, j + 1)
    else if i < |ws| then [Spoken(i, ws[i].text)] + Interleave(ws, ps, i + 1, j)
    else if j < |ps| then [Pasted(j, ps[j])] + Interleave(ws, ps, i, j + 1)
    else []
  }

  /** Adds one step to the composed list: a spoken text is appended, after a
      single space, to a trailing transcription element, or starts a new one;
      a paste is always a new element with its own text and timecode. */
  function Emit(acc: seq<Segment>, e: Event): seq<Segment> {
    match e
    case Spoken(_, t) =>
      if |acc| > 0 && acc[|acc| - 1].Transcription? then
        acc[|acc| - 1 := Transcription(acc[|acc| - 1].text + " " + t)]
      else acc + [Transcription(t)]
    case Pasted(_, p) => acc + [Paste(p.text, p.timecodeInSeconds)]
  }

  /** The composed list for a run of steps: never more elements than steps,
      since a spoken text may join the element before it. */
  function Coalesce(events: seq<Event>): (composed: seq<Segment>)
    ensures |composed| <= |events|
    decreases |events|
  {
    if events == [] then [] else Emit(Coalesce(events[..|events| - 1]), events[|events| - 1])
  }

  // Projections used to state what the merge keeps.

  function SpokenTexts(events: seq<Event>): seq<string>
    decreases |events|
  {
    if events == [] then []
    else SpokenTexts(events[..|events| - 1])
         + (if events[|events| - 1].Spoken? then [events[|events| - 1].text] else [])
  }

  function PastedSegments(events: seq<Event>): seq<PasteSegment>
    decreases |events|
  {
    if events == [] then []
    else PastedSegments(events[..|events| - 1])
         + (if events[|events| - 1].Pasted? then [events[|events| - 1].paste] else [])
  }

  /** The texts of the transcription elements, in order. */
  function TranscriptionTexts(segments: seq<Segment>): seq<string>
    decreases |segments|
  {
    if segments == [] then []
    else TranscriptionTexts(segments[..|segments| - 1])
         + (if segments[|segments| - 1].Transcription? then [segments[|segments| - 1].text] else [])
  }

  /** The paste elements, read back as paste segments, in order. */
  function PastesOf(segments: seq<Segment>): seq<PasteSegment>
    decreases |segments|
  {
    if segments == [] then []
    else
      var last := segments[|segments| - 1];
      PastesOf(segments[..|segments| - 1])
      + (if last.Paste? then [PasteSegment(last.timecodeInSeconds, last.text)] else [])
  }

  /** No two neighbouring elements are both transcription elements. */
  ghost predicate NoAdjacentTranscriptions(segments: seq<Segment>) {
    forall k :: 0 <= k < |segments| - 1 ==> !(segments[k].Transcription? && segments[k + 1].Transcription?)
  }

  /** Segments sorted by start, pastes sorted by timecode. */
  ghost predicate SortedStarts(ws: seq<WhisperSegment>) {
    forall a, b :: 0 <= a < b < |ws| ==> ws[a].start <= ws[b].start
  }

  ghost predicate SortedTimecodes(ps: seq<PasteSegment>) {
    forall a, b :: 0 <= a < b < |ps| ==> ps[a].timecodeInSeconds <= ps[b].timecodeInSeconds
  }

  // ---------------------------------------------------------------------
  // Facts about the projections

  lemma {:induction false} SpokenTextsConcat(xs: seq<Event>, ys: seq<Event>)
    ensures SpokenTexts(xs + ys) == SpokenTexts(xs) + SpokenTexts(ys)
    decreases |ys|
  {
    if ys == [] {
      assert xs + ys == xs;
    } else {
      assert (xs + ys)[..|xs + ys| - 1] == xs + ys[..|ys| - 1];
      SpokenTextsConcat(xs, ys[..|ys| - 1]);
    }
  }

  lemma {:induction false} PastedSegmentsConcat(xs: seq<Event>, ys: seq<Event>)
    ensures PastedSegments(xs + ys) == PastedSegments(xs) + PastedSegments(ys)
    decreases |ys|
  {
    if ys == [] {
      assert xs + ys == xs;
    } else {
      assert (xs + ys)[..|xs + ys| - 1] == xs + ys[..|ys| - 1];
      PastedSegmentsConcat(xs, ys[..|ys| - 1]);
    }
  }

  /** True when, from segment `i` and paste `j`, the merge takes segment `i` next. */
  predicate TakesSegment(ws: seq<WhisperSegment>, ps: seq<PasteSegment>, i: nat, j: nat)
    requires i <= |ws| && j <= |ps|
  {
    i < |ws| && (j == |ps| || ws[i].start < Floor(ps[j].timecodeInSeconds) as real)
  }

  lemma InterleaveUnfold(ws: seq<WhisperSegment>, ps: seq<PasteSegment>, i: nat, j: nat)
    requires i <= |ws| && j <= |ps|
    ensures TakesSegment(ws, ps, i, j)
            ==> Interleave(ws, ps, i, j) == [Spoken(i, ws[i].text)] + Interleave(ws, ps, i + 1, j)
    ensures !TakesSegment(ws, ps, i, j) && j < |ps|
            ==> Interleave(ws, ps, i, j) == [Pasted(j, ps[j])] + Interleave(ws, ps, i, j + 1)
    ensures !TakesSegment(ws, ps, i, j) && j == |ps| ==> i == |ws| && Interleave(ws, ps, i, j) == []
  {
  }

  /** Every segment text from `i` on is taken once, in input order. */
  lemma {:induction false} InterleaveKeepsSpokenTexts(ws: seq<WhisperSegment>, ps: seq<PasteSegment>, i: nat, j: nat)
    requires i <= |ws| && j <= |ps|
    ensures SpokenTexts(Interleave(ws, ps, i, j)) == SegmentTexts(ws)[i..]
    decreases |ws| - i + |ps| - j
  {
    InterleaveUnfold(ws, ps, i, j);
    if TakesSegment(ws, ps, i, j) {
      var first := Spoken(i, ws[i].text);
      InterleaveKeepsSpokenTexts(ws, ps, i + 1, j);
      SpokenTextsConcat([first], Interleave(ws, ps, i + 1, j));
      assert SpokenTexts([first]) == [ws[i].text];
      assert SegmentTexts(ws)[i..] == [ws[i].text] + SegmentTexts(ws)[i + 1..];
    } else if j < |ps| {
      var first := Pasted(j, ps[j]);
      InterleaveKeepsSpokenTexts(ws, ps, i, j + 1);
      SpokenTextsConcat([first], Interleave(ws, ps, i, j + 1));
      assert SpokenTexts([first]) == [];
    }
  }

  /** Every paste from `j` on is taken once, in input order and unchanged. */
  lemma {:induction false} InterleaveKeepsPastes(ws: seq<WhisperSegment>, ps: seq<PasteSegment>, i: nat, j: nat)
    requires i <= |ws| && j <= |ps|
    ensures PastedSegments(Interleave(ws, ps, i, j)) == ps[j..]
    decreases |ws| - i + |ps| - j
  {
    InterleaveUnfold(ws, ps, i, j);
    if TakesSegment(ws, ps, i, j) {
      var first := Spoken(i, ws[i].text);
      InterleaveKeepsPastes(ws, ps, i + 1, j);
      PastedSegmentsConcat([first], Interleave(ws, ps, i + 1, j));
      assert PastedSegments([first]) == [];
    } else if j < |ps| {
      var first := Pasted(j, ps[j]);
      InterleaveKeepsPastes(ws, ps, i, j + 1);
      PastedSegmentsConcat([first], Interleave(ws, ps, i, j + 1));
      assert PastedSegments([first]) == [ps[j]];
      assert ps[j..] == [ps[j]] + ps[j + 1..];
    }
  }

  /** Each step names a segment at or after `i`, or a paste at or after `j`,
      and carries that input's text (or the paste itself). */
  ghost predicate StepFrom(ws: seq<WhisperSegment>, ps: seq<PasteSegment>, i: nat, j: nat, e: Event) {
    if e.Spoken? then i <= e.index < |ws| && e.text == ws[e.index].text
    else j <= e.index < |ps| && e.paste == ps[e.index]
  }

  lemma {:induction false} InterleaveIndices(ws: seq<WhisperSegment>, ps: seq<PasteSegment>, i: nat, j: nat)
    requires i <= |ws| && j <= |ps|
    ensures forall a :: 0 <= a < |Interleave(ws, ps, i, j)| ==> StepFrom(ws, ps, i, j, Interleave(ws, ps, i, j)[a])
    decreases |ws| - i + |ps| - j
  {
    InterleaveUnfold(ws, ps, i, j);
    var evs := Interleave(ws, ps, i, j);
    if TakesSegment(ws, ps, i, j) {
      var rest := Interleave(ws, ps, i + 1, j);
      InterleaveIndices(ws, ps, i + 1, j);
      assert forall a :: 1 <= a < |evs| ==> evs[a] == rest[a - 1];
    } else if j < |ps| {
      var rest := Interleave(ws, ps, i, j + 1);
      InterleaveIndices(ws, ps, i, j + 1);
      assert forall a :: 1 <= a < |evs| ==> evs[a] == rest[a - 1];
    }
  }

  /** A transcription step at position `a` comes before a paste step at
      position `b` exactly when the segment starts strictly below the paste's
      whole seconds. */
  ghost predicate OrderedByRule(ws: seq<WhisperSegment>, ps: seq<PasteSegment>, evs: seq<Event>) {
    forall a, b :: 0 <= a < |evs| && 0 <= b < |evs| && evs[a].Spoken? && evs[b].Pasted?
                   && evs[a].index < |ws| && evs[b].index < |ps| ==>
                   (a < b <==> ws[evs[a].index].start < Floor(ps[evs[b].index].timecodeInSeconds) as real)
  }

  /** The tie-break and ordering rule: with both inputs sorted, a segment is
      placed before a paste exactly when its start is strictly below the
      paste's whole seconds, so a paste in the same second goes first. */
  lemma {:induction false} InterleaveOrder(ws: seq<WhisperSegment>, ps: seq<PasteSegment>, i: nat, j: nat)
    requires i <= |ws| && j <= |ps|
    requires SortedStarts(ws) && SortedTimecodes(ps)
    ensures OrderedByRule(ws, ps, Interleave(ws, ps, i, j))
    decreases |ws| - i + |ps| - j
  {
    InterleaveUnfold(ws, ps, i, j);
    if TakesSegment(ws, ps, i, j) {
      var rest := Interleave(ws, ps, i + 1, j);
      InterleaveOrder(ws, ps, i + 1, j);
      InterleaveIndices(ws, ps, i + 1, j);
      OrderedAfterSegment(ws, ps, i, j, rest);
    } else if j < |ps| {
      var rest := Interleave(ws, ps, i, j + 1);
      InterleaveOrder(ws, ps, i, j + 1);
      InterleaveIndices(ws, ps, i, j + 1);
      OrderedAfterPaste(ws, ps, i, j, rest);
    }
  }

  /** Helper for InterleaveOrder: taking segment `i` first keeps the rule,
      since every paste still to come is at or after paste `j`. */
  lemma OrderedAfterSegment(ws: seq<WhisperSegment>, ps: seq<PasteSegment>, i: nat, j: nat, rest: seq<Event>)
    requires i <= |ws| && j <= |ps| && SortedTimecodes(ps) && TakesSegment(ws, ps, i, j)
    requires OrderedByRule(ws, ps, rest)
    requires forall x :: 0 <= x < |rest| ==> StepFrom(ws, ps, i + 1, j, rest[x])
    ensures OrderedByRule(ws, ps, [Spoken(i, ws[i].text)] + rest)
  {
    var evs := [Spoken(i, ws[i].text)] + rest;
    forall a, b | 0 <= a < |evs| && 0 <= b < |evs| && evs[a].Spoken? && evs[b].Pasted?
                  && evs[a].index < |ws| && evs[b].index < |ps|
      ensures a < b <==> ws[evs[a].index].start < Floor(ps[evs[b].index].timecodeInSeconds) as real
    {
      if a == 0 {
        assert StepFrom(ws, ps, i + 1, j, rest[b - 1]) && rest[b - 1] == evs[b];
        SegmentBeforeLaterPastes(ws, ps, i, j, evs[b].index);
      } else {
        assert evs[a] == rest[a - 1] && evs[b] == rest[b - 1];
      }
    }
  }

  /** Helper for InterleaveOrder: taking paste `j` first keeps the rule,
      since every segment still to come is at or after segment `i`. */
  lemma OrderedAfterPaste(ws: seq<WhisperSegment>, ps: seq<PasteSegment>, i: nat, j: nat, rest: seq<Event>)
    requires i <= |ws| && j < |ps| && SortedStarts(ws) && !TakesSegment(ws, ps, i, j)
    requires OrderedByRule(ws, ps, rest)
    requires forall x :: 0 <= x < |rest| ==> StepFrom(ws, ps, i, j + 1, rest[x])
    ensures OrderedByRule(ws, ps, [Pasted(j, ps[j])] + rest)
  {
    var evs := [Pasted(j, ps[j])] + rest;
    forall a, b | 0 <= a < |evs| && 0 <= b < |evs| && evs[a].Spoken? && evs[b].Pasted?
                  && evs[a].index < |ws| && evs[b].index < |ps|
      ensures a < b <==> ws[evs[a].index].start < Floor(ps[evs[b].index].timecodeInSeconds) as real
    {
      if b == 0 {
        assert StepFrom(ws, ps, i, j + 1, rest[a - 1]) && rest[a - 1] == evs[a];
        PasteBeforeLaterSegments(ws, ps, i, j, evs[a].index);
      } else {
        assert evs[a] == rest[a - 1] && evs[b] == rest[b - 1];
      }
    }
  }

  /** Helper for InterleaveOrder: a segment placed before paste `j` is also
      placed before every later paste. */
  lemma SegmentBeforeLaterPastes(ws: seq<WhisperSegment>, ps: seq<PasteSegment>, i: nat, j: nat, k: nat)
    requires SortedTimecodes(ps) && i < |ws| && j <= k < |ps|
    requires TakesSegment(ws, ps, i, j)
    ensures ws[i].start < Floor(ps[k].timecodeInSeconds) as real
  {
    FloorMonotone(ps[j].timecodeInSeconds, ps[k].timecodeInSeconds);
  }

  /** Helper for InterleaveOrder: a paste placed before segment `i` is also
      placed before every later segment. */
  lemma PasteBeforeLaterSegments(ws: seq<WhisperSegment>, ps: seq<PasteSegment>, i: nat, j: nat, k: nat)
    requires SortedStarts(ws) && i <= k < |ws| && j < |ps|
    requires !TakesSegment(ws, ps, i, j)
    ensures !(ws[k].start < Floor(ps[j].timecodeInSeconds) as real)
  {
    assert ws[i].start <= ws[k].start;
  }

  lemma FloorMonotone(x: real, y: real)
    requires x <= y
    ensures Floor(x) <= Floor(y)
  {
  }

  /** Moving the next step from the pending steps to the done ones. */
  lemma ShiftStep(done: seq<Event>, e: Event, rest: seq<Event>, whole: seq<Event>)
    requires done + ([e] + rest) == whole
    ensures (done + [e]) + rest == whole
  {
    assert done + ([e] + rest) == (done + [e]) + rest;
  }

  /** Adding one step to a run of steps adds it to the composed list. */
  lemma CoalesceSnoc(events: seq<Event>, e: Event)
    ensures Coalesce(events + [e]) == Emit(Coalesce(events), e)
  {
    assert (events + [e])[..|events|] == events;
  }

  lemma {:induction false} TranscriptionTextsUpdateLast(acc: seq<Segment>, t: string)
    requires |acc| > 0 && acc[|acc| - 1].Transcription?
    ensures var k := |acc| - 1;
            var tt := TranscriptionTexts(acc);
            && |tt| > 0 && tt[|tt| - 1] == acc[k].text
            && TranscriptionTexts(acc[k := Transcription(t)]) == tt[..|tt| - 1] + [t]
            && PastesOf(acc[k := Transcription(t)]) == PastesOf(acc)
  {
    var k := |acc| - 1;
    assert acc[k := Transcription(t)][..k] == acc[..k];
  }

  lemma {:induction false} JoinExtendLast(xs: seq<string>, u: string, t: string, sep: string)
    ensures Join(xs + [u + sep + t], sep) == Join(xs + [u], sep) + sep + t
  {
    JoinAppend(xs, u + sep + t, sep);
    JoinAppend(xs, u, sep);
  }

  /** Coalescing keeps the pasted steps as paste elements, in order, and
      never leaves two transcription elements side by side. */
  lemma {:induction false} CoalesceKeepsPastes(events: seq<Event>)
    ensures NoAdjacentTranscriptions(Coalesce(events))
    ensures PastesOf(Coalesce(events)) == PastedSegments(events)
    decreases |events|
  {
    if events != [] {
      var front := events[..|events| - 1];
      var e := events[|events| - 1];
      CoalesceKeepsPastes(front);
      EmitKeepsPastes(Coalesce(front), e);
    }
  }

  /** Helper for CoalesceKeepsPastes: one step adds its paste, if it is one,
      and never puts a transcription element next to another. */
  lemma EmitKeepsPastes(acc: seq<Segment>, e: Event)
    requires NoAdjacentTranscriptions(acc)
    ensures NoAdjacentTranscriptions(Emit(acc, e))
    ensures PastesOf(Emit(acc, e)) == PastesOf(acc) + (if e.Pasted? then [e.paste] else [])
  {
    match e
    case Spoken(_, t) =>
      if |acc| > 0 && acc[|acc| - 1].Transcription? {
        TranscriptionTextsUpdateLast(acc, acc[|acc| - 1].text + " " + t);
      } else {
        assert (acc + [Transcription(t)])[..|acc|] == acc;
      }
    case Pasted(_, p) =>
      assert (acc + [Paste(p.text, p.timecodeInSeconds)])[..|acc|] == acc;
  }

  /** Coalescing loses, duplicates and reorders no spoken text: the texts of
      the transcription elements joined with spaces are the spoken texts
      joined with spaces. */
  lemma {:induction false} CoalesceKeepsSpokenTexts(events: seq<Event>)
    ensures |TranscriptionTexts(Coalesce(events))| == 0 <==> |SpokenTexts(events)| == 0
    ensures Join(TranscriptionTexts(Coalesce(events)), " ") == Join(SpokenTexts(events), " ")
    decreases |events|
  {
    if events != [] {
      var front := events[..|events| - 1];
      var e := events[|events| - 1];
      CoalesceKeepsSpokenTexts(front);
      EmitKeepsSpokenTexts(Coalesce(front), e, SpokenTexts(front));
    }
  }

  /** Helper for CoalesceKeepsSpokenTexts: if the transcription texts of
      `acc` join like `spoken`, then after one step they join like `spoken`
      with the step's text, if it is spoken, added at the end. */
  lemma EmitKeepsSpokenTexts(acc: seq<Segment>, e: Event, spoken: seq<string>)
    requires |TranscriptionTexts(acc)| == 0 <==> |spoken| == 0
    requires Join(TranscriptionTexts(acc), " ") == Join(spoken, " ")
    ensures var spoken' := spoken + (if e.Spoken? then [e.text] else []);
            && (|TranscriptionTexts(Emit(acc, e))| == 0 <==> |spoken'| == 0)
            && Join(TranscriptionTexts(Emit(acc, e)), " ") == Join(spoken', " ")
  {
    match e
    case Spoken(_, t) =>
      JoinAppend(spoken, t, " ");
      if |acc| > 0 && acc[|acc| - 1].Transcription? {
        var u := acc[|acc| - 1].text;
        TranscriptionTextsUpdateLast(acc, u + " " + t);
        var tt := TranscriptionTexts(acc);
        assert tt == tt[..|tt| - 1] + [u];
        JoinExtendLast(tt[..|tt| - 1], u, t, " ");
      } else {
        var c := acc + [Transcription(t)];
        assert c[..|acc|] == acc;
        JoinAppend(TranscriptionTexts(acc), t, " ");
      }
    case Pasted(_, p) =>
      var c := acc + [Paste(p.text, p.timecodeInSeconds)];
      assert c[..|acc|] == acc;
      assert TranscriptionTexts(c) == TranscriptionTexts(acc);
      assert spoken + [] == spoken;
  }

  // ---------------------------------------------------------------------
  // The merge

  /** The composed list: the inputs taken in merge order, coalesced. Paste
      elements are the input pastes, in order and unchanged; no two
      transcription elements are neighbours; and the transcription texts
      hold every segment text once, in order. */
  function Merge(ws: seq<WhisperSegment>, ps: seq<PasteSegment>): (r: seq<Segment>)
    ensures NoAdjacentTranscriptions(r)
    ensures PastesOf(r) == ps
    ensures Join(TranscriptionTexts(r), " ") == Join(SegmentTexts(ws), " ")
  {
    var evs := Interleave(ws, ps, 0, 0);
    InterleaveKeepsSpokenTexts(ws, ps, 0, 0);
    InterleaveKeepsPastes(ws, ps, 0, 0);
    CoalesceKeepsPastes(evs);
    CoalesceKeepsSpokenTexts(evs);
    assert ps[0..] == ps && SegmentTexts(ws)[0..] == SegmentTexts(ws);
    Coalesce(evs)
  }

  /** The loop invariant of the merge: the steps done so far followed by the
      steps still to come from segment `i` and paste `j` are the whole
      interleaving, and the list built so far composes the steps done. */
  ghost predicate MergeProgress(ws: seq<WhisperSegment>, ps: seq<PasteSegment>, i: nat, j: nat,
                                done: seq<Event>, result: seq<Segment>) {
    && i <= |ws| && j <= |ps|
    && done + Interleave(ws, ps, i, j) == Interleave(ws, ps, 0, 0)
    && result == Coalesce(done)
  }

  /** Taking segment `i` keeps the invariant. */
  lemma TakeSegmentStep(ws: seq<WhisperSegment>, ps: seq<PasteSegment>, i: nat, j: nat,
                        done: seq<Event>, result: seq<Segment>)
    requires MergeProgress(ws, ps, i, j, done, result) && TakesSegment(ws, ps, i, j)
    ensures MergeProgress(ws, ps, i + 1, j, done + [Spoken(i, ws[i].text)], Emit(result, Spoken(i, ws[i].text)))
  {
    var e := Spoken(i, ws[i].text);
    InterleaveUnfold(ws, ps, i, j);
    CoalesceSnoc(done, e);
    ShiftStep(done, e, Interleave(ws, ps, i + 1, j), Interleave(ws, ps, 0, 0));
  }

  /** Taking paste `j` keeps the invariant. */
  lemma TakePasteStep(ws: seq<WhisperSegment>, ps: seq<PasteSegment>, i: nat, j: nat,
                      done: seq<Event>, result: seq<Segment>)
    requires MergeProgress(ws, ps, i, j, done, result) && !TakesSegment(ws, ps, i, j) && j < |ps|
    ensures MergeProgress(ws, ps, i, j + 1, done + [Pasted(j, ps[j])], Emit(result, Pasted(j, ps[j])))
  {
    var e := Pasted(j, ps[j]);
    InterleaveUnfold(ws, ps, i, j);
    CoalesceSnoc(done, e);
    ShiftStep(done, e, Interleave(ws, ps, i, j + 1), Interleave(ws, ps, 0, 0));
  }

  /** Once both cursors are at the end, the list built is the merge. */
  lemma MergeFinished(ws: seq<WhisperSegment>, ps: seq<PasteSegment>, i: nat, j: nat,
                      done: seq<Event>, result: seq<Segment>)
    requires MergeProgress(ws, ps, i, j, done, result) && i == |ws| && j == |ps|
    ensures result == Merge(ws, ps)
  {
    InterleaveUnfold(ws, ps, i, j);
    assert done == Interleave(ws, ps, 0, 0);
  }

  /** `mergeTranscriptionAndPasteSegments`: the two-cursor merge, which
      builds exactly the composed list `Merge` describes. */
  method MergeTranscriptionAndPasteSegments(transcription: WhisperVerboseJson, pasteSegments: seq<PasteSegment>)
    returns (result: seq<Segment>)
    ensures result == Merge(transcription.segments, pasteSegments)
    ensures NoAdjacentTranscriptions(result)
    ensures PastesOf(result) == pasteSegments
    ensures Join(TranscriptionTexts(result), " ") == Join(SegmentTexts(transcription.segments), " ")
  {
    var segments := transcription.segments;
    result := [];
    var transcriptionIndex, pasteIndex := 0, 0;
    ghost var done: seq<Event> := [];

    while transcriptionIndex < |segments| && pasteIndex < |pasteSegments|
      invariant MergeProgress(segments, pasteSegments, transcriptionIndex, pasteIndex, done, result)
      decreases |segments| - transcriptionIndex + |pasteSegments| - pasteIndex
    {
      var transcriptionSegment := segments[transcriptionIndex];
      var pasteSegment := pasteSegments[pasteIndex];
      if transcriptionSegment.start < Floor(pasteSegment.timecodeInSeconds) as real {
        TakeSegmentStep(segments, pasteSegments, transcriptionIndex, pasteIndex, done, result);
        ghost var e := Spoken(transcriptionIndex, transcriptionSegment.text);
        done := done + [e];
        if |result| > 0 && result[|result| - 1].Transcription? {
          result := result[|result| - 1 := Transcription(result[|result| - 1].text + " " + transcriptionSegment.text)];
        } else {
          result := result + [Transcription(transcriptionSegment.text)];
        }
        transcriptionIndex := transcriptionIndex + 1;
      } else {
        TakePasteStep(segments, pasteSegments, transcriptionIndex, pasteIndex, done, result);
        done := done + [Pasted(pasteIndex, pasteSegment)];
        result := result + [Paste(pasteSegment.text, pasteSegment.timecodeInSeconds)];
        pasteIndex := pasteIndex + 1;
      }
    }

    while transcriptionIndex < |segments|
      invariant MergeProgress(segments, pasteSegments, transcriptionIndex, pasteIndex, done, result)
      invariant transcriptionIndex < |segments| ==> pasteIndex == |pasteSegments|
      decreases |segments| - transcriptionIndex
    {
      TakeSegmentStep(segments, pasteSegments, transcriptionIndex, pasteIndex, done, result);
      done := done + [Spoken(transcriptionIndex, segments[transcriptionIndex].text)];
      if |result| > 0 && result[|result| - 1].Transcription? {
        result := result[|result| - 1 := Transcription(result[|result| - 1].text + " " + segments[transcriptionIndex].text)];
      } else {
        result := result + [Transcription(segments[transcriptionIndex].text)];
      }
      transcriptionIndex := transcriptionIndex + 1;
    }

    while pasteIndex < |pasteSegments|
      invariant MergeProgress(segments, pasteSegments, transcriptionIndex, pasteIndex, done, result)
      invariant transcriptionIndex == |segments|
      decreases |pasteSegments| - pasteIndex
    {
      TakePasteStep(segments, pasteSegments, transcriptionIndex, pasteIndex, done, result);
      done := done + [Pasted(pasteIndex, pasteSegments[pasteIndex])];
      result := result + [Paste(pasteSegments[pasteIndex].text, pasteSegments[pasteIndex].timecodeInSeconds)];
      pasteIndex := pasteIndex + 1;
    }
    MergeFinished(segments, pasteSegments, transcriptionIndex, pasteIndex, done, result);
  }

  /** `formatTranscriptionWithPasteSegments`: without pastes, the service's
      whole text as the one element, verbatim; otherwise the merge. */
  method FormatTranscriptionWithPasteSegments(transcription: WhisperVerboseJson, pasteSegments: seq<PasteSegment>)
    returns (result: seq<Segment>)
    ensures pasteSegments == [] ==> result == [Transcription(transcription.text)]
    ensures pasteSegments != [] ==> result == Merge(transcription.segments, pasteSegments)
    ensures NoAdjacentTranscriptions(result)
    ensures PastesOf(result) == pasteSegments
  {
    if |pasteSegments| == 0 {
      result := [Transcription(transcription.text)];
      assert result[..0] == [];
    } else {
      result := MergeTranscriptionAndPasteSegments(transcription, pasteSegments);
    }
  }

  // ---------------------------------------------------------------------
  // Worked cases

  /** A paste in the same second as a segment's start goes first. */
  lemma MergeTieGoesToPaste(w: WhisperSegment, p: PasteSegment)
    requires Floor(p.timecodeInSeconds) as real == w.start
    ensures Merge([w], [p]) == [Paste(p.text, p.timecodeInSeconds), Transcription(w.text)]
  {
    MergeEarlierPasteFirst(w, p);
  }

  /** A paste whose whole seconds are not after a segment's start goes
      before that segment. */
  lemma MergeEarlierPasteFirst(w: WhisperSegment, p: PasteSegment)
    requires Floor(p.timecodeInSeconds) as real <= w.start
    ensures Merge([w], [p]) == [Paste(p.text, p.timecodeInSeconds), Transcription(w.text)]
  {
    var ws, ps := [w], [p];
    var x, a := Pasted(0, p), Spoken(0, w.text);
    assert !TakesSegment(ws, ps, 0, 0) && TakesSegment(ws, ps, 0, 1);
    InterleaveUnfold(ws, ps, 0, 0);
    InterleaveUnfold(ws, ps, 0, 1);
    InterleaveUnfold(ws, ps, 1, 1);
    assert Interleave(ws, ps, 0, 0) == [x] + [a];
    CoalesceSnoc([], x);
    assert [] + [x] == [x];
    CoalesceSnoc([x], a);
  }

  /** Two segments that start before a paste's whole seconds become one
      transcription element, their texts joined by a space, then the paste. */
  lemma MergeCoalescesBeforePaste(w1: WhisperSegment, w2: WhisperSegment, p: PasteSegment)
    requires w1.start < Floor(p.timecodeInSeconds) as real && w2.start < Floor(p.timecodeInSeconds) as real
    ensures Merge([w1, w2], [p]) == [Transcription(w1.text + " " + w2.text), Paste(p.text, p.timecodeInSeconds)]
  {
    var ws, ps := [w1, w2], [p];
    var a, b, x := Spoken(0, w1.text), Spoken(1, w2.text), Pasted(0, p);
    assert TakesSegment(ws, ps, 0, 0) && TakesSegment(ws, ps, 1, 0) && !TakesSegment(ws, ps, 2, 0);
    InterleaveUnfold(ws, ps, 0, 0);
    InterleaveUnfold(ws, ps, 1, 0);
    InterleaveUnfold(ws, ps, 2, 0);
    InterleaveUnfold(ws, ps, 2, 1);
    assert Interleave(ws, ps, 0, 0) == [a, b] + [x];
    CoalesceTwoSpoken(a, b);
    CoalesceSnoc([a, b], x);
  }

  /** Helper: two spoken steps in a row compose to one transcription element. */
  lemma CoalesceTwoSpoken(a: Event, b: Event)
    requires a.Spoken? && b.Spoken?
    ensures Coalesce([a, b]) == [Transcription(a.text + " " + b.text)]
  {
    CoalesceOneSpoken(a);
    CoalesceSnoc([a], b);
    assert [a] + [b] == [a, b];
  }

  /** Helper: a single spoken step is one transcription element. */
  lemma CoalesceOneSpoken(a: Event)
    requires a.Spoken?
    ensures Coalesce([a]) == [Transcription(a.text)]
  {
    CoalesceSnoc([], a);
    assert [] + [a] == [a];
  }
}
