/** A SubRip (.srt) reader: blank-line separated blocks, each made of an
    index line, a `HH:MM:SS,mmm --> HH:MM:SS,mmm` line and the subtitle text.
    The regular expressions of the reader are written out as character-level
    recognisers; a thrown error is an `Err`. */
module Subtitle {
  import opened Wrappers
  import opened Text

  datatype SubtitleTime = SubtitleTime(hour: nat, minute: nat, second: nat, millisecond: nat)

  datatype Subtitle = Subtitle(startTimecode: SubtitleTime, endTimecode: SubtitleTime, text: string)

  /** The reader's three error messages. */
  datatype SubtitleError = InvalidTimecode | InvalidNumber | InvalidBlockFormat

  // ---------------------------------------------------------------------
  // Digits

  /** The number of ASCII digits at the start of `s`. */
  function LeadingDigitCount(s: string): (n: nat)
    ensures n <= |s| && AllDigits(s[..n])
    ensures n < |s| ==> !IsDigit(s[n])
    decreases |s|
  {
    if s != [] && IsDigit(s[0]) then
      var n := 1 + LeadingDigitCount(s[1..]);
      assert s[..n] == [s[0]] + s[1..][..n - 1];
      n
    else 0
  }

  /** The digit count stops at the first non-digit after a run of digits. */
  lemma {:induction false} LeadingDigitCountOfConcat(digits: string, rest: string)
    requires AllDigits(digits)
    requires rest == [] || !IsDigit(rest[0])
    ensures LeadingDigitCount(digits + rest) == |digits|
    decreases |digits|
  {
    if digits != [] {
      assert (digits + rest)[1..] == digits[1..] + rest;
      LeadingDigitCountOfConcat(digits[1..], rest);
    } else {
      assert digits + rest == rest;
    }
  }

  /** `parseInt(s, 10)` on a string without leading white space or sign: the
      value of the leading digits, or NaN (`None`) when there are none. */
  function ParseInt(s: string): (r: Option<nat>)
    ensures r.None? <==> s == [] || !IsDigit(s[0])
  {
    var n := LeadingDigitCount(s);
    if n == 0 then None else Some(DigitsValue(s[..n]))
  }

  function Pow10(n: nat): (p: nat)
    ensures p >= 1
  {
    if n == 0 then 1 else 10 * Pow10(n - 1)
  }

  /** A digit string of length w is worth less than 10^w. */
  lemma {:induction false} DigitsValueBound(s: string)
    requires AllDigits(s)
    ensures DigitsValue(s) < Pow10(|s|)
    decreases |s|
  {
    if s != [] {
      DigitsValueBound(s[..|s| - 1]);
    }
  }

  // ---------------------------------------------------------------------
  // Timecodes

  /** `^\d{2}:\d{2}:\d{2},\d{3}$`: exactly twelve characters. */
  predicate IsTimecodeShape(s: string) {
    && |s| == 12
    && IsDigit(s[0]) && IsDigit(s[1]) && s[2] == ':'
    && IsDigit(s[3]) && IsDigit(s[4]) && s[5] == ':'
    && IsDigit(s[6]) && IsDigit(s[7]) && s[8] == ','
    && IsDigit(s[9]) && IsDigit(s[10]) && IsDigit(s[11])
  }

  /** `parseTimecode`: the shape is checked, then each field is read with
      `parseInt`; a field that reads as NaN is an `InvalidNumber` error. */
  function ParseTimecode(s: string): (r: Result<SubtitleTime, SubtitleError>)
    ensures r.Ok? <==> IsTimecodeShape(s)
    ensures r.Err? ==> r.error == InvalidTimecode
  {
    if !IsTimecodeShape(s) then Err(InvalidTimecode)
    else
      var hour, minute, second, millisecond := ParseInt(s[0..2]), ParseInt(s[3..5]), ParseInt(s[6..8]), ParseInt(s[9..12]);
      if hour.None? || minute.None? || second.None? || millisecond.None? then Err(InvalidNumber)
      else Ok(SubtitleTime(hour.value, minute.value, second.value, millisecond.value))
  }

  /** Each field of a timecode that is read is the decimal value of its
      digits, so hours, minutes and seconds are at most 99 and milliseconds
      at most 999, with no further range check. */
  lemma ParseTimecodeSpec(s: string)
    ensures ParseTimecode(s).Ok? ==>
              var t := ParseTimecode(s).value;
              && t.hour == DigitsValue(s[0..2]) && t.minute == DigitsValue(s[3..5])
              && t.second == DigitsValue(s[6..8]) && t.millisecond == DigitsValue(s[9..12])
              && t.hour <= 99 && t.minute <= 99 && t.second <= 99 && t.millisecond <= 999
  {
    if IsTimecodeShape(s) {
      assert LeadingDigitCount(s[0..2]) == 2 by { LeadingDigitCountOfConcat(s[0..2], []); assert s[0..2] + [] == s[0..2]; }
      assert LeadingDigitCount(s[3..5]) == 2 by { LeadingDigitCountOfConcat(s[3..5], []); assert s[3..5] + [] == s[3..5]; }
      assert LeadingDigitCount(s[6..8]) == 2 by { LeadingDigitCountOfConcat(s[6..8], []); assert s[6..8] + [] == s[6..8]; }
      assert LeadingDigitCount(s[9..12]) == 3 by { LeadingDigitCountOfConcat(s[9..12], []); assert s[9..12] + [] == s[9..12]; }
      assert s[0..2][..2] == s[0..2] && s[3..5][..2] == s[3..5] && s[6..8][..2] == s[6..8] && s[9..12][..3] == s[9..12];
      DigitsValueBound(s[0..2]);
      DigitsValueBound(s[3..5]);
      DigitsValueBound(s[6..8]);
      DigitsValueBound(s[9..12]);
    }
  }

  /** A timecode of the reader's test file reads as 24.4 seconds. */
  lemma ParseTimecodeExample()
    ensures ParseTimecode("00:00:24,400") == Ok(SubtitleTime(0, 0, 24, 400))
  {
    ParseFormattedTimecode(SubtitleTime(0, 0, 24, 400));
    RenderedExample();
  }

  /** A minute field of 75 is accepted: no range check rejects it. */
  lemma ParseTimecodeOutOfRangeMinutes()
    ensures ParseTimecode("00:75:00,000") == Ok(SubtitleTime(0, 75, 0, 0))
  {
    ParseFormattedTimecode(SubtitleTime(0, 75, 0, 0));
    RenderedExample();
  }

  /** Helper: the renderings of the two example times. */
  lemma RenderedExample()
    ensures FormatSubtitleTime(SubtitleTime(0, 0, 24, 400)) == "00:00:24,400"
    ensures FormatSubtitleTime(SubtitleTime(0, 75, 0, 0)) == "00:75:00,000"
  {
    ExampleDigits();
    var zero, twentyFour, seventyFive := FixedDigits(0, 2), FixedDigits(24, 2), FixedDigits(75, 2);
    var fourHundred, noMillis := FixedDigits(400, 3), FixedDigits(0, 3);
    assert zero + ":" + zero + ":" + twentyFour + "," + fourHundred == "00:00:24,400";
    assert zero + ":" + seventyFive + ":" + zero + "," + noMillis == "00:75:00,000";
  }

  /** Helper: the fixed-width digits of the example fields. */
  lemma ExampleDigits()
    ensures FixedDigits(0, 2) == "00" && FixedDigits(24, 2) == "24" && FixedDigits(75, 2) == "75"
    ensures FixedDigits(400, 3) == "400" && FixedDigits(0, 3) == "000"
  {
    TwoDigits(0, 0, 0);
    TwoDigits(24, 2, 4);
    TwoDigits(75, 7, 5);
    ThreeDigits(400, 4, 0, 0);
    ThreeDigits(0, 0, 0, 0);
  }

  /** Helper: two fixed digits are the tens and the units. */
  lemma TwoDigits(n: nat, tens: nat, units: nat)
    requires tens < 10 && units < 10 && n == 10 * tens + units
    ensures FixedDigits(n, 2) == [DigitChar(tens), DigitChar(units)]
  {
    assert n / 10 == tens && n % 10 == units;
    assert FixedDigits(tens, 1) == FixedDigits(0, 0) + [DigitChar(tens)];
  }

  /** Helper: three fixed digits are the hundreds, the tens and the units. */
  lemma ThreeDigits(n: nat, hundreds: nat, tens: nat, units: nat)
    requires hundreds < 10 && tens < 10 && units < 10 && n == 100 * hundreds + 10 * tens + units
    ensures FixedDigits(n, 3) == [DigitChar(hundreds), DigitChar(tens), DigitChar(units)]
  {
    assert n / 10 == 10 * hundreds + tens && n % 10 == units;
    TwoDigits(n / 10, hundreds, tens);
  }

  /** `n` written with exactly `width` digits, zero-padded on the left
      (digits above that width are dropped). */
  function FixedDigits(n: nat, width: nat): (s: string)
    ensures |s| == width && AllDigits(s)
    decreases width
  {
    if width == 0 then "" else FixedDigits(n / 10, width - 1) + [DigitChar(n % 10)]
  }

  /** Reading back fixed-width digits gives the number modulo 10^width. */
  lemma {:induction false} FixedDigitsValue(n: nat, width: nat)
    ensures DigitsValue(FixedDigits(n, width)) == n % Pow10(width)
    decreases width
  {
    if width > 0 {
      var s := FixedDigits(n, width);
      assert s[..|s| - 1] == FixedDigits(n / 10, width - 1);
      FixedDigitsValue(n / 10, width - 1);
      ModStep(n, Pow10(width - 1));
    }
  }

  /** (n / 10) % p * 10 + n % 10 == n % (10 * p). */
  lemma ModStep(n: nat, p: nat)
    requires p >= 1
    ensures (n / 10) % p * 10 + n % 10 == n % (10 * p)
  {
    var q := n / 10;
    var r := n % 10;
    var a := q / p;
    var b := q % p;
    assert n == 10 * q + r;
    assert q == p * a + b;
    assert 10 * q == (10 * p) * a + 10 * b by {
      assert 10 * (p * a + b) == (10 * p) * a + 10 * b;
    }
    assert b * 10 + r < 10 * p by {
      assert b <= p - 1;
      assert b * 10 <= (p - 1) * 10;
    }
    ModUnique(n, 10 * p, a, b * 10 + r);
  }

  /** The remainder is the unique one below the divisor. */
  lemma ModUnique(n: int, d: int, a: int, c: int)
    requires d > 0 && 0 <= c < d && n == d * a + c
    ensures n % d == c
  {
    var a', c' := n / d, n % d;
    assert d * (a - a') == c' - c;
    if a > a' {
      MulAtLeast(d, a - a');
    } else if a < a' {
      MulAtLeast(d, a' - a);
    }
  }

  lemma MulAtLeast(d: int, k: int)
    requires d > 0 && k >= 1
    ensures d * k >= d
  {
    assert d * k == d * (k - 1) + d;
  }

  /** Writing the digits of a digit string's value back at the same width
      gives the string back. */
  lemma {:induction false} FixedDigitsOfValue(s: string)
    requires AllDigits(s)
    ensures FixedDigits(DigitsValue(s), |s|) == s
    decreases |s|
  {
    if s != [] {
      var front := s[..|s| - 1];
      FixedDigitsOfValue(front);
      var v := DigitsValue(s);
      assert v / 10 == DigitsValue(front) && v % 10 == DigitValue(s[|s| - 1]);
      assert s == front + [s[|s| - 1]];
    }
  }

  /** The SubRip rendering of a time, `HH:MM:SS,mmm`. */
  function FormatSubtitleTime(t: SubtitleTime): (s: string)
    ensures IsTimecodeShape(s)
  {
    FixedDigits(t.hour, 2) + ":" + FixedDigits(t.minute, 2) + ":" + FixedDigits(t.second, 2) + "," + FixedDigits(t.millisecond, 3)
  }

  predicate InRange(t: SubtitleTime) {
    t.hour < 100 && t.minute < 100 && t.second < 100 && t.millisecond < 1000
  }

  /** Every time with fields in range is read back from its rendering. */
  lemma ParseFormattedTimecode(t: SubtitleTime)
    requires InRange(t)
    ensures ParseTimecode(FormatSubtitleTime(t)) == Ok(t)
  {
    var s := FormatSubtitleTime(t);
    ParseTimecodeSpec(s);
    FormattedFields(t);
    FixedDigitsInRange(t.hour, 2);
    FixedDigitsInRange(t.minute, 2);
    FixedDigitsInRange(t.second, 2);
    FixedDigitsInRange(t.millisecond, 3);
  }

  /** A number below 10^width is read back from its fixed-width digits. */
  lemma FixedDigitsInRange(n: nat, width: nat)
    requires n < Pow10(width)
    ensures DigitsValue(FixedDigits(n, width)) == n
  {
    FixedDigitsValue(n, width);
  }

  /** Where each field sits in a rendered time. */
  lemma FormattedFields(t: SubtitleTime)
    ensures var s := FormatSubtitleTime(t);
            && s[0..2] == FixedDigits(t.hour, 2) && s[3..5] == FixedDigits(t.minute, 2)
            && s[6..8] == FixedDigits(t.second, 2) && s[9..12] == FixedDigits(t.millisecond, 3)
  {
    FieldSlices(FixedDigits(t.hour, 2), FixedDigits(t.minute, 2), FixedDigits(t.second, 2), FixedDigits(t.millisecond, 3));
  }

  /** Helper: the slices of four fields joined by the timecode punctuation. */
  lemma FieldSlices(h: string, m: string, sec: string, ms: string)
    requires |h| == 2 && |m| == 2 && |sec| == 2 && |ms| == 3
    ensures var s := h + ":" + m + ":" + sec + "," + ms;
            s[0..2] == h && s[3..5] == m && s[6..8] == sec && s[9..12] == ms
  {
  }

  /** Every accepted timecode is the rendering of what is read from it. */
  lemma FormatParsedTimecode(s: string)
    requires IsTimecodeShape(s)
    ensures ParseTimecode(s).Ok? && FormatSubtitleTime(ParseTimecode(s).value) == s
  {
    ParseTimecodeSpec(s);
    FixedDigitsOfValue(s[0..2]);
    FixedDigitsOfValue(s[3..5]);
    FixedDigitsOfValue(s[6..8]);
    FixedDigitsOfValue(s[9..12]);
    assert s == s[0..2] + ":" + s[3..5] + ":" + s[6..8] + "," + s[9..12];
  }

  // ---------------------------------------------------------------------
  // Blocks

  const Arrow: string := " --> "

  /** `^(\d+)\n(TC) --> (TC)\n([\s\S]+)$`, TC being the timecode shape:
      an index of one or more digits, a newline, the two timecodes around the
      arrow, a newline, and at least one more character. The digit run must
      be followed by the newline, so the index is its whole leading run. */
  predicate IsBlockShape(block: string) {
    var n := LeadingDigitCount(block);
    && n >= 1 && |block| >= n + 32
    && block[n] == '\n'
    && IsTimecodeShape(block[n + 1..n + 13])
    && block[n + 13..n + 18] == Arrow
    && IsTimecodeShape(block[n + 18..n + 30])
    && block[n + 30] == '\n'
  }

  /** `blockToSubtitle`: the index is matched and discarded, both timecodes
      are read, and the text is trimmed. The block pattern already requires
      both timecode shapes, so the timecode errors are never raised here. */
  function BlockToSubtitle(block: string): (r: Result<Subtitle, SubtitleError>)
    ensures r.Ok? <==> IsBlockShape(block)
    ensures r.Err? ==> r.error == InvalidBlockFormat
  {
    if !IsBlockShape(block) then Err(InvalidBlockFormat)
    else
      var n := LeadingDigitCount(block);
      var start := ParseTimecode(block[n + 1..n + 13]);
      if start.Err? then Err(InvalidTimecode)
      else
        var end := ParseTimecode(block[n + 18..n + 30]);
        if end.Err? then Err(InvalidTimecode)
        else Ok(Subtitle(start.value, end.value, Trim(block[n + 31..])))
  }

  /** A block that is read is an index of digits, a newline, the renderings
      of the two times around the arrow, a newline and a non-empty rest
      whose trimmed form is the text. */
  lemma BlockDecomposition(block: string)
    requires BlockToSubtitle(block).Ok?
    ensures var n := LeadingDigitCount(block);
            var sub := BlockToSubtitle(block).value;
            && n >= 1 && |block| >= n + 32 && AllDigits(block[..n])
            && block == block[..n] + "\n" + FormatSubtitleTime(sub.startTimecode) + Arrow
                        + FormatSubtitleTime(sub.endTimecode) + "\n" + block[n + 31..]
            && sub.text == Trim(block[n + 31..])
  {
    var n := LeadingDigitCount(block);
    var a, b := block[n + 1..n + 13], block[n + 18..n + 30];
    var sub := BlockToSubtitle(block).value;
    BlockFields(block, n, a, b, sub);
    FormatParsedTimecode(a);
    FormatParsedTimecode(b);
    var start, end := FormatSubtitleTime(sub.startTimecode), FormatSubtitleTime(sub.endTimecode);
    assert start == a && end == b;
    HeaderRecompose(block, n);
  }

  /** Helper: the fields of a block that is read come from its slices. */
  lemma BlockFields(block: string, n: nat, a: string, b: string, sub: Subtitle)
    requires BlockToSubtitle(block).Ok? && sub == BlockToSubtitle(block).value
    requires n == LeadingDigitCount(block) && |block| >= n + 30
    requires a == block[n + 1..n + 13] && b == block[n + 18..n + 30]
    ensures IsBlockShape(block) && IsTimecodeShape(a) && IsTimecodeShape(b)
    ensures ParseTimecode(a) == Ok(sub.startTimecode) && ParseTimecode(b) == Ok(sub.endTimecode)
    ensures sub.text == Trim(block[n + 31..])
  {
  }

  /** A string with the block's punctuation in place is the concatenation of
      its pieces. */
  lemma HeaderRecompose(block: string, n: nat)
    requires |block| >= n + 31 && block[n] == '\n' && block[n + 13..n + 18] == Arrow && block[n + 30] == '\n'
    ensures block == block[..n] + "\n" + block[n + 1..n + 13] + Arrow + block[n + 18..n + 30] + "\n" + block[n + 31..]
  {
  }

  /** Where the pieces of a block sit. */
  lemma HeaderSlices(index: string, a: string, b: string, rest: string)
    requires |a| == 12 && |b| == 12
    ensures var block := index + "\n" + a + Arrow + b + "\n" + rest;
            var n := |index|;
            && |block| == n + 31 + |rest|
            && block == index + block[n..] && block[n] == '\n'
            && block[n + 1..n + 13] == a && block[n + 13..n + 18] == Arrow
            && block[n + 18..n + 30] == b && block[n + 30] == '\n' && block[n + 31..] == rest
  {
    var block := index + "\n" + a + Arrow + b + "\n" + rest;
    var n := |index|;
    assert block[..n] == index;
  }

  /** Every string made of a digit index, a newline, two rendered times
      around the arrow, a newline and a non-empty rest is read as a block,
      whatever the index, with the rest trimmed as its text. */
  lemma BlockOfParts(index: string, start: SubtitleTime, end: SubtitleTime, rest: string)
    requires index != [] && AllDigits(index)
    requires InRange(start) && InRange(end) && rest != []
    ensures BlockToSubtitle(index + "\n" + FormatSubtitleTime(start) + Arrow + FormatSubtitleTime(end) + "\n" + rest)
         == Ok(Subtitle(start, end, Trim(rest)))
  {
    var a, b := FormatSubtitleTime(start), FormatSubtitleTime(end);
    var block := index + "\n" + a + Arrow + b + "\n" + rest;
    var n := |index|;
    HeaderSlices(index, a, b, rest);
    LeadingDigitCountOfConcat(index, block[n..]);
    ParseFormattedTimecode(start);
    ParseFormattedTimecode(end);
    assert IsBlockShape(block);
  }

  /** A block whose arrow is written `->` is rejected. */
  lemma ShortArrowRejected(index: string, start: string, end: string, rest: string)
    requires index != [] && AllDigits(index) && IsTimecodeShape(start) && IsTimecodeShape(end)
    ensures BlockToSubtitle(index + "\n" + start + " -> " + end + "\n" + rest) == Err(InvalidBlockFormat)
  {
    var tail := "\n" + start + " -> " + end + "\n" + rest;
    var block := index + tail;
    assert block == index + "\n" + start + " -> " + end + "\n" + rest;
    LeadingDigitCountOfConcat(index, tail);
    var n := |index|;
    if |block| >= n + 32 {
      assert block[n + 15] == '>';
      assert block[n + 13..n + 18][2] != Arrow[2];
    }
  }

  /** A block with Windows line endings is rejected: the index must be
      followed by a bare newline. */
  lemma CarriageReturnRejected(index: string, rest: string)
    requires AllDigits(index)
    ensures BlockToSubtitle(index + "\r\n" + rest) == Err(InvalidBlockFormat)
  {
    var tail := "\r\n" + rest;
    assert index + "\r\n" + rest == index + tail;
    LeadingDigitCountOfConcat(index, tail);
  }

  // ---------------------------------------------------------------------
  // Whole files

  const BlockSeparator: string := "\n\n"

  /** `blocks.map(blockToSubtitle)` before any error is raised: the outcome
      for each block, in order. */
  function BlockResults(blocks: seq<string>): (results: seq<Result<Subtitle, SubtitleError>>)
    ensures |results| == |blocks| && forall k :: 0 <= k < |blocks| ==> results[k] == BlockToSubtitle(blocks[k])
  {
    seq(|blocks|, k requires 0 <= k < |blocks| => BlockToSubtitle(blocks[k]))
  }

  /** The mapped outcomes as `map` delivers them: the first error is thrown,
      otherwise all values are returned in order. */
  function CollectResults(results: seq<Result<Subtitle, SubtitleError>>): (r: Result<seq<Subtitle>, SubtitleError>)
    ensures r.Ok? ==> |r.value| == |results|
    decreases |results|
  {
    if results == [] then Ok([])
    else if results[0].Err? then Err(results[0].error)
    else
      var rest := CollectResults(results[1..]);
      if rest.Err? then Err(rest.error) else Ok([results[0].value] + rest.value)
  }

  /** Collecting succeeds exactly when every outcome does, and then yields
      their values in order; otherwise it fails with the first error. */
  lemma {:induction false} CollectResultsSpec(results: seq<Result<Subtitle, SubtitleError>>)
    ensures CollectResults(results).Ok? <==> forall k :: 0 <= k < |results| ==> results[k].Ok?
    ensures CollectResults(results).Ok? ==> forall k :: 0 <= k < |results| ==> results[k] == Ok(CollectResults(results).value[k])
    ensures CollectResults(results).Err? ==>
              exists k :: 0 <= k < |results| && results[k] == Err(CollectResults(results).error)
                          && forall j :: 0 <= j < k ==> results[j].Ok?
    decreases |results|
  {
    if results != [] {
      var tail := results[1..];
      CollectResultsSpec(tail);
      assert forall k :: 1 <= k < |results| ==> results[k] == tail[k - 1];
      var r := CollectResults(results);
      if results[0].Err? {
        assert results[0] == Err(r.error);
      } else if CollectResults(tail).Err? {
        var k :| 0 <= k < |tail| && tail[k] == Err(CollectResults(tail).error) && forall j :: 0 <= j < k ==> tail[j].Ok?;
        assert results[k + 1] == Err(r.error);
        assert forall j :: 0 <= j < k + 1 ==> results[j].Ok? by {
          forall j | 0 <= j < k + 1
            ensures results[j].Ok?
          {
            if j > 0 {
              assert results[j] == tail[j - 1];
            }
          }
        }
      } else {
        assert r.value == [results[0].value] + CollectResults(tail).value;
        forall k | 0 <= k < |results|
          ensures results[k] == Ok(r.value[k])
        {
          if k > 0 {
            assert results[k] == tail[k - 1];
          }
        }
      }
    }
  }

  /** `blocks.map(blockToSubtitle)`: every block is read in order, and the
      first block that cannot be read makes the whole read fail. */
  function ParseBlocks(blocks: seq<string>): (r: Result<seq<Subtitle>, SubtitleError>)
    ensures r.Ok? ==> |r.value| == |blocks|
  {
    CollectResults(BlockResults(blocks))
  }

  /** The blocks are read exactly when each one has the block shape; the
      reading is then the subtitle of each block, in order, and a failure is
      always `InvalidBlockFormat`. */
  lemma ParseBlocksSpec(blocks: seq<string>)
    ensures ParseBlocks(blocks).Ok? <==> AllBlocksWellFormed(blocks)
    ensures ParseBlocks(blocks).Ok? ==> forall k :: 0 <= k < |blocks| ==> BlockToSubtitle(blocks[k]) == Ok(ParseBlocks(blocks).value[k])
    ensures ParseBlocks(blocks).Err? ==> ParseBlocks(blocks).error == InvalidBlockFormat
  {
    var results := BlockResults(blocks);
    CollectResultsSpec(results);
  }

  /** `parseSubtitles`: the text is cut at every blank line and each block
      is read; one subtitle per block. */
  function ParseSubtitles(text: string): (r: Result<seq<Subtitle>, SubtitleError>)
    ensures r.Ok? ==> |r.value| == |Split(text, BlockSeparator)|
  {
    var blocks := Split(text, BlockSeparator);
    if |blocks| == 0 then Ok([]) else ParseBlocks(blocks)
  }

  /** An empty file is an error: it splits into one empty block. */
  lemma ParseSubtitlesEmpty()
    ensures ParseSubtitles("") == Err(InvalidBlockFormat)
  {
    assert Split("", BlockSeparator) == [""];
  }

  /** Every block of the list has the block shape. */
  predicate AllBlocksWellFormed(blocks: seq<string>) {
    forall k :: 0 <= k < |blocks| ==> IsBlockShape(blocks[k])
  }

  /** A file is read exactly when each of its blocks is; the reading is
      then the subtitles of the blocks, in order, and a failure is always
      `InvalidBlockFormat`. */
  lemma ParseSubtitlesSpec(text: string)
    ensures ParseSubtitles(text).Ok? <==> AllBlocksWellFormed(Split(text, BlockSeparator))
    ensures ParseSubtitles(text).Ok? ==>
              var blocks := Split(text, BlockSeparator);
              forall k :: 0 <= k < |blocks| ==> BlockToSubtitle(blocks[k]) == Ok(ParseSubtitles(text).value[k])
    ensures ParseSubtitles(text).Err? ==> ParseSubtitles(text).error == InvalidBlockFormat
  {
    var blocks := Split(text, BlockSeparator);
    assert ParseSubtitles(text) == ParseBlocks(blocks);
    ParseBlocksSpec(blocks);
  }

  // ---------------------------------------------------------------------
  // Rendering: the inverse of the reader

  /** No two consecutive newlines. */
  predicate NoBlankLine(s: string) {
    forall m :: 0 <= m < |s| - 1 ==> !(s[m] == '\n' && s[m + 1] == '\n')
  }

  /** A block that can stand between blank-line separators: non-empty, no
      blank line inside, and not ending in a newline. */
  predicate IsSeparable(block: string) {
    block != [] && NoBlankLine(block) && block[|block| - 1] != '\n'
  }

  /** Subtitle text that a render and a read keep as it is: non-empty,
      already trimmed, and without a blank line inside. */
  predicate IsCleanText(text: string) {
    text != [] && Trim(text) == text && NoBlankLine(text)
  }

  predicate IsRenderable(sub: Subtitle) {
    InRange(sub.startTimecode) && InRange(sub.endTimecode) && IsCleanText(sub.text)
  }

  /** The SubRip block for a subtitle with the given index. */
  function RenderBlock(index: nat, sub: Subtitle): string {
    NatToString(index) + "\n" + FormatSubtitleTime(sub.startTimecode) + Arrow
    + FormatSubtitleTime(sub.endTimecode) + "\n" + sub.text
  }

  /** The blocks of a file, numbered from 1. */
  function RenderedBlocks(subs: seq<Subtitle>): (blocks: seq<string>)
    ensures |blocks| == |subs| && forall k :: 0 <= k < |subs| ==> blocks[k] == RenderBlock(k + 1, subs[k])
  {
    seq(|subs|, k requires 0 <= k < |subs| => RenderBlock(k + 1, subs[k]))
  }

  /** A SubRip file: the blocks separated by blank lines. */
  function RenderSubtitles(subs: seq<Subtitle>): string {
    Join(RenderedBlocks(subs), BlockSeparator)
  }

  lemma NoBlankLineConcat(x: string, y: string)
    requires NoBlankLine(x) && NoBlankLine(y)
    requires x == [] || y == [] || x[|x| - 1] != '\n' || y[0] != '\n'
    ensures NoBlankLine(x + y)
  {
    var s := x + y;
    forall m | 0 <= m < |s| - 1
      ensures !(s[m] == '\n' && s[m + 1] == '\n')
    {
      if m + 1 < |x| {
        assert s[m] == x[m] && s[m + 1] == x[m + 1];
      } else if m >= |x| {
        assert s[m] == y[m - |x|] && s[m + 1] == y[m + 1 - |x|];
      } else {
        assert s[m] == x[|x| - 1] && s[m + 1] == y[0];
      }
    }
  }

  lemma TimecodeHasNoNewline(s: string)
    requires IsTimecodeShape(s)
    ensures forall k :: 0 <= k < |s| ==> s[k] != '\n'
  {
    forall k | 0 <= k < |s|
      ensures s[k] != '\n'
    {
      if k != 2 && k != 5 && k != 8 {
        assert IsDigit(s[k]);
      }
    }
  }

  /** A rendered block of a renderable subtitle reads back as the subtitle. */
  lemma RenderedBlockReads(index: nat, sub: Subtitle)
    requires IsRenderable(sub)
    ensures BlockToSubtitle(RenderBlock(index, sub)) == Ok(sub)
  {
    BlockOfParts(NatToString(index), sub.startTimecode, sub.endTimecode, sub.text);
  }

  /** A rendered block of a renderable subtitle can stand between blank-line
      separators. */
  lemma RenderedBlockSeparable(index: nat, sub: Subtitle)
    requires IsRenderable(sub)
    ensures IsSeparable(RenderBlock(index, sub))
  {
    var text := sub.text;
    var header := NatToString(index) + "\n" + FormatSubtitleTime(sub.startTimecode) + Arrow
                  + FormatSubtitleTime(sub.endTimecode) + "\n";
    HeaderHasNoBlankLine(NatToString(index), FormatSubtitleTime(sub.startTimecode), FormatSubtitleTime(sub.endTimecode));
    TrimIsInnerPiece(text);
    assert !IsJsWhitespace(text[0]) && !IsJsWhitespace(text[|text| - 1]);
    NoBlankLineConcat(header, text);
    assert RenderBlock(index, sub) == header + text;
  }

  /** The first two lines of a block hold no blank line. */
  lemma HeaderHasNoBlankLine(d: string, a: string, b: string)
    requires d != [] && AllDigits(d) && IsTimecodeShape(a) && IsTimecodeShape(b)
    ensures NoBlankLine(d + "\n" + a + Arrow + b + "\n")
  {
    TimecodeHasNoNewline(a);
    TimecodeHasNoNewline(b);
    assert forall k :: 0 <= k < |d| ==> IsDigit(d[k]);
    var x1 := d + "\n";
    NoBlankLineConcat(d, "\n");
    var x2 := x1 + a;
    NoBlankLineConcat(x1, a);
    var x3 := x2 + Arrow;
    NoBlankLineConcat(x2, Arrow);
    var x4 := x3 + b;
    NoBlankLineConcat(x3, b);
    NoBlankLineConcat(x4, "\n");
  }

  /** Separable blocks joined with blank lines split back into the same blocks. */
  lemma {:induction false} SplitJoinSeparable(blocks: seq<string>)
    requires blocks != [] && forall k :: 0 <= k < |blocks| ==> IsSeparable(blocks[k])
    ensures Split(Join(blocks, BlockSeparator), BlockSeparator) == blocks
    decreases |blocks|
  {
    var first := blocks[0];
    if |blocks| == 1 {
      forall m | 0 <= m <= |first|
        ensures !(BlockSeparator <= first[m..])
      {
        if m < |first| - 1 {
          assert first[m..][0] == first[m] && first[m..][1] == first[m + 1];
        }
      }
      SplitWithoutSeparator(first, BlockSeparator);
    } else {
      var rest := Join(blocks[1..], BlockSeparator);
      var whole := first + BlockSeparator + rest;
      forall m | 0 <= m < |first|
        ensures !(BlockSeparator <= whole[m..])
      {
        assert whole[m] == first[m];
        if m < |first| - 1 {
          assert whole[m + 1] == first[m + 1];
        }
      }
      SplitAfterPiece(first, BlockSeparator, rest);
      assert forall k :: 0 <= k < |blocks[1..]| ==> blocks[1..][k] == blocks[k + 1];
      SplitJoinSeparable(blocks[1..]);
      assert blocks == [first] + blocks[1..];
    }
  }

  /** Outcomes that are all successes collect to their values. */
  lemma CollectSuccesses(results: seq<Result<Subtitle, SubtitleError>>, subs: seq<Subtitle>)
    requires |results| == |subs| && forall k :: 0 <= k < |results| ==> results[k] == Ok(subs[k])
    ensures CollectResults(results) == Ok(subs)
  {
    CollectResultsSpec(results);
    var r := CollectResults(results);
    assert r.Ok?;
    assert forall k :: 0 <= k < |subs| ==> r.value[k] == subs[k];
  }

  /** Reading a rendered file gives back the subtitles, for any non-empty
      list of renderable subtitles. */
  lemma ParseRenderedSubtitles(subs: seq<Subtitle>)
    requires subs != [] && forall k :: 0 <= k < |subs| ==> IsRenderable(subs[k])
    ensures ParseSubtitles(RenderSubtitles(subs)) == Ok(subs)
  {
    var blocks := RenderedBlocks(subs);
    RenderedBlocksRead(subs, blocks);
    SplitJoinSeparable(blocks);
    var results := BlockResults(blocks);
    CollectSuccesses(results, subs);
    assert ParseSubtitles(RenderSubtitles(subs)) == ParseBlocks(blocks);
  }

  /** Helper: every rendered block is read back and can be split off. */
  lemma RenderedBlocksRead(subs: seq<Subtitle>, blocks: seq<string>)
    requires forall k :: 0 <= k < |subs| ==> IsRenderable(subs[k])
    requires blocks == RenderedBlocks(subs)
    ensures |blocks| == |subs|
    ensures forall k :: 0 <= k < |blocks| ==> BlockToSubtitle(blocks[k]) == Ok(subs[k]) && IsSeparable(blocks[k])
  {
    forall k | 0 <= k < |blocks|
      ensures BlockToSubtitle(blocks[k]) == Ok(subs[k]) && IsSeparable(blocks[k])
    {
      RenderedBlockFits(k + 1, subs[k], blocks[k]);
    }
  }

  lemma RenderedBlockFits(index: nat, sub: Subtitle, block: string)
    requires IsRenderable(sub) && block == RenderBlock(index, sub)
    ensures BlockToSubtitle(block) == Ok(sub) && IsSeparable(block)
  {
    RenderedBlockReads(index, sub);
    RenderedBlockSeparable(index, sub);
  }
}
