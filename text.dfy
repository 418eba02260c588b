/** The JavaScript string operations the core relies on, over `seq<char>`:
    `split` and `join` with a literal separator, `padStart`, `trim`, the
    decimal rendering of an integer (`toString`) and the value of a digit
    string (`parseInt` with radix 10). */
module Text {

  /** `s.split(sep)` for a non-empty literal separator: the string is cut at
      every occurrence of `sep`, found left to right without overlap. */
  function Split(s: string, sep: string): (parts: seq<string>)
    requires |sep| > 0
    ensures |parts| >= 1
    decreases |s|
  {
    if sep <= s then [""] + Split(s[|sep|..], sep)
    else if s == [] then [""]
    else
      var rest := Split(s[1..], sep);
      [[s[0]] + rest[0]] + rest[1..]
  }

  /** `parts.join(sep)`. */
  function Join(parts: seq<string>, sep: string): string
    decreases |parts|
  {
    if |parts| == 0 then ""
    else if |parts| == 1 then parts[0]
    else parts[0] + sep + Join(parts[1..], sep)
  }

  /** Joining one more part at the end adds one separator and the part. */
  lemma {:induction false} JoinAppend(parts: seq<string>, last: string, sep: string)
    ensures Join(parts + [last], sep) == if parts == [] then last else Join(parts, sep) + sep + last
    decreases |parts|
  {
    if |parts| > 1 {
      assert (parts + [last])[1..] == parts[1..] + [last];
      JoinAppend(parts[1..], last, sep);
    }
  }

  /** Joining two non-empty lists puts exactly one separator between them. */
  lemma {:induction false} JoinConcat(xs: seq<string>, ys: seq<string>, sep: string)
    requires xs != [] && ys != []
    ensures Join(xs + ys, sep) == Join(xs, sep) + sep + Join(ys, sep)
    decreases |xs|
  {
    assert (xs + ys)[0] == xs[0];
    if |xs| == 1 {
      assert (xs + ys)[1..] == ys;
    } else {
      assert (xs + ys)[1..] == xs[1..] + ys;
      JoinConcat(xs[1..], ys, sep);
    }
  }

  /** Splitting and joining again with the same separator gives the string back. */
  lemma {:induction false} JoinSplit(s: string, sep: string)
    requires |sep| > 0
    ensures Join(Split(s, sep), sep) == s
    decreases |s|
  {
    if sep <= s {
      JoinSplit(s[|sep|..], sep);
      JoinSplitAtSeparator(s, sep);
    } else if s != [] {
      JoinSplit(s[1..], sep);
      JoinSplitAtChar(s, sep);
    }
  }

  /** Helper for JoinSplit: the step over a leading separator. */
  lemma JoinSplitAtSeparator(s: string, sep: string)
    requires |sep| > 0 && sep <= s
    requires Join(Split(s[|sep|..], sep), sep) == s[|sep|..]
    ensures Join(Split(s, sep), sep) == s
  {
    var rest := s[|sep|..];
    var tail := Split(rest, sep);
    SplitAtSeparator(s, sep);
    JoinAfterSeparator(s, sep, rest, tail);
  }

  /** Helper for JoinSplit: the step over a leading character that does not
      start a separator. */
  lemma JoinSplitAtChar(s: string, sep: string)
    requires |sep| > 0 && !(sep <= s) && s != []
    requires Join(Split(s[1..], sep), sep) == s[1..]
    ensures Join(Split(s, sep), sep) == s
  {
    var rest := Split(s[1..], sep);
    SplitAtChar(s, sep);
    JoinAfterChar(s, sep, rest);
  }

  /** Helper for JoinSplit: an empty first piece and the pieces of the rest
      join back to the separator followed by the rest. */
  lemma JoinAfterSeparator(s: string, sep: string, rest: string, tail: seq<string>)
    requires |tail| >= 1 && Join(tail, sep) == rest && s == sep + rest
    ensures Join([""] + tail, sep) == s
  {
    JoinCons("", tail, sep);
    assert "" + sep + rest == s;
  }

  /** Helper for JoinSplit: gluing the first character onto the first piece
      of the rest joins back to that character followed by the rest. */
  lemma JoinAfterChar(s: string, sep: string, rest: seq<string>)
    requires s != [] && |rest| >= 1 && Join(rest, sep) == s[1..]
    ensures Join([[s[0]] + rest[0]] + rest[1..], sep) == s
  {
    var head, more := rest[0], rest[1..];
    var first := [s[0]] + head;
    if |rest| > 1 {
      assert rest == [head] + more;
      JoinCons(head, more, sep);
      JoinCons(first, more, sep);
      assert Join([first] + more, sep) == [s[0]] + (head + sep + Join(more, sep));
    } else {
      assert [first] + more == [first];
    }
    assert [s[0]] + s[1..] == s;
  }

  /** Helper: one unfolding of `Split` at an occurrence of the separator. */
  lemma SplitAtSeparator(s: string, sep: string)
    requires |sep| > 0 && sep <= s
    ensures Split(s, sep) == [""] + Split(s[|sep|..], sep)
  {
  }

  /** Helper: one unfolding of `Split` at an ordinary character. */
  lemma SplitAtChar(s: string, sep: string)
    requires |sep| > 0 && !(sep <= s) && s != []
    ensures Split(s, sep) == [[s[0]] + Split(s[1..], sep)[0]] + Split(s[1..], sep)[1..]
  {
  }

  /** Helper: one unfolding of `Join` in front of a non-empty list. */
  lemma JoinCons(first: string, tail: seq<string>, sep: string)
    requires |tail| >= 1
    ensures Join([first] + tail, sep) == first + sep + Join(tail, sep)
  {
    assert ([first] + tail)[1..] == tail;
  }

  /** No piece of a split contains the separator. */
  lemma {:induction false} SplitPiecesAvoidSeparator(s: string, sep: string)
    requires |sep| > 0
    ensures forall k, m :: 0 <= k < |Split(s, sep)| && 0 <= m <= |Split(s, sep)[k]| ==> !(sep <= Split(s, sep)[k][m..])
    decreases |s|
  {
    var parts := Split(s, sep);
    if sep <= s {
      SplitPiecesAvoidSeparator(s[|sep|..], sep);
      forall k, m | 0 <= k < |parts| && 0 <= m <= |parts[k]|
        ensures !(sep <= parts[k][m..])
      {
        if k > 0 {
          assert parts[k] == Split(s[|sep|..], sep)[k - 1];
        }
      }
    } else if s != [] {
      var rest := Split(s[1..], sep);
      SplitPiecesAvoidSeparator(s[1..], sep);
      forall k, m | 0 <= k < |parts| && 0 <= m <= |parts[k]|
        ensures !(sep <= parts[k][m..])
      {
        if k > 0 {
          assert parts[k] == rest[k];
        } else if m > 0 {
          assert parts[0][m..] == rest[0][m - 1..];
        } else {
          PrefixOfPrefix(sep, parts[0], s, rest[0], s[1..]);
        }
      }
    }
  }

  /** Helper: the first piece of a split of `s` is a prefix of `s`. */
  lemma {:induction false} FirstPieceIsPrefix(s: string, sep: string)
    requires |sep| > 0
    ensures Split(s, sep)[0] <= s
    decreases |s|
  {
    if !(sep <= s) && s != [] {
      FirstPieceIsPrefix(s[1..], sep);
    }
  }

  /** Helper for SplitPiecesAvoidSeparator: a separator that starts the first
      piece `[s[0]] + tail` (where `tail` is a prefix of `s[1..]`) also starts `s`. */
  lemma PrefixOfPrefix(sep: string, piece: string, s: string, tail: string, rest: string)
    requires |sep| > 0 && |s| > 0 && rest == s[1..] && piece == [s[0]] + tail
    requires tail == Split(rest, sep)[0]
    requires !(sep <= s)
    ensures !(sep <= piece)
  {
    FirstPieceIsPrefix(rest, sep);
    assert piece <= s;
  }

  /** Splitting on a single character: the first piece is the longest prefix
      free of that character, and there is exactly one piece exactly when the
      character does not occur. */
  lemma {:induction false} SplitOnChar(s: string, c: char)
    ensures Split(s, [c])[0] <= s
    ensures c !in Split(s, [c])[0]
    ensures |Split(s, [c])[0]| < |s| ==> s[|Split(s, [c])[0]|] == c
    ensures |Split(s, [c])| == 1 <==> c !in s
    decreases |s|
  {
    if [c] <= s {
      assert s[0] == c;
    } else if s != [] {
      SplitOnChar(s[1..], c);
      assert s == [s[0]] + s[1..];
    }
  }

  /** A string in which the separator never starts is a single piece. */
  lemma {:induction false} SplitWithoutSeparator(s: string, sep: string)
    requires |sep| > 0
    requires forall m :: 0 <= m <= |s| ==> !(sep <= s[m..])
    ensures Split(s, sep) == [s]
    decreases |s|
  {
    if s != [] {
      assert !(sep <= s[0..]) by { assert s[0..] == s; }
      assert forall m :: 0 <= m <= |s[1..]| ==> s[1..][m..] == s[m + 1..];
      SplitWithoutSeparator(s[1..], sep);
      assert s == [s[0]] + s[1..];
    }
  }

  /** When the separator does not start anywhere inside `piece`, splitting
      `piece + sep + rest` cuts off exactly `piece`. */
  lemma {:induction false} SplitAfterPiece(piece: string, sep: string, rest: string)
    requires |sep| > 0
    requires forall m :: 0 <= m < |piece| ==> !(sep <= (piece + sep + rest)[m..])
    ensures Split(piece + sep + rest, sep) == [piece] + Split(rest, sep)
    decreases |piece|
  {
    var s := piece + sep + rest;
    if piece == [] {
      assert s == sep + rest;
      assert s[|sep|..] == rest;
    } else {
      var s' := piece[1..] + sep + rest;
      assert s[1..] == s';
      assert !(sep <= s) by { assert s[0..] == s; }
      forall m | 0 <= m < |piece[1..]|
        ensures !(sep <= s'[m..])
      {
        assert s'[m..] == s[m + 1..];
      }
      SplitAfterPiece(piece[1..], sep, rest);
      var tail := Split(s', sep);
      assert Split(s, sep) == [[s[0]] + tail[0]] + tail[1..];
      assert [s[0]] + piece[1..] == piece;
    }
  }

  // ---------------------------------------------------------------------
  // Decimal digits

  predicate IsDigit(ch: char) {
    '0' <= ch <= '9'
  }

  predicate AllDigits(s: string) {
    forall k :: 0 <= k < |s| ==> IsDigit(s[k])
  }

  function DigitChar(d: nat): (ch: char)
    requires d < 10
    ensures IsDigit(ch)
  {
    (48 + d) as char
  }

  function DigitValue(ch: char): (d: nat)
    requires IsDigit(ch)
    ensures d < 10
  {
    ch as int - 48
  }

  /** `n.toString()` for a non-negative integer. */
  function NatToString(n: nat): (s: string)
    ensures |s| >= 1 && AllDigits(s)
    decreases n
  {
    if n < 10 then [DigitChar(n)] else NatToString(n / 10) + [DigitChar(n % 10)]
  }

  /** `i.toString()` for any integer: a minus sign, then the digits. */
  function IntToString(i: int): string {
    if i < 0 then "-" + NatToString(-i) else NatToString(i)
  }

  /** The decimal value of a string of digits (`parseInt(s, 10)` on such a string). */
  function DigitsValue(s: string): nat
    requires AllDigits(s)
    decreases |s|
  {
    if s == [] then 0 else DigitsValue(s[..|s| - 1]) * 10 + DigitValue(s[|s| - 1])
  }

  /** Reading back the decimal rendering of `n` gives `n`. */
  lemma {:induction false} NatToStringRoundTrip(n: nat)
    ensures DigitsValue(NatToString(n)) == n
    decreases n
  {
    if n >= 10 {
      NatToStringRoundTrip(n / 10);
      var s := NatToString(n);
      assert s[..|s| - 1] == NatToString(n / 10);
    }
  }

  /** One digit below ten, two digits from ten to ninety-nine. */
  lemma NatToStringLength(n: nat)
    ensures n < 10 ==> |NatToString(n)| == 1
    ensures 10 <= n < 100 ==> |NatToString(n)| == 2
  {
  }

  // ---------------------------------------------------------------------
  // Padding and trimming

  function Repeat(c: char, n: nat): (s: string)
    ensures |s| == n && forall k :: 0 <= k < n ==> s[k] == c
  {
    seq(n, _ => c)
  }

  /** `s.padStart(width, c)` with a one-character filler. */
  function PadStart(s: string, width: nat, c: char): (r: string)
    ensures |r| == if |s| >= width then |s| else width
    ensures r[|r| - |s|..] == s
    ensures forall k :: 0 <= k < |r| - |s| ==> r[k] == c
  {
    if |s| >= width then s else Repeat(c, width - |s|) + s
  }

  /** The characters `String.prototype.trim` removes: white space and line
      terminators of ECMAScript. */
  predicate IsJsWhitespace(ch: char) {
    ch == '\t' || ch == '\n' || ch == '\U{B}' || ch == '\U{C}' || ch == '\r' || ch == ' '
    || ch == '\U{A0}' || ch == '\U{1680}' || ('\U{2000}' <= ch <= '\U{200A}')
    || ch == '\U{2028}' || ch == '\U{2029}' || ch == '\U{202F}' || ch == '\U{205F}'
    || ch == '\U{3000}' || ch == '\U{FEFF}'
  }

  function TrimStart(s: string): (r: string)
    ensures r == [] || !IsJsWhitespace(r[0])
    ensures |r| <= |s| && r == s[|s| - |r|..]
    ensures forall k :: 0 <= k < |s| - |r| ==> IsJsWhitespace(s[k])
    decreases |s|
  {
    if s != [] && IsJsWhitespace(s[0]) then TrimStart(s[1..]) else s
  }

  function TrimEnd(s: string): (r: string)
    ensures r == [] || !IsJsWhitespace(r[|r| - 1])
    ensures |r| <= |s| && r == s[..|r|]
    ensures forall k :: |r| <= k < |s| ==> IsJsWhitespace(s[k])
    decreases |s|
  {
    if s != [] && IsJsWhitespace(s[|s| - 1]) then TrimEnd(s[..|s| - 1]) else s
  }

  /** `s.trim()`: drops white space at both ends and nothing else. */
  function Trim(s: string): string {
    TrimEnd(TrimStart(s))
  }

  /** The trimmed string is a contiguous piece of the input, everything cut
      away is white space, and the piece neither starts nor ends with white
      space: characters inside, newlines included, are kept as they were. */
  lemma TrimIsInnerPiece(s: string)
    ensures exists a, b :: (0 <= a <= b <= |s| && Trim(s) == s[a..b]
                            && (forall k :: 0 <= k < a ==> IsJsWhitespace(s[k]))
                            && (forall k :: b <= k < |s| ==> IsJsWhitespace(s[k])))
    ensures Trim(s) == [] || (!IsJsWhitespace(Trim(s)[0]) && !IsJsWhitespace(Trim(s)[|Trim(s)| - 1]))
  {
    InnerPiece(s, TrimStart(s), Trim(s));
    TrimEnds(TrimStart(s), Trim(s));
  }

  /** Helper: trimming the end of a string that does not start with white
      space leaves a string that starts and ends with none. */
  lemma TrimEnds(t: string, r: string)
    requires t == [] || !IsJsWhitespace(t[0])
    requires r == [] || !IsJsWhitespace(r[|r| - 1])
    requires |r| <= |t| && r == t[..|r|]
    ensures r == [] || (!IsJsWhitespace(r[0]) && !IsJsWhitespace(r[|r| - 1]))
  {
    if r != [] {
      assert r[0] == t[0];
    }
  }

  /** Helper: a prefix `r` of a suffix `t` of `s`, where what the suffix
      drops and what the prefix drops is white space, is an inner piece. */
  lemma InnerPiece(s: string, t: string, r: string)
    requires |t| <= |s| && t == s[|s| - |t|..] && forall k :: 0 <= k < |s| - |t| ==> IsJsWhitespace(s[k])
    requires |r| <= |t| && r == t[..|r|] && forall k :: |r| <= k < |t| ==> IsJsWhitespace(t[k])
    ensures exists a, b :: (0 <= a <= b <= |s| && r == s[a..b]
                            && (forall k :: 0 <= k < a ==> IsJsWhitespace(s[k]))
                            && (forall k :: b <= k < |s| ==> IsJsWhitespace(s[k])))
  {
    var a := |s| - |t|;
    var b := a + |r|;
    assert r == s[a..b];
    forall k | b <= k < |s|
      ensures IsJsWhitespace(s[k])
    {
      assert s[k] == t[k - a];
    }
  }

  // ---------------------------------------------------------------------
  // UTF-16

  /** A UTF-16 code unit: JavaScript strings are sequences of these, and
      their `length` and `slice` count and cut them. */
  newtype CodeUnit = x: int | 0 <= x < 0x1_0000

  /** The UTF-16 encoding of one character: one unit inside the Basic
      Multilingual Plane, a high and a low surrogate outside it. */
  function CharUnits(c: char): (u: seq<CodeUnit>)
    ensures |u| == if c as int < 0x1_0000 then 1 else 2
    ensures c as int < 0x1_0000 ==> u[0] as int == c as int
    ensures c as int >= 0x1_0000 ==> 0xD800 <= u[0] as int < 0xDC00 <= u[1] as int < 0xE000
  {
    var v := c as int;
    if v < 0x1_0000 then [v as CodeUnit]
    else [(0xD800 + (v - 0x1_0000) / 0x400) as CodeUnit, (0xDC00 + (v - 0x1_0000) % 0x400) as CodeUnit]
  }

  /** The UTF-16 form of a string, character by character. */
  function Utf16(s: string): (u: seq<CodeUnit>)
    ensures |u| >= |s|
    ensures |u| == 0 <==> s == []
    decreases |s|
  {
    if s == [] then [] else CharUnits(s[0]) + Utf16(s[1..])
  }

  /** Encoding distributes over concatenation. */
  lemma {:induction false} Utf16Concat(a: string, b: string)
    ensures Utf16(a + b) == Utf16(a) + Utf16(b)
    decreases |a|
  {
    if a != [] {
      assert (a + b)[1..] == a[1..] + b;
      Utf16Concat(a[1..], b);
    } else {
      assert a + b == b;
    }
  }

  /** Inside the Basic Multilingual Plane a string has one code unit per
      character, each the character's own value. */
  lemma {:induction false} Utf16OfBmp(s: string)
    requires forall k :: 0 <= k < |s| ==> s[k] as int < 0x1_0000
    ensures |Utf16(s)| == |s|
    ensures forall k :: 0 <= k < |s| ==> Utf16(s)[k] as int == s[k] as int
    decreases |s|
  {
    if s != [] {
      Utf16OfBmp(s[1..]);
      assert forall k :: 1 <= k < |s| ==> Utf16(s)[k] == Utf16(s[1..])[k - 1];
    }
  }
}
