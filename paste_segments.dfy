/** Paste capture: while active, every paste of non-empty clipboard text is
    recorded with the session timecode at which it happened. */
module PasteSegments {
  import opened Wrappers

  /** A recorded paste: when it happened, in seconds from the start of the
      recording, and what was pasted. */
  datatype PasteSegment = PasteSegment(timecodeInSeconds: real, text: string)

  /** True when `p` is equal to the pair on both fields, the removal key. */
  predicate Matches(p: PasteSegment, timecodeInSeconds: real, text: string) {
    p.timecodeInSeconds == timecodeInSeconds && p.text == text
  }

  /** The list `removePasteSegment` leaves behind: every entry matching the
      pair is filtered out, the others keep their order. */
  function RemoveMatching(segments: seq<PasteSegment>, timecodeInSeconds: real, text: string): (r: seq<PasteSegment>)
    ensures |r| <= |segments|
    ensures forall p :: p in r <==> p in segments && !Matches(p, timecodeInSeconds, text)
    decreases |segments|
  {
    if segments == [] then []
    else
      var front := RemoveMatching(segments[..|segments| - 1], timecodeInSeconds, text);
      var last := segments[|segments| - 1];
      assert segments == segments[..|segments| - 1] + [last];
      if Matches(last, timecodeInSeconds, text) then front else front + [last]
  }

  /** Removal works entry by entry: removing from a concatenation is removing
      from each part, so entries that stay keep their relative order. */
  lemma {:induction false} RemoveMatchingConcat(xs: seq<PasteSegment>, ys: seq<PasteSegment>, timecodeInSeconds: real, text: string)
    ensures RemoveMatching(xs + ys, timecodeInSeconds, text)
         == RemoveMatching(xs, timecodeInSeconds, text) + RemoveMatching(ys, timecodeInSeconds, text)
    decreases |ys|
  {
    if ys == [] {
      assert xs + ys == xs;
    } else {
      var front := ys[..|ys| - 1];
      assert (xs + ys)[..|xs + ys| - 1] == xs + front;
      RemoveMatchingConcat(xs, front, timecodeInSeconds, text);
    }
  }

  /** Removing a pair that no entry matches leaves the list as it was. */
  lemma {:induction false} RemoveAbsentIsNoOp(segments: seq<PasteSegment>, timecodeInSeconds: real, text: string)
    requires forall k :: 0 <= k < |segments| ==> !Matches(segments[k], timecodeInSeconds, text)
    ensures RemoveMatching(segments, timecodeInSeconds, text) == segments
    decreases |segments|
  {
    if segments != [] {
      var front, last := segments[..|segments| - 1], segments[|segments| - 1];
      assert forall k :: 0 <= k < |front| ==> front[k] == segments[k];
      RemoveAbsentIsNoOp(front, timecodeInSeconds, text);
      assert !Matches(last, timecodeInSeconds, text);
      assert segments == front + [last];
    }
  }

  /** Removing the same pair twice is the same as removing it once. */
  lemma RemoveMatchingIdempotent(segments: seq<PasteSegment>, timecodeInSeconds: real, text: string)
    ensures RemoveMatching(RemoveMatching(segments, timecodeInSeconds, text), timecodeInSeconds, text)
         == RemoveMatching(segments, timecodeInSeconds, text)
  {
    var once := RemoveMatching(segments, timecodeInSeconds, text);
    assert forall k :: 0 <= k < |once| ==> once[k] in once;
    RemoveAbsentIsNoOp(once, timecodeInSeconds, text);
  }

  /** The paste-segments hook. `active` follows the recorder; `segments` is
      the list the panel shows, merges and serialises. */
  class PasteCapture {
    var active: bool
    var segments: seq<PasteSegment>

    /** Only pastes with non-empty text are ever recorded. */
    ghost predicate Valid()
      reads this
    {
      forall k :: 0 <= k < |segments| ==> segments[k].text != ""
    }

    constructor ()
      ensures Valid() && !active && segments == []
    {
      active := false;
      segments := [];
    }

    /** `active` turns true: the reset effect empties the list and the paste
        listener is installed. Setting an already active hook changes nothing. */
    method Activate()
      requires Valid()
      modifies this
      ensures Valid() && active
      ensures segments == if old(active) then old(segments) else []
    {
      if !active {
        active := true;
        segments := [];
      }
    }

    /** `active` turns false: the listener is removed; the list is kept. */
    method Deactivate()
      requires Valid()
      modifies this
      ensures Valid() && !active && segments == old(segments)
    {
      active := false;
    }

    /** A paste event on the document. `clipboardText` is the clipboard's
        text, `None` when the event carries none; `currentTimecodeMs` is what
        the timecode callback returns at that moment. */
    method HandlePaste(currentTimecodeMs: real, clipboardText: Option<string>)
      requires Valid()
      modifies this
      ensures Valid() && active == old(active)
      ensures segments == if old(active) && clipboardText.Some? && clipboardText.value != ""
                          then old(segments) + [PasteSegment(currentTimecodeMs / 1000.0, clipboardText.value)]
                          else old(segments)
    {
      if active {
        match clipboardText
        case Some(text) =>
          if text != "" {
            segments := segments + [PasteSegment(currentTimecodeMs / 1000.0, text)];
          }
        case None =>
      }
    }

    /** `removePasteSegment`: every entry equal to the pair is dropped. */
    method RemovePasteSegment(timecodeInSeconds: real, text: string)
      requires Valid()
      modifies this
      ensures Valid() && active == old(active)
      ensures segments == RemoveMatching(old(segments), timecodeInSeconds, text)
      ensures forall k :: 0 <= k < |segments| ==> !Matches(segments[k], timecodeInSeconds, text)
    {
      segments := RemoveMatching(segments, timecodeInSeconds, text);
      assert forall k :: 0 <= k < |segments| ==> segments[k] in segments;
    }
  }
}
