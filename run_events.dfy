/** The events the adapter sends to the front end, and `parseEvent`: the classifier shared
    by every command that lets the program run (`run`, `next`, `step 1`, `finish`,
    `backstep`, `goto 0`). */
module RunEvents {
  import opened Text

  /** An output event's category; `OutputEvent(text)` without one is the console. */
  datatype Category = Console | Stdout | Stderr

  datatype Event =
    | Initialized
    | Terminated
    | Output(text: string, category: Category)
    | Stopped(reason: string, threadId: nat)

  const ExitMarker: string := "Program exit."
  const EndMarker: string := "Program end."
  const BreakpointMarker: string := "Breakpoint:"

  /** The events one run/step response raises: exit terminates; an end reports what follows
      the first end marker and terminates; anything else is a stop in thread 0, at a
      breakpoint when the response names one and after a step otherwise. */
  function ParseEvent(output: string): (events: seq<Event>)
    ensures |events| == 1 || |events| == 2
    ensures Last(events) == Terminated <==> Contains(output, ExitMarker) || Contains(output, EndMarker)
    ensures Contains(output, ExitMarker) ==> events == [Terminated]
    ensures !Contains(output, ExitMarker) && Contains(output, EndMarker) ==>
              events[0].Output? && events[0].category == Console &&
              exists k :: OccursAt(output, EndMarker, k) && events[0].text == output[k + |EndMarker|..]
    ensures events[0].Stopped? ==>
              events == [Stopped(events[0].reason, 0)] &&
              (events[0].reason == "breakpoint" <==> Contains(output, BreakpointMarker)) &&
              (events[0].reason == "step" <==> !Contains(output, BreakpointMarker))
  {
    if Contains(output, ExitMarker) then
      [Terminated]
    else if Contains(output, EndMarker) then
      var index := IndexOf(output, EndMarker);
      [Output(output[index + |EndMarker|..], Console), Terminated]
    else
      [Stopped(if Contains(output, BreakpointMarker) then "breakpoint" else "step", 0)]
  }

  lemma OccursChar(s: string, pat: string, k: int, j: int)
    ensures OccursAt(s, pat, k) && 0 <= j < |pat| ==> s[k + j] == pat[j]
  {
    if OccursAt(s, pat, k) && 0 <= j < |pat| {
      assert s[k..k + |pat|][j] == s[k + j];
    }
  }

  /** An occurrence of `pat` in `pre + marker + post` lies within `pre`, starts exactly at
      `marker`, or lies within `post`, when `pat` begins with `marker`'s first character
      and neither `pat` nor `marker` repeats that character further on. */
  lemma OccurrenceInThree(pre: string, marker: string, post: string, pat: string, k: int)
    requires |pat| > 0 && |marker| > 0 && marker[0] == pat[0]
    requires forall j :: 1 <= j < |pat| ==> pat[j] != pat[0]
    requires forall j :: 1 <= j < |marker| ==> marker[j] != pat[0]
    ensures OccursAt(pre + marker + post, pat, k) ==>
              OccursAt(pre, pat, k) || k == |pre| || OccursAt(post, pat, k - |pre| - |marker|)
  {
    var s := pre + marker + post;
    var m := k - |pre| - |marker|;
    OccursChar(s, pat, k, 0);
    OccursChar(s, pat, k, |pre| - k);
    assert s[|pre|] == marker[0];
    assert OccursAt(s, pat, k) && k + |pat| <= |pre| ==> pre[k..k + |pat|] == s[k..k + |pat|];
    assert OccursAt(s, pat, k) && m >= 0 ==> post[m..m + |pat|] == s[k..k + |pat|];
  }

  /** The reason reported when a program ends is exactly the text after the end marker,
      provided the text before it mentions neither marker and the text after it does not
      mention an exit. */
  lemma EndReasonReported(pre: string, reason: string)
    requires !Contains(pre, EndMarker) && !Contains(pre, ExitMarker) && !Contains(reason, ExitMarker)
    ensures ParseEvent(pre + EndMarker + reason) == [Output(reason, Console), Terminated]
  {
    var s := pre + EndMarker + reason;
    assert OccursAt(s, EndMarker, |pre|) by {
      assert s[|pre|..|pre| + |EndMarker|] == EndMarker;
    }
    assert s[|pre| + 9] == 'n';
    forall k
      ensures !OccursAt(s, ExitMarker, k)
    {
      OccurrenceInThree(pre, EndMarker, reason, ExitMarker, k);
      OccursChar(s, ExitMarker, k, 9);
    }
    forall k | 0 <= k < |pre|
      ensures !OccursAt(s, EndMarker, k)
    {
      OccurrenceInThree(pre, EndMarker, reason, EndMarker, k);
    }
    var index := IndexOf(s, EndMarker);
    assert index == |pre|;
    assert s[index + |EndMarker|..] == reason;
  }

  /** A response with neither marker stops the program, and names the breakpoint reason
      exactly when it mentions a breakpoint. */
  lemma StopReason(output: string)
    requires !Contains(output, ExitMarker) && !Contains(output, EndMarker)
    ensures Contains(output, BreakpointMarker) ==> ParseEvent(output) == [Stopped("breakpoint", 0)]
    ensures !Contains(output, BreakpointMarker) ==> ParseEvent(output) == [Stopped("step", 0)]
  {
  }
}
