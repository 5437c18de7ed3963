/** The reply of `backtrace 100`, decoded by `stackTraceRequest` into stack frames. */
module Backtrace {
  import opened Text

  /** What one frame line carries: the frame number, the file and the position, which
      JavaScript's `+` turns into numbers (None standing for NaN). */
  datatype FrameInfo = FrameInfo(index: nat, file: string, line: Option<nat>, column: Option<nat>)

  const Header: string := "Backtrace:"
  /** The note ocamldebug prints after the frames when the stack reaches code compiled
      without debugging information. */
  const NoDebugInfo: string := "(Encountered a function" + " with no debugging information)"

  /** `/^#(\d+) ([^ ]+) ([^:]+):([^:]+):([^:]+)$/.exec(line)`, up to the file: the frame
      number, a space, the function name up to the next space, and a space. */
  function MatchFrame(line: string): Option<FrameInfo>
  {
    var r1 :- Lit(line, "#");
    var index :- Number(r1);
    var r2 :- Lit(index.rest, " ");
    var name :- Span(r2, ' ');
    var r3 :- Lit(name.rest, " ");
    var position :- MatchPosition(r3);
    Some(FrameInfo(index.value, position.0, ToNumber(position.1), ToNumber(position.2)))
  }

  /** The end of the frame expression: `([^:]+):([^:]+):([^:]+)$`, three colon-free parts,
      the last running to the end of the line. */
  function MatchPosition(t: string): Option<(string, string, string)>
  {
    var file :- Span(t, ':');
    var r4 :- Lit(file.rest, ":");
    var numbers :- MatchNumbers(r4);
    Some((file.value, numbers.0, numbers.1))
  }

  /** `([^:]+):([^:]+)$` */
  function MatchNumbers(t: string): Option<(string, string)>
  {
    var line :- Span(t, ':');
    var r5 :- Lit(line.rest, ":");
    if r5 != [] && ':' !in r5 then Some((line.value, r5)) else None
  }

  /** A frame as ocamldebug prints it: number, function name, file, line and column. */
  datatype PrintedFrame = PrintedFrame(index: nat, name: string, file: string, line: nat, column: nat)

  /** The line ocamldebug prints for a frame. */
  function FrameText(p: PrintedFrame): string
  {
    "#" + (NatToString(p.index) + (" " + (p.name + (" " + PositionText(p.file, NatToString(p.line), NatToString(p.column))))))
  }

  /** `file:line:column` */
  function PositionText(file: string, line: string, column: string): string
  {
    file + (":" + (line + (":" + column)))
  }

  /** What the adapter should read back from a printed frame. */
  function Info(p: PrintedFrame): FrameInfo
  {
    FrameInfo(p.index, p.file, Some(p.line), Some(p.column))
  }

  /** Printed frames have a function name without spaces and a file without colons,
      both non-empty and on one line. */
  predicate Printable(p: PrintedFrame)
  {
    p.name != [] && ' ' !in p.name && '\n' !in p.name &&
    p.file != [] && ':' !in p.file && '\n' !in p.file
  }

  /** A decimal text has no colon, space or line break in it. */
  lemma DigitsPlain(d: string)
    requires IsDigits(d)
    ensures d != [] && ':' !in d && ' ' !in d && '\n' !in d
  {
    assert forall i :: 0 <= i < |d| ==> IsDigit(d[i]);
  }

  lemma MatchNumbersOf(line: string, column: string)
    requires line != [] && ':' !in line && column != [] && ':' !in column
    ensures MatchNumbers(line + (":" + column)) == Some((line, column))
  {
    SpanOf(line, ":" + column, ':');
    LitOf(":", column);
  }

  /** Three colon-free parts joined by colons are read back as those parts. */
  lemma MatchPositionOf(file: string, line: string, column: string)
    requires file != [] && ':' !in file
    requires line != [] && ':' !in line && column != [] && ':' !in column
    ensures MatchPosition(PositionText(file, line, column)) == Some((file, line, column))
  {
    var r4 := line + (":" + column);
    SpanOf(file, ":" + r4, ':');
    LitOf(":", r4);
    MatchNumbersOf(line, column);
  }

  /** The frame expression up to the position: `#`, the number, a space, the name and a
      space. */
  lemma MatchFrameOf(index: nat, name: string, r3: string)
    requires name != [] && ' ' !in name
    ensures var r2 := name + (" " + r3);
            var r1 := NatToString(index) + (" " + r2);
            Lit("#" + r1, "#") == Some(r1) && Number(r1) == Some(Scan(index, " " + r2)) &&
            Lit(" " + r2, " ") == Some(r2) && Span(r2, ' ') == Some(Scan(name, " " + r3)) &&
            Lit(" " + r3, " ") == Some(r3)
  {
    var r2 := name + (" " + r3);
    var r1 := NatToString(index) + (" " + r2);
    LitOf("#", r1);
    NumberOf(index, " " + r2);
    LitOf(" ", r2);
    SpanOf(name, " " + r3, ' ');
    LitOf(" ", r3);
  }

  /** A printed frame line decodes to the frame it prints. */
  lemma MatchFrameText(p: PrintedFrame)
    requires Printable(p)
    ensures MatchFrame(FrameText(p)) == Some(Info(p))
  {
    var l := NatToString(p.line);
    var c := NatToString(p.column);
    var r3 := PositionText(p.file, l, c);
    MatchFrameOf(p.index, p.name, r3);
    assert MatchPosition(r3) == Some((p.file, l, c)) by {
      DigitsPlain(l);
      DigitsPlain(c);
      MatchPositionOf(p.file, l, c);
    }
    ToNumberOf(p.line);
    ToNumberOf(p.column);
  }

  /** What a matcher finds in each line, in line order; lines it rejects are skipped. */
  function Collect<T>(lines: seq<string>, m: string -> Option<T>): (found: seq<T>)
    ensures |found| <= |lines|
  {
    if lines == [] then []
    else
      (match m(lines[0]) case Some(f) => [f] case None => []) + Collect(lines[1..], m)
  }

  lemma {:induction false} CollectAppend<T>(a: seq<string>, b: seq<string>, m: string -> Option<T>)
    ensures Collect(a + b, m) == Collect(a, m) + Collect(b, m)
  {
    if a != [] {
      assert (a + b)[1..] == a[1..] + b;
      CollectAppend(a[1..], b, m);
    } else {
      assert a + b == b;
    }
  }

  lemma {:induction false} CollectFromLines<T>(lines: seq<string>, m: string -> Option<T>, k: nat)
    requires k < |Collect(lines, m)|
    ensures exists i :: 0 <= i < |lines| && m(lines[i]) == Some(Collect(lines, m)[k])
  {
    var head := match m(lines[0]) case Some(f) => [f] case None => [];
    if k < |head| {
      assert Collect(lines, m)[k] == head[0];
    } else {
      CollectFromLines(lines[1..], m, k - |head|);
      var i :| 0 <= i < |lines[1..]| && m(lines[1..][i]) == Some(Collect(lines[1..], m)[k - |head|]);
      assert m(lines[i + 1]) == Some(Collect(lines, m)[k]);
    }
  }

  /** The frames of the lines that match, in line order; the others are skipped. */
  function Frames(lines: seq<string>): (frames: seq<FrameInfo>)
    ensures |frames| <= |lines|
  {
    Collect(lines, MatchFrame)
  }

  /** Decoding works line by line: the frames of two blocks of lines are the frames of
      the first followed by the frames of the second. */
  lemma FramesAppend(a: seq<string>, b: seq<string>)
    ensures Frames(a + b) == Frames(a) + Frames(b)
  {
    CollectAppend(a, b, MatchFrame);
  }

  /** Every decoded frame is the decoding of one of the lines. */
  lemma FramesFromLines(lines: seq<string>, k: nat)
    requires k < |Frames(lines)|
    ensures exists i :: 0 <= i < |lines| && MatchFrame(lines[i]) == Some(Frames(lines)[k])
  {
    CollectFromLines(lines, MatchFrame, k);
  }

  /** The lines of printed frames decode to those frames, in order. */
  lemma {:induction false} FramesOfTexts(ps: seq<PrintedFrame>)
    requires forall i :: 0 <= i < |ps| ==> Printable(ps[i])
    ensures Frames(FrameTexts(ps)) == Infos(ps)
  {
    if ps != [] {
      MatchFrameText(ps[0]);
      FramesOfTexts(ps[1..]);
      assert FrameTexts(ps)[1..] == FrameTexts(ps[1..]);
    }
  }

  function FrameTexts(ps: seq<PrintedFrame>): (lines: seq<string>)
    ensures |lines| == |ps|
  {
    if ps == [] then [] else [FrameText(ps[0])] + FrameTexts(ps[1..])
  }

  function Infos(ps: seq<PrintedFrame>): (fs: seq<FrameInfo>)
    ensures |fs| == |ps|
  {
    if ps == [] then [] else [Info(ps[0])] + Infos(ps[1..])
  }

  /** `text.trim().split(/\n/g)` less a leading `Backtrace:` line. */
  function BodyLines(text: string): (lines: seq<string>)
    ensures forall i :: 0 <= i < |lines| ==> '\n' !in lines[i]
  {
    var lines := Split(Trim(text), '\n');
    if lines[0] == Header then lines[1..] else lines
  }

  /** The reply as the callback reads it: the lines less a last line that reports a
      function without debugging information. On a reply with no line left the callback
      reads `lines[-1].includes`, which throws: None. */
  function DecodeBacktraceAsWritten(text: string): Option<seq<FrameInfo>>
  {
    var lines := BodyLines(text);
    if lines == [] then None
    else if Contains(Last(lines), NoDebugInfo) then Some(Frames(lines[..|lines| - 1]))
    else Some(Frames(lines))
  }

  /** The decoder with the empty case handled: no lines, no frames. */
  function DecodeBacktrace(text: string): (frames: seq<FrameInfo>)
  {
    var lines := BodyLines(text);
    if lines != [] && Contains(Last(lines), NoDebugInfo) then Frames(lines[..|lines| - 1])
    else Frames(lines)
  }

  /** The two decoders agree wherever the callback as written returns; it fails exactly
      on a reply that trims to the bare header. */
  lemma AsWrittenAgrees(text: string)
    ensures DecodeBacktraceAsWritten(text).Some? ==> DecodeBacktraceAsWritten(text).value == DecodeBacktrace(text)
    ensures DecodeBacktraceAsWritten(text).None? <==> Trim(text) == Header
  {
    var lines := Split(Trim(text), '\n');
    JoinSplit(Trim(text), '\n');
    assert |lines| == 1 ==> Join(lines, "\n") == lines[0];
    SplitNoSeparator(Header, '\n');
  }

  /** The header alone: the callback as written throws; the corrected decoder gives no frames. */
  lemma HeaderAloneThrows()
    ensures DecodeBacktraceAsWritten(Header).None?
    ensures DecodeBacktrace(Header) == []
  {
    assert Trim(Header) == Header by { TrimUnchanged(Header); }
    assert DecodeBacktraceAsWritten(Header).None? by { AsWrittenAgrees(Header); }
    assert BodyLines(Header) == [] by { SplitNoSeparator(Header, '\n'); }
  }

  /** A full reply, the header, one line per frame and the closing note about a function
      without debugging information, decodes to the frames of the lines in between and
      nothing else; with `FramesOfTexts`, printed frames come back exactly, in order. */
  lemma DecodeReply(body: seq<string>)
    requires forall i :: 0 <= i < |body| ==> '\n' !in body[i]
    ensures DecodeBacktrace(Join([Header] + body + [NoDebugInfo], "\n")) == Frames(body)
  {
    ReplyBodyLines(body);
    assert Contains(NoDebugInfo, NoDebugInfo) by {
      assert OccursAt(NoDebugInfo, NoDebugInfo, 0);
    }
    ClosingNoteDropped(Join([Header] + body + [NoDebugInfo], "\n"), body, NoDebugInfo);
  }

  lemma ReplyBodyLines(body: seq<string>)
    requires forall i :: 0 <= i < |body| ==> '\n' !in body[i]
    ensures BodyLines(Join([Header] + body + [NoDebugInfo], "\n")) == body + [NoDebugInfo]
  {
    NoteShape();
    BodyLinesOf(body, NoDebugInfo);
  }

  /** A last line that mentions a function without debugging information is not decoded,
      whatever else it carries. */
  lemma ClosingNoteDropped(text: string, body: seq<string>, last: string)
    requires BodyLines(text) == body + [last] && Contains(last, NoDebugInfo)
    ensures DecodeBacktrace(text) == Frames(body)
  {
    Between(Header, body, last);
  }

  /** Without that note on the last line, every line is decoded. */
  lemma LastLineKept(text: string, lines: seq<string>)
    requires BodyLines(text) == lines && (lines == [] || !Contains(Last(lines), NoDebugInfo))
    ensures DecodeBacktrace(text) == Frames(lines)
  {
  }

  /** The lines between the header and a closing line are what the decoder reads. */
  lemma BodyLinesOf(body: seq<string>, last: string)
    requires forall i :: 0 <= i < |body| ==> '\n' !in body[i]
    requires '\n' !in last && last != [] && !IsSpace(Last(last))
    ensures BodyLines(Join([Header] + body + [last], "\n")) == body + [last]
  {
    var lines := [Header] + body + [last];
    var text := Join(lines, "\n");
    Between(Header, body, last);
    HeaderOneLine();
    TrimReplyLines(Header, body, last);
    SplitReplyLines(Header, body, last);
    HeaderDropped(text, lines);
  }

  lemma Between(first: string, body: seq<string>, last: string)
    ensures ([first] + body + [last])[0] == first && ([first] + body + [last])[1..] == body + [last]
    ensures (body + [last])[..|body|] == body && Last(body + [last]) == last
  {
  }

  lemma SplitReplyLines(first: string, body: seq<string>, last: string)
    requires forall i :: 0 <= i < |body| ==> '\n' !in body[i]
    requires '\n' !in first && '\n' !in last
    ensures Split(Join([first] + body + [last], "\n"), '\n') == [first] + body + [last]
  {
    var lines := [first] + body + [last];
    forall i | 0 <= i < |lines|
      ensures '\n' !in lines[i]
    {
      if 0 < i < |lines| - 1 {
        assert lines[i] == body[i - 1];
      }
    }
    SplitJoin(lines, '\n');
  }

  /** Lines that start with a character and end with a character that are not white space
      join into text that trimming leaves alone. */
  lemma TrimReplyLines(first: string, body: seq<string>, last: string)
    requires first != [] && !IsSpace(first[0])
    requires last != [] && !IsSpace(Last(last))
    ensures Trim(Join([first] + body + [last], "\n")) == Join([first] + body + [last], "\n")
  {
    var lines := [first] + body + [last];
    var text := Join(lines, "\n");
    JoinFirst(lines, "\n");
    JoinLast(lines, "\n");
    assert text[0] == first[0];
    assert Last(text) == Last(last);
    TrimUnchanged(text);
  }

  lemma HeaderDropped(text: string, lines: seq<string>)
    requires Split(Trim(text), '\n') == lines && lines[0] == Header
    ensures BodyLines(text) == lines[1..]
  {
  }

  lemma {:induction false} OneLineEach(ps: seq<PrintedFrame>)
    requires forall i :: 0 <= i < |ps| ==> Printable(ps[i])
    ensures forall i :: 0 <= i < |ps| ==> '\n' !in FrameTexts(ps)[i]
  {
    if ps != [] {
      FrameTextOneLine(ps[0]);
      OneLineEach(ps[1..]);
      assert FrameTexts(ps) == [FrameText(ps[0])] + FrameTexts(ps[1..]);
    }
  }

  lemma HeaderOneLine()
    ensures '\n' !in Header && Header != [] && !IsSpace(Header[0])
  {
  }

  /** The closing note is one line that ends in a character other than white space. */
  lemma NoteShape()
    ensures '\n' !in NoDebugInfo && NoDebugInfo != [] && !IsSpace(Last(NoDebugInfo))
  {
    assert Last(NoDebugInfo) == ')';
  }

  lemma FrameTextOneLine(p: PrintedFrame)
    requires Printable(p)
    ensures '\n' !in FrameText(p)
  {
    DigitsPlain(NatToString(p.index));
    DigitsPlain(NatToString(p.line));
    DigitsPlain(NatToString(p.column));
  }

}
