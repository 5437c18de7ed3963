/** `retrieveSource`: the text of a module as ocamldebug lists it. The adapter asks for
    lines 1 to 100000 of the module; ocamldebug prints each line behind its number and a
    space, marks the current event with `<|a|>` or `<|b|>`, and ends with
    `Position out of range.` when the range runs past the end of the file. */
module Listing {
  import opened Text

  /** `'list ' + module + ' 1 100000'`, the command `retrieveSource` issues. */
  function ListCommand(scope: string): (cmd: string)
    ensures StartsWith(cmd, "list ") && EndsWith(cmd, " 1 100000")
    ensures |cmd| == |scope| + 14 && cmd[|"list "|..|cmd| - |" 1 100000"|] == scope
  {
    var cmd := "list " + scope + " 1 100000";
    assert cmd[|cmd| - |" 1 100000"|..] == " 1 100000";
    cmd
  }

  const OutOfRange: string := "Position out of range."

  /** `line.replace(/^\d+ /, '')`: a line number and the space after it are cut from the
      front; a line that does not open with digits and a space is kept whole. */
  function StripLineNumber(line: string): (r: string)
    ensures |r| <= |line| && r == line[|line| - |r|..]
    ensures |r| < |line| ==> IsDigits(line[..|line| - |r| - 1]) && line[|line| - |r| - 1] == ' '
    ensures line == [] || !IsDigit(line[0]) ==> r == line
  {
    var n := LeadingDigits(line);
    if 0 < n < |line| && line[n] == ' ' then line[n + 1..] else line
  }

  /** Line `n` of a listing as ocamldebug prints it. */
  function NumberedLine(n: nat, text: string): string
  {
    NatToString(n) + " " + text
  }

  lemma StripNumberedLine(n: nat, text: string)
    ensures StripLineNumber(NumberedLine(n, text)) == text
  {
    var d := NatToString(n);
    LeadingDigitsOf(d, " " + text);
    assert NumberedLine(n, text) == d + (" " + text);
  }

  /** The current-event marker `<|a|>` or `<|b|>`. */
  predicate IsMarker(m: string)
  {
    |m| == 5 && m[0] == '<' && m[1] == '|' && (m[2] == 'a' || m[2] == 'b') && m[3] == '|' && m[4] == '>'
  }

  predicate MarkerAt(s: string, k: int)
  {
    0 <= k && k + 5 <= |s| && IsMarker(s[k..k + 5])
  }

  predicate NoMarker(s: string)
  {
    forall k :: 0 <= k <= |s| ==> !MarkerAt(s, k)
  }

  /** The first position at or after `k` where a marker starts, or -1. */
  function FirstMarker(s: string, k: nat): (j: int)
    requires k <= |s|
    ensures j == -1 || (k <= j && MarkerAt(s, j))
    ensures forall i :: k <= i && (j == -1 || i < j) ==> !MarkerAt(s, i)
    decreases |s| - k
  {
    if MarkerAt(s, k) then k
    else if k + 5 >= |s| then -1
    else FirstMarker(s, k + 1)
  }

  /** `.replace(/<\|[ab]\|>/, '')`: only the first marker of the line is cut out. */
  function RemoveMarker(s: string): (r: string)
    ensures NoMarker(s) ==> r == s
    ensures forall k :: MarkerAt(s, k) && (forall i :: 0 <= i < k ==> !MarkerAt(s, i)) ==>
                          r == s[..k] + s[k + 5..]
  {
    var j := FirstMarker(s, 0);
    if j == -1 then s else s[..j] + s[j + 5..]
  }

  /** A marker put into a line at a point with no `<` before it is the one taken out again. */
  lemma RemoveInsertedMarker(text: string, c: nat, m: string)
    requires c <= |text| && IsMarker(m) && '<' !in text[..c]
    ensures RemoveMarker(text[..c] + m + text[c..]) == text
  {
    var s := text[..c] + m + text[c..];
    assert s[c..c + 5] == m;
    forall i | 0 <= i < c
      ensures !MarkerAt(s, i)
    {
      assert s[i] == text[..c][i];
    }
    assert s[..c] + s[c + 5..] == text;
  }

  /** What the adapter makes of one printed line. */
  function CleanLine(line: string): string
  {
    RemoveMarker(StripLineNumber(line))
  }

  /** `lines.pop()` when the last line is the out-of-range notice. */
  function DropOutOfRange(lines: seq<string>): (r: seq<string>)
    requires |lines| >= 1
    ensures Last(lines) == OutOfRange ==> r == lines[..|lines| - 1]
    ensures Last(lines) != OutOfRange ==> r == lines
  {
    if Last(lines) == OutOfRange then lines[..|lines| - 1] else lines
  }

  /** The callback of `retrieveSource`. */
  function RetrieveSource(output: string): string
  {
    Join(CleanLines(DropOutOfRange(Split(output, '\n'))), "\n")
  }

  /** `lines.map(...)` with the per-line clean-up. */
  function CleanLines(lines: seq<string>): (r: seq<string>)
    ensures |r| == |lines|
  {
    seq(|lines|, i requires 0 <= i < |lines| => CleanLine(lines[i]))
  }

  /** The lines ocamldebug prints for a module, numbered from 1, each showing `shown[i]`
      (the source line, perhaps with the marker in it), and the closing notice when
      `notice` holds. */
  function Listed(shown: seq<string>, notice: bool): seq<string>
  {
    seq(|shown|, i requires 0 <= i < |shown| => NumberedLine(i + 1, shown[i])) + (if notice then [OutOfRange] else [])
  }

  lemma NoticeOneLine()
    ensures '\n' !in OutOfRange
  {
  }

  lemma NumberedLineOneLine(n: nat, text: string)
    requires '\n' !in text
    ensures '\n' !in NumberedLine(n, text)
  {
    var d := NatToString(n);
    assert forall k :: 0 <= k < |d| ==> IsDigit(d[k]);
  }

  lemma NumberedLineIsNotNotice(n: nat, text: string)
    ensures NumberedLine(n, text) != OutOfRange
  {
    assert NumberedLine(n, text)[0] == NatToString(n)[0];
    assert OutOfRange[0] == 'P';
  }

  lemma ListedLines(shown: seq<string>, notice: bool)
    requires forall i :: 0 <= i < |shown| ==> '\n' !in shown[i]
    ensures var lines := Listed(shown, notice);
            forall i :: 0 <= i < |lines| ==> '\n' !in lines[i]
  {
    NoticeOneLine();
    forall i | 0 <= i < |shown|
      ensures '\n' !in NumberedLine(i + 1, shown[i])
    {
      NumberedLineOneLine(i + 1, shown[i]);
    }
  }

  lemma ListedSplit(shown: seq<string>, notice: bool)
    requires |shown| >= 1
    requires forall i :: 0 <= i < |shown| ==> '\n' !in shown[i]
    ensures Split(Join(Listed(shown, notice), "\n"), '\n') == Listed(shown, notice)
  {
    ListedLines(shown, notice);
    SplitJoin(Listed(shown, notice), '\n');
  }

  lemma ListedDropped(shown: seq<string>, notice: bool)
    requires |shown| >= 1
    ensures DropOutOfRange(Listed(shown, notice)) == Listed(shown, false)
  {
    if !notice {
      assert Listed(shown, notice) == Listed(shown, false);
      NumberedLineIsNotNotice(|shown|, shown[|shown| - 1]);
    } else {
      assert Listed(shown, notice)[..|shown|] == Listed(shown, false);
    }
  }

  lemma CleanListed(src: seq<string>, shown: seq<string>)
    requires |src| == |shown|
    requires forall i :: 0 <= i < |shown| ==> RemoveMarker(shown[i]) == src[i]
    ensures CleanLines(Listed(shown, false)) == src
  {
    var kept := Listed(shown, false);
    assert |kept| == |shown|;
    var clean := CleanLines(kept);
    forall i | 0 <= i < |src|
      ensures clean[i] == src[i]
    {
      assert kept[i] == NumberedLine(i + 1, shown[i]);
      StripNumberedLine(i + 1, shown[i]);
    }
  }

  lemma ListingSteps(src: seq<string>, shown: seq<string>, notice: bool)
    requires |src| == |shown| >= 1
    requires forall i :: 0 <= i < |shown| ==> '\n' !in shown[i] && RemoveMarker(shown[i]) == src[i]
    ensures Split(Join(Listed(shown, notice), "\n"), '\n') == Listed(shown, notice)
    ensures DropOutOfRange(Listed(shown, notice)) == Listed(shown, false)
    ensures CleanLines(Listed(shown, false)) == src
  {
    ListedSplit(shown, notice);
    ListedDropped(shown, notice);
    CleanListed(src, shown);
  }

  lemma ReadBack(output: string, lines: seq<string>, kept: seq<string>, src: seq<string>)
    requires Split(output, '\n') == lines && DropOutOfRange(lines) == kept && CleanLines(kept) == src
    ensures RetrieveSource(output) == Join(src, "\n")
  {
  }

  /** The whole listing reads back as the module's lines joined by line breaks, once each
      shown line gives back its source line when its marker is cut out; the closing notice,
      if any, is dropped. */
  lemma RetrieveListing(src: seq<string>, shown: seq<string>, notice: bool)
    requires |src| == |shown| >= 1
    requires forall i :: 0 <= i < |shown| ==> '\n' !in shown[i] && RemoveMarker(shown[i]) == src[i]
    ensures RetrieveSource(Join(Listed(shown, notice), "\n")) == Join(src, "\n")
  {
    ListingSteps(src, shown, notice);
    ReadBack(Join(Listed(shown, notice), "\n"), Listed(shown, notice), Listed(shown, false), src);
  }
}
