/** The `break` command of `doSetBreakpoint` and the reply it reads back: ocamldebug
    answers a successful `break` with a line
    `Breakpoint N at PC: file F, line L, characters C-D`, which the adapter finds with a
    multi-line regular expression. */
module BreakReply {
  import opened Text

  /** The captured groups the adapter keeps: the breakpoint number, the file, the line
      and the first character position. */
  datatype BreakInfo = BreakInfo(id: nat, file: string, line: nat, column: nat)

  /** The `$` of a multi-line expression: the end of the input or a line terminator next. */
  predicate AtLineEnd(rest: string)
  {
    rest == [] || IsLineTerminator(rest[0])
  }

  /** The `^` of a multi-line expression: the start of the input or just after a line terminator. */
  predicate LineStart(s: string, k: int)
  {
    k == 0 || (0 < k <= |s| && IsLineTerminator(s[k - 1]))
  }

  /** The reply expression matched at the front of `t`. Each `\d+` takes the longest run of
      digits and `[^,]+` runs to the next comma; no shorter choice could let the rest of
      the expression match, so this single pass is the expression's only match there. */
  function MatchBreak(t: string): Option<BreakInfo>
  {
    var r1 :- Lit(t, "Breakpoint ");
    var id :- Number(r1);
    var r2 :- Lit(id.rest, " at ");
    var pc :- Number(r2);
    var r3 :- Lit(pc.rest, ": file ");
    var location :- MatchLocation(r3);
    Some(BreakInfo(id.value, location.0, location.1, location.2))
  }

  /** The part of the expression after `file `: `([^,]+), line (\d+), characters ` and then the columns. */
  function MatchLocation(t: string): Option<(string, nat, nat)>
  {
    var file :- Span(t, ',');
    var r4 :- Lit(file.rest, ", line ");
    var line :- Number(r4);
    var r5 :- Lit(line.rest, ", characters ");
    var columns :- MatchColumns(r5);
    Some((file.value, line.value, columns.0))
  }

  /** The end of the expression: `(\d+)-(\d+)$`. */
  function MatchColumns(t: string): Option<(nat, nat)>
  {
    var column :- Number(t);
    var r6 :- Lit(column.rest, "-");
    var end :- Number(r6);
    if AtLineEnd(end.rest) then Some((column.value, end.value)) else None
  }

  /** The location part of a reply line as ocamldebug prints it. */
  function LocationText(file: string, line: nat, first: nat, last: nat): string
  {
    file + ", line " + NatToString(line) + ", characters " + ColumnsText(first, last)
  }

  function ColumnsText(first: nat, last: nat): string
  {
    NatToString(first) + "-" + NatToString(last)
  }

  /** The reply line ocamldebug prints for breakpoint `id` at code position `pc`. */
  function ReplyLine(id: nat, pc: nat, file: string, line: nat, first: nat, last: nat): string
  {
    "Breakpoint " + NatToString(id) + " at " + NatToString(pc) + ": file " + LocationText(file, line, first, last)
  }

  /** `(\d+)-(\d+)$` read over two numbers and a line end. */
  lemma MatchColumnsOf(first: nat, last: nat, rest: string)
    requires AtLineEnd(rest)
    ensures MatchColumns(NatToString(first) + ("-" + (NatToString(last) + rest))) == Some((first, last))
  {
    var s6 := NatToString(last) + rest;
    NumberOf(first, "-" + s6);
    LitOf("-", s6);
    NumberOf(last, rest);
  }

  lemma MatchColumnsText(first: nat, last: nat, rest: string)
    requires AtLineEnd(rest)
    ensures MatchColumns(ColumnsText(first, last) + rest) == Some((first, last))
  {
    assert ColumnsText(first, last) + rest == NatToString(first) + ("-" + (NatToString(last) + rest));
    MatchColumnsOf(first, last, rest);
  }

  /** `([^,]+), line (\d+), characters ` read over a file without commas and a line
      number: the match is the one the columns part `s5` gives. */
  lemma MatchLocationOf(file: string, line: nat, s5: string, columns: (nat, nat))
    requires file != [] && ',' !in file && MatchColumns(s5) == Some(columns)
    ensures MatchLocation(file + (", line " + (NatToString(line) + (", characters " + s5)))) == Some((file, line, columns.0))
  {
    var s4 := NatToString(line) + (", characters " + s5);
    SpanOf(file, ", line " + s4, ',');
    LitOf(", line ", s4);
    NumberOf(line, ", characters " + s5);
    LitOf(", characters ", s5);
  }

  lemma LocationTextParts(file: string, line: nat, first: nat, last: nat, rest: string)
    ensures LocationText(file, line, first, last) + rest ==
            file + (", line " + (NatToString(line) + (", characters " + (ColumnsText(first, last) + rest))))
  {
  }

  lemma MatchLocationText(file: string, line: nat, first: nat, last: nat, rest: string)
    requires file != [] && ',' !in file && AtLineEnd(rest)
    ensures MatchLocation(LocationText(file, line, first, last) + rest) == Some((file, line, first))
  {
    LocationTextParts(file, line, first, last, rest);
    MatchColumnsText(first, last, rest);
    MatchLocationOf(file, line, ColumnsText(first, last) + rest, (first, last));
  }

  /** `Breakpoint (\d+) at \d+: file ` read over two numbers: the match is the one the
      location part `s3` gives. */
  lemma MatchBreakOf(id: nat, pc: nat, s3: string, location: (string, nat, nat))
    requires MatchLocation(s3) == Some(location)
    ensures MatchBreak("Breakpoint " + (NatToString(id) + (" at " + (NatToString(pc) + (": file " + s3))))) ==
              Some(BreakInfo(id, location.0, location.1, location.2))
  {
    var s2 := NatToString(pc) + (": file " + s3);
    var s1 := NatToString(id) + (" at " + s2);
    LitOf("Breakpoint ", s1);
    NumberOf(id, " at " + s2);
    LitOf(" at ", s2);
    NumberOf(pc, ": file " + s3);
    LitOf(": file ", s3);
  }

  lemma ReplyLineParts(id: nat, pc: nat, file: string, line: nat, first: nat, last: nat, rest: string)
    ensures ReplyLine(id, pc, file, line, first, last) + rest ==
            "Breakpoint " + (NatToString(id) + (" at " + (NatToString(pc) + (": file " + (LocationText(file, line, first, last) + rest)))))
  {
  }

  /** The expression reads back what a reply line carries, whatever follows the line. */
  lemma MatchReplyLine(id: nat, pc: nat, file: string, line: nat, first: nat, last: nat, rest: string)
    requires file != [] && ',' !in file && AtLineEnd(rest)
    ensures MatchBreak(ReplyLine(id, pc, file, line, first, last) + rest) ==
              Some(BreakInfo(id, file, line, first))
  {
    ReplyLineParts(id, pc, file, line, first, last, rest);
    MatchLocationText(file, line, first, last, rest);
    MatchBreakOf(id, pc, LocationText(file, line, first, last) + rest, (file, line, first));
  }

  /** A match needs the literal `Breakpoint ` at its start. */
  lemma MatchNeedsMarker(t: string)
    ensures MatchBreak(t).Some? ==> StartsWith(t, "Breakpoint ")
  {
  }

  /** The first line start at or after `k` where `m` matches, or -1: how `exec` runs an
      expression that begins with `^` under the multi-line flag. */
  function FirstMatch<T>(s: string, k: nat, m: string -> Option<T>): (j: int)
    requires k <= |s|
    ensures j == -1 || (k <= j <= |s| && LineStart(s, j) && m(s[j..]).Some?)
    ensures forall i :: k <= i <= |s| && (j == -1 || i < j) && LineStart(s, i) ==> m(s[i..]).None?
    decreases |s| - k
  {
    if LineStart(s, k) && m(s[k..]).Some? then k
    else if k == |s| then -1
    else FirstMatch(s, k + 1, m)
  }

  /** `/^Breakpoint (\d+) at \d+: file ([^,]+), line (\d+), characters (\d+)-(\d+)$/m.exec(output)`:
      the match at the first line start where the expression matches, if any. */
  function ParseBreakReply(output: string): Option<BreakInfo>
  {
    var j := FirstMatch(output, 0, MatchBreak);
    if j == -1 then None else MatchBreak(output[j..])
  }

  /** The reply stands for a breakpoint exactly when some line of it matches, and then
      for the match on the first such line. */
  lemma ParseBreakReplyFirst(output: string)
    ensures var r := ParseBreakReply(output);
            (r.Some? <==> exists j :: 0 <= j <= |output| && LineStart(output, j) && MatchBreak(output[j..]).Some?) &&
            (r.Some? ==> exists j :: 0 <= j <= |output| && LineStart(output, j) && r == MatchBreak(output[j..]) &&
                           forall i :: 0 <= i < j && LineStart(output, i) ==> MatchBreak(output[i..]).None?)
  {
  }

  /** A reply that opens with a breakpoint line is read as that breakpoint. */
  lemma ParseReplyLine(id: nat, pc: nat, file: string, line: nat, first: nat, last: nat, rest: string)
    requires file != [] && ',' !in file && AtLineEnd(rest)
    ensures ParseBreakReply(ReplyLine(id, pc, file, line, first, last) + rest) ==
              Some(BreakInfo(id, file, line, first))
  {
    var s := ReplyLine(id, pc, file, line, first, last) + rest;
    MatchReplyLine(id, pc, file, line, first, last, rest);
    assert s[0..] == s;
  }

  /** A reply that never mentions `Breakpoint ` gives an unverified breakpoint. */
  lemma NoMarkerNoBreakpoint(output: string)
    requires !Contains(output, "Breakpoint ")
    ensures ParseBreakReply(output).None?
  {
    ParseBreakReplyFirst(output);
    forall j | 0 <= j <= |output|
      ensures MatchBreak(output[j..]).None?
    {
      MatchNeedsMarker(output[j..]);
      StartsWithOccurs(output, "Breakpoint ", j);
    }
  }

  /** JavaScript's `join` writes an undefined element as the empty string. */
  function OrEmpty(s: Option<string>): string
  {
    if s.Some? then s.value else ""
  }

  /** The argument of a line breakpoint's `break` command: `'@ ' + [module, line, column].join(' ')`. */
  function LineLocation(scope: Option<string>, line: int, column: Option<int>): (param: string)
    ensures StartsWith(param, "@ ")
  {
    "@ " + Join([OrEmpty(scope), IntToString(line), OrEmpty(if column.Some? then Some(IntToString(column.value)) else None)], " ")
  }

  /** The three words after `@ ` are the module, the line and the column (empty when
      absent), so ocamldebug can read them back as long as the module name has no space. */
  lemma LineLocationWords(scope: Option<string>, line: int, column: Option<int>)
    requires ' ' !in OrEmpty(scope)
    ensures var param := LineLocation(scope, line, column);
            Split(param[2..], ' ') ==
              [OrEmpty(scope), IntToString(line), OrEmpty(if column.Some? then Some(IntToString(column.value)) else None)]
  {
    var words := [OrEmpty(scope), IntToString(line), OrEmpty(if column.Some? then Some(IntToString(column.value)) else None)];
    IntToStringNoSpace(line);
    if column.Some? {
      IntToStringNoSpace(column.value);
    }
    assert LineLocation(scope, line, column)[2..] == Join(words, [' ']);
    SplitJoin(words, ' ');
  }

  /** `ocdCommand(['break', param])` */
  function BreakCommand(param: string): (cmd: string)
    ensures StartsWith(cmd, "break ") && cmd[|"break "|..] == param
  {
    "break " + param
  }

  /** `ocdCommand(['delete', id])` */
  function DeleteCommand(id: nat): (cmd: string)
    ensures StartsWith(cmd, "delete ") && IsDigits(cmd[|"delete "|..])
  {
    "delete " + NatToString(id)
  }

  /** The argument of a `delete` command reads back, as `+arg` does, as the id. */
  lemma DeleteCommandReadsBack(id: nat)
    ensures ToNumber(DeleteCommand(id)[|"delete "|..]) == Some(id)
  {
    ToNumberOf(id);
    assert DeleteCommand(id)[|"delete "|..] == NatToString(id);
  }
}
