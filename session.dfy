/** The session state of `OCamlDebugSession`: the source registry (`_filenames`,
    `_filenameToPath`), the known modules, the breakpoint tables, the variable handle
    table, the once guard of the launch handshake, and the requests that read and update
    them. Every command the session hands to `ocdCommand` is appended to `commands`, and
    the framed reply that command receives is a parameter of the request; the queueing and
    framing themselves are `Pipeline.CommandQueue`. Every event sent to the front end is
    appended to `events`. */
module Session {
  import opened Text
  import RunEvents
  import ModuleNames
  import BreakReply
  import Backtrace
  import Listing
  import Values

  /** A source as the front end sees it: `new Source(name, path)` has reference 0, and
      `new Source(name, path, index + 1, 'source')` a synthetic reference into `_filenames`. */
  datatype Source = Source(name: string, path: Option<string>, reference: nat)

  /** `new Breakpoint(false)`, or a verified breakpoint with the debugger's id. */
  datatype Breakpoint =
    | Unverified
    | Verified(id: nat, line: nat, column: nat, source: Source)

  /** A requested line breakpoint: its line and, perhaps, its column. */
  datatype LineRequest = LineRequest(line: int, column: Option<int>)

  /** `new StackFrame(index, '', source, line, column)`; a line or column that is not a
      number is None. */
  datatype StackFrame = StackFrame(id: nat, name: string, source: Source, line: Option<nat>, column: Option<nat>)

  /** The body of an `evaluate` response. */
  datatype EvalBody = EvalBody(result: string, reference: nat, typ: string, indexed: nat, named: nat)

  /** The run and step requests, and the command each issues. */
  datatype Resume = Continue | Next | StepIn | StepOut | StepBack

  function ResumeCommand(r: Resume): string
  {
    match r
    case Continue => "run"
    case Next => "next"
    case StepIn => "step 1"
    case StepOut => "finish"
    case StepBack => "backstep"
  }

  /** The first handle `Handles` gives out after creation or reset. */
  const StartHandle: nat := 1000

  const WaitingMarker: string := "Waiting for connection..."

  predicate NoDuplicates(xs: seq<string>)
  {
    forall i, j :: 0 <= i < j < |xs| ==> xs[i] != xs[j]
  }

  /** `xs.indexOf(x)` */
  function Position(xs: seq<string>, x: string): (i: int)
    ensures -1 <= i < |xs|
    ensures i == -1 <==> x !in xs
    ensures i >= 0 ==> xs[i] == x && x !in xs[..i]
  {
    if xs == [] then -1
    else if xs[0] == x then 0
    else
      var i := Position(xs[1..], x);
      if i == -1 then -1 else (assert xs[..i + 1] == [xs[0]] + xs[1..][..i]; i + 1)
  }

  /** The first position at or after `k` that ends a line: a line terminator or the end. */
  function LineEnd(s: string, k: nat): (e: nat)
    requires k <= |s|
    ensures k <= e <= |s| && (e == |s| || IsLineTerminator(s[e]))
    ensures forall i :: k <= i < e ==> !IsLineTerminator(s[i])
    decreases |s| - k
  {
    if k == |s| || IsLineTerminator(s[k]) then k else LineEnd(s, k + 1)
  }

  /** `/Waiting for connection\.\.\..*$/m.exec(buffer)[0]` when the buffer includes the
      notice: the text from the first notice to the end of its line. */
  function WaitingMessage(buffer: string): (m: Option<string>)
    ensures m.Some? <==> Contains(buffer, WaitingMarker)
  {
    var k := IndexOf(buffer, WaitingMarker);
    if k == -1 then None else Some(buffer[k..LineEnd(buffer, k + |WaitingMarker|)])
  }

  lemma MarkerOneLine()
    ensures forall i :: 0 <= i < |WaitingMarker| ==> !IsLineTerminator(WaitingMarker[i])
  {
  }

  /** The message is the line of the buffer that holds the first notice, from the notice
      on: it starts with the notice, stands at the notice's position, holds no line
      terminator and runs up to the end of the buffer or of the line. */
  lemma WaitingMessageLine(buffer: string)
    requires Contains(buffer, WaitingMarker)
    ensures var m := WaitingMessage(buffer).value;
            var k := IndexOf(buffer, WaitingMarker);
            0 <= k && k + |m| <= |buffer| && buffer[k..k + |m|] == m &&
            StartsWith(m, WaitingMarker) &&
            (forall i :: 0 <= i < |m| ==> !IsLineTerminator(m[i])) &&
            (k + |m| == |buffer| || IsLineTerminator(buffer[k + |m|]))
  {
    var k := IndexOf(buffer, WaitingMarker);
    var n := |WaitingMarker|;
    assert buffer[k..k + n] == WaitingMarker;
    MarkerOneLine();
    var e := LineEnd(buffer, k + n);
    var m := buffer[k..e];
    assert m[..n] == WaitingMarker;
    forall i | 0 <= i < |m| ensures !IsLineTerminator(m[i]) {
      if i < n {
        assert m[i] == WaitingMarker[i];
      } else {
        assert m[i] == buffer[k + i];
      }
    }
  }

  /** The breakpoint a `break` reply stands for, apart from its source. */
  predicate Agrees(bp: Breakpoint, reply: string)
  {
    match BreakReply.ParseBreakReply(reply)
    case None => bp == Unverified
    case Some(info) => bp.Verified? && bp.id == info.id && bp.line == info.line && bp.column == info.column &&
                       bp.source.name == info.file
  }

  /** The ids of the verified breakpoints, in order. */
  function VerifiedIds(bps: seq<Breakpoint>): (ids: seq<nat>)
    ensures |ids| <= |bps|
  {
    if bps == [] then []
    else VerifiedIds(bps[..|bps| - 1]) + (if Last(bps).Verified? then [Last(bps).id] else [])
  }

  /** An id is deleted exactly when some verified breakpoint of the list carries it. */
  lemma {:induction false} VerifiedIdsMembers(bps: seq<Breakpoint>)
    ensures forall id :: id in VerifiedIds(bps) <==> exists i :: 0 <= i < |bps| && bps[i].Verified? && bps[i].id == id
  {
    if bps != [] {
      var front := bps[..|bps| - 1];
      VerifiedIdsMembers(front);
      forall id | id in VerifiedIds(bps)
        ensures exists i :: 0 <= i < |bps| && bps[i].Verified? && bps[i].id == id
      {
        if id in VerifiedIds(front) {
          var i :| 0 <= i < |front| && front[i].Verified? && front[i].id == id;
          assert bps[i] == front[i];
        }
      }
      forall id, i | 0 <= i < |bps| && bps[i].Verified? && bps[i].id == id
        ensures id in VerifiedIds(bps)
      {
        if i < |front| {
          assert front[i] == bps[i];
        }
      }
    }
  }

  /** A variable shows a child: its name, its rendering, its counts, and a reference
      exactly when the child has children of its own, under which the handle table keeps
      the child. */
  predicate Describes(x: Values.Variable, c: (string, Values.Value), handles: map<nat, Values.Value>)
  {
    x.name == c.0 && x.value == Values.Repr(c.1) &&
    x.indexed == Values.IndexedCount(c.1) && x.named == Values.NamedCount(c.1) &&
    (x.reference != 0 <==> !c.1.Plain?) &&
    (x.reference != 0 ==> x.reference in handles && handles[x.reference] == c.1)
  }

  /** Handles once given out keep their values. */
  predicate Extends(before: map<nat, Values.Value>, after: map<nat, Values.Value>)
  {
    forall h :: h in before ==> h in after && after[h] == before[h]
  }

  lemma DescribesStep(vars: seq<Values.Variable>, cs: seq<(string, Values.Value)>,
                      before: map<nat, Values.Value>, after: map<nat, Values.Value>, x: Values.Variable)
    requires |vars| < |cs| && (forall k :: 0 <= k < |vars| ==> Describes(vars[k], cs[k], before))
    requires Extends(before, after) && Describes(x, cs[|vars|], after)
    ensures forall k :: 0 <= k < |vars| + 1 ==> Describes((vars + [x])[k], cs[k], after)
  {
    forall k | 0 <= k < |vars| + 1
      ensures Describes((vars + [x])[k], cs[k], after)
    {
      if k < |vars| {
        assert (vars + [x])[k] == vars[k];
      }
    }
  }

  /** The expander's state after the first `i` children: their variables, the next free
      handle, each variable describing its child, and the earlier handles kept. */
  predicate ExpandedUpTo(cs: seq<(string, Values.Value)>, i: nat, vars: seq<Values.Variable>, h0: nat, next: nat,
                         handles0: map<nat, Values.Value>, handles: map<nat, Values.Value>)
  {
    h0 > 0 && i <= |cs| &&
    vars == Values.ChildVariables(cs[..i], h0) && next == h0 + Values.HandlesUsed(cs[..i]) &&
    (forall k :: 0 <= k < i ==> Describes(vars[k], cs[k], handles)) &&
    Extends(handles0, handles)
  }

  /** Expanding one more child keeps `ExpandedUpTo`. */
  lemma ExpandStep(cs: seq<(string, Values.Value)>, i: nat, vars: seq<Values.Variable>, h0: nat, next: nat,
                   handles0: map<nat, Values.Value>, handles: map<nat, Values.Value>,
                   x: Values.Variable, next': nat, handles': map<nat, Values.Value>)
    requires ExpandedUpTo(cs, i, vars, h0, next, handles0, handles) && i < |cs|
    requires x == Values.CreateVariable(cs[i].0, cs[i].1, next) && Describes(x, cs[i], handles')
    requires Extends(handles, handles') && next' == next + (if cs[i].1.Plain? then 0 else 1)
    ensures ExpandedUpTo(cs, i + 1, vars + [x], h0, next', handles0, handles')
  {
    Values.ChildVariablesNext(cs, i, h0);
    DescribesStep(vars, cs, handles, handles', x);
  }

  function VariableName(x: Values.Variable): string
  {
    x.name
  }

  /** Filtering the variables of the children keeps a variable exactly when the filter
      keeps its child. */
  lemma KeptChildren(all: seq<Values.Variable>, cs: seq<(string, Values.Value)>, handles: map<nat, Values.Value>,
                     filter: Values.Filter)
    requires |all| == |cs| && forall k :: 0 <= k < |all| ==> Describes(all[k], cs[k], handles)
    ensures forall k :: 0 <= k < |Values.Filtered(all, VariableName, filter)| ==>
              var x := Values.Filtered(all, VariableName, filter)[k];
              Values.Keep(filter, x.name) && exists j :: 0 <= j < |cs| && Describes(x, cs[j], handles)
    ensures forall j :: 0 <= j < |cs| && Values.Keep(filter, cs[j].0) ==>
              exists k :: 0 <= k < |Values.Filtered(all, VariableName, filter)| &&
                          Describes(Values.Filtered(all, VariableName, filter)[k], cs[j], handles)
  {
    var vars := Values.Filtered(all, VariableName, filter);
    forall k | 0 <= k < |vars|
      ensures Values.Keep(filter, vars[k].name) && exists j :: 0 <= j < |cs| && Describes(vars[k], cs[j], handles)
    {
      Values.FilteredFrom(all, VariableName, filter, k);
      var j :| 0 <= j < |all| && all[j] == vars[k] && Values.Keep(filter, VariableName(all[j]));
      assert Describes(all[j], cs[j], handles);
    }
    forall j | 0 <= j < |cs| && Values.Keep(filter, cs[j].0)
      ensures exists k :: 0 <= k < |vars| && Describes(vars[k], cs[j], handles)
    {
      assert Describes(all[j], cs[j], handles);
      Values.FilteredKeeps(all, VariableName, filter, j);
      var k :| 0 <= k < |vars| && vars[k] == all[j];
    }
  }

  /** The `delete` commands for a list of breakpoint ids. */
  function DeleteCommands(ids: seq<nat>): (cmds: seq<string>)
    ensures |cmds| == |ids|
  {
    if ids == [] then [] else DeleteCommands(ids[..|ids| - 1]) + [BreakReply.DeleteCommand(Last(ids))]
  }

  /** One more breakpoint in the list adds its `delete` command when it is verified. */
  lemma DeletesStep(bps: seq<Breakpoint>, i: nat)
    requires i < |bps|
    ensures bps[i].Verified? ==>
              DeleteCommands(VerifiedIds(bps[..i + 1])) == DeleteCommands(VerifiedIds(bps[..i])) + [BreakReply.DeleteCommand(bps[i].id)]
    ensures bps[i].Unverified? ==> DeleteCommands(VerifiedIds(bps[..i + 1])) == DeleteCommands(VerifiedIds(bps[..i]))
  {
    assert bps[..i + 1][..i] == bps[..i];
    var ids := VerifiedIds(bps[..i]);
    if bps[i].Verified? {
      assert VerifiedIds(bps[..i + 1]) == ids + [bps[i].id];
      assert (ids + [bps[i].id])[..|ids|] == ids;
      assert DeleteCommands(ids + [bps[i].id]) == DeleteCommands(ids) + [BreakReply.DeleteCommand(bps[i].id)];
    } else {
      assert VerifiedIds(bps[..i + 1]) == ids;
    }
  }

  /** Each breakpoint of a list agrees with the reply at its position. */
  predicate AllAgree(bps: seq<Breakpoint>, replies: seq<string>)
  {
    |bps| == |replies| &&
    (bps != [] ==> AllAgree(bps[..|bps| - 1], replies[..|replies| - 1]) && Agrees(Last(bps), Last(replies)))
  }

  lemma AllAgreeStep(bps: seq<Breakpoint>, bp: Breakpoint, replies: seq<string>, i: nat)
    requires i < |replies| && AllAgree(bps, replies[..i]) && Agrees(bp, replies[i])
    ensures AllAgree(bps + [bp], replies[..i + 1])
  {
    assert (bps + [bp])[..|bps|] == bps;
    assert replies[..i + 1][..i] == replies[..i];
  }

  /** `AllAgree` holds exactly when every position agrees. */
  lemma {:induction false} AllAgreeAt(bps: seq<Breakpoint>, replies: seq<string>)
    requires |bps| == |replies|
    ensures AllAgree(bps, replies) <==> forall k :: 0 <= k < |bps| ==> Agrees(bps[k], replies[k])
  {
    if bps != [] {
      var n := |bps| - 1;
      AllAgreeAt(bps[..n], replies[..n]);
      if forall k :: 0 <= k < |bps| ==> Agrees(bps[k], replies[k]) {
        forall k | 0 <= k < n ensures Agrees(bps[..n][k], replies[..n][k]) {
          assert bps[..n][k] == bps[k] && replies[..n][k] == replies[k];
        }
      }
      if AllAgree(bps, replies) {
        forall k | 0 <= k < |bps| ensures Agrees(bps[k], replies[k]) {
          if k < n {
            assert bps[..n][k] == bps[k] && replies[..n][k] == replies[k];
          }
        }
      }
    }
  }

  /** The `break` commands for a list of arguments. */
  function BreakCommands(params: seq<string>): (cmds: seq<string>)
    ensures |cmds| == |params|
  {
    if params == [] then [] else BreakCommands(params[..|params| - 1]) + [BreakReply.BreakCommand(Last(params))]
  }

  lemma BreaksStep(params: seq<string>, i: nat)
    requires i < |params|
    ensures BreakCommands(params[..i + 1]) == BreakCommands(params[..i]) + [BreakReply.BreakCommand(params[i])]
  {
    assert params[..i + 1][..i] == params[..i];
  }

  /** The k-th `break` command carries the k-th argument. */
  lemma {:induction false} BreakCommandsAt(params: seq<string>)
    ensures forall k :: 0 <= k < |params| ==> BreakCommands(params)[k] == BreakReply.BreakCommand(params[k])
  {
    if params != [] {
      var n := |params| - 1;
      BreakCommandsAt(params[..n]);
      assert forall k :: 0 <= k < n ==> params[..n][k] == params[k];
    }
  }

  /** The arguments of the `break` commands of a line-breakpoint request. */
  function LineParams(scope: Option<string>, requests: seq<LineRequest>): seq<string>
  {
    seq(|requests|, i requires 0 <= i < |requests| => BreakReply.LineLocation(scope, requests[i].line, requests[i].column))
  }

  /** The module a `setBreakpoints` request names: through its source reference when it
      has one, else through its path, else none (`undefined`). A reference outside the
      registry makes `getModuleFromFilename(undefined)` throw, written None. */
  function ScopeOf(modules: seq<string>, filenames: seq<string>, sourceRef: int, sourcePath: Option<string>): (r: Option<Option<string>>)
    ensures r.None? <==> sourceRef > 0 && sourceRef > |filenames|
    ensures sourceRef > 0 && r.Some? ==> r.value == Some(ModuleNames.ModuleFromFilename(modules, filenames[sourceRef - 1]))
    ensures sourceRef <= 0 && sourcePath.Some? && sourcePath.value != [] ==>
              r == Some(Some(ModuleNames.ModuleFromFilename(modules, sourcePath.value)))
    ensures sourceRef <= 0 && (sourcePath.None? || sourcePath.value == []) ==> r == Some(None)
  {
    if sourceRef > 0 then
      if sourceRef > |filenames| then None
      else Some(Some(ModuleNames.ModuleFromFilename(modules, filenames[sourceRef - 1])))
    else if sourcePath.Some? && sourcePath.value != [] then
      Some(Some(ModuleNames.ModuleFromFilename(modules, sourcePath.value)))
    else Some(None)
  }

  /** The path `getSource` finds on disk for a file: `onDisk` maps each file that exists
      next to the program to its resolved path. */
  function DiskPath(onDisk: map<string, string>, filename: string): (p: Option<string>)
    ensures p.Some? <==> filename in onDisk
  {
    if filename in onDisk then Some(onDisk[filename]) else None
  }

  /** `src` is what `getSource` gives for its file under the registry `filenames`,
      `paths`: the confirmed path when there is one, and otherwise the file's synthetic
      reference with the path the lookup `onDisk` finds. */
  predicate SourceIn(src: Source, filenames: seq<string>, paths: map<string, string>, onDisk: map<string, string>)
  {
    (src.name in paths ==> src == Source(src.name, Some(paths[src.name]), 0)) &&
    (src.name !in paths ==> src.path == DiskPath(onDisk, src.name) && ReferenceIn(src, filenames))
  }

  /** The source's synthetic reference is the position of its file in `_filenames`, plus one. */
  predicate ReferenceIn(src: Source, filenames: seq<string>)
  {
    1 <= src.reference <= |filenames| && filenames[src.reference - 1] == src.name
  }

  /** The registry only grows: `_filenames` keeps its entries and `_filenameToPath` its paths. */
  predicate Grows(filenames: seq<string>, paths: map<string, string>, filenames': seq<string>, paths': map<string, string>)
  {
    |filenames| <= |filenames'| && filenames'[..|filenames|] == filenames &&
    forall f :: f in paths ==> f in paths' && paths'[f] == paths[f]
  }

  /** A synthetic reference that `getSource` handed out stays valid while the registry
      grows, and a later `setBreakpoints` on it targets the module of its file, whatever
      path the request carries. */
  lemma ReferenceResolves(modules: seq<string>, src: Source, filenames: seq<string>, filenames': seq<string>,
                           requestPath: Option<string>)
    requires ReferenceIn(src, filenames)
    requires |filenames| <= |filenames'| && filenames'[..|filenames|] == filenames
    ensures ScopeOf(modules, filenames', src.reference, requestPath) == Some(Some(ModuleNames.ModuleFromFilename(modules, src.name)))
  {
    assert filenames'[src.reference - 1] == src.name by {
      assert filenames'[..|filenames|][src.reference - 1] == filenames'[src.reference - 1];
    }
    ScopeOfNamed(modules, filenames', src.reference, requestPath, src.name);
  }

  lemma ScopeOfNamed(modules: seq<string>, filenames: seq<string>, sourceRef: int, sourcePath: Option<string>, name: string)
    requires 0 < sourceRef <= |filenames| && filenames[sourceRef - 1] == name
    ensures ScopeOf(modules, filenames, sourceRef, sourcePath) == Some(Some(ModuleNames.ModuleFromFilename(modules, name)))
  {
  }

  /** What locating a verified breakpoint does to the registry: its file's path is
      recorded when not known yet and the request's path ends with the file name; then the
      breakpoint's source is what `getSource` gives, the file being appended to
      `_filenames` when it has neither a path nor an entry. */
  predicate LocatedStep(files: seq<string>, paths: map<string, string>, files': seq<string>, paths': map<string, string>,
                        bp: Breakpoint, sourcePath: Option<string>, onDisk: map<string, string>)
  {
    bp.Verified? &&
    var f := bp.source.name;
    var recorded := f !in paths && sourcePath.Some? && EndsWith(sourcePath.value, f);
    paths' == (if recorded then paths[f := sourcePath.value] else paths) &&
    files' == (if f in paths' || f in files then files else files + [f]) &&
    SourceIn(bp.source, files', paths', onDisk)
  }

  /** `f` is the file of one of the verified breakpoints `bps`. */
  predicate BreakpointFile(f: string, bps: seq<Breakpoint>)
  {
    exists k :: 0 <= k < |bps| && bps[k].Verified? && bps[k].source.name == f
  }

  lemma BreakpointFileAppend(f: string, bps: seq<Breakpoint>, bp: Breakpoint)
    requires BreakpointFile(f, bps) || (bp.Verified? && bp.source.name == f)
    ensures BreakpointFile(f, bps + [bp])
  {
    if BreakpointFile(f, bps) {
      var k :| 0 <= k < |bps| && bps[k].Verified? && bps[k].source.name == f;
      assert (bps + [bp])[k] == bps[k];
    } else {
      assert (bps + [bp])[|bps|] == bp;
    }
  }

  /** The registry after a run of `break` replies, from `files`, `paths` to `files'`,
      `paths'`: it has grown; each new path is the request's path, taken for a breakpoint's
      file that it ends with; each new entry of `_filenames` is a breakpoint's file; each
      verified breakpoint's source is what `getSource` now gives for its file; and a file
      left without a path is one the request's path does not end with. */
  predicate RegistryAfter(files: seq<string>, paths: map<string, string>, files': seq<string>, paths': map<string, string>,
                          bps: seq<Breakpoint>, sourcePath: Option<string>, onDisk: map<string, string>)
  {
    Grows(files, paths, files', paths') &&
    (forall f :: f in paths' && f !in paths ==>
       sourcePath.Some? && paths'[f] == sourcePath.value && EndsWith(sourcePath.value, f) && BreakpointFile(f, bps)) &&
    (forall i :: |files| <= i < |files'| ==> BreakpointFile(files'[i], bps)) &&
    (forall k :: 0 <= k < |bps| && bps[k].Verified? ==> Resolved(bps[k].source, files', paths', sourcePath, onDisk))
  }

  /** A breakpoint's source that resolves in the registry, its file left without a path only
      when the request's path does not end with the file name. */
  predicate Resolved(src: Source, files: seq<string>, paths: map<string, string>, sourcePath: Option<string>,
                     onDisk: map<string, string>)
  {
    SourceIn(src, files, paths, onDisk) &&
    (src.name !in paths ==> !(sourcePath.Some? && EndsWith(sourcePath.value, src.name)))
  }

  lemma RegistryStart(files: seq<string>, paths: map<string, string>, sourcePath: Option<string>, onDisk: map<string, string>)
    ensures RegistryAfter(files, paths, files, paths, [], sourcePath, onDisk)
  {
    assert files[..|files|] == files;
  }

  /** A resolved source stays resolved when a `break` reply locates another breakpoint. */
  lemma ResolvedStep(src: Source, files1: seq<string>, paths1: map<string, string>, files2: seq<string>,
                     paths2: map<string, string>, bp: Breakpoint, sourcePath: Option<string>, onDisk: map<string, string>)
    requires Resolved(src, files1, paths1, sourcePath, onDisk)
    requires LocatedStep(files1, paths1, files2, paths2, bp, sourcePath, onDisk)
    ensures Resolved(src, files2, paths2, sourcePath, onDisk)
  {
    if src.name !in paths1 {
      assert src.name !in paths2;
      assert |files1| <= |files2| && files2[src.reference - 1] == files1[src.reference - 1];
    }
  }

  /** One more `break` reply keeps the registry invariant. */
  lemma RegisteredStep(files0: seq<string>, paths0: map<string, string>, files1: seq<string>, paths1: map<string, string>,
                       files2: seq<string>, paths2: map<string, string>, bps: seq<Breakpoint>, bp: Breakpoint,
                       sourcePath: Option<string>, onDisk: map<string, string>)
    requires RegistryAfter(files0, paths0, files1, paths1, bps, sourcePath, onDisk)
    requires bp.Unverified? ==> files2 == files1 && paths2 == paths1
    requires bp.Verified? ==> LocatedStep(files1, paths1, files2, paths2, bp, sourcePath, onDisk)
    ensures RegistryAfter(files0, paths0, files2, paths2, bps + [bp], sourcePath, onDisk)
  {
    var all := bps + [bp];
    assert |files1| <= |files2| && files2[..|files1|] == files1;
    assert files2[..|files0|] == files1[..|files0|];
    forall k | 0 <= k < |all| && all[k].Verified?
      ensures Resolved(all[k].source, files2, paths2, sourcePath, onDisk)
    {
      if k < |bps| {
        assert all[k] == bps[k];
        if bp.Verified? {
          ResolvedStep(bps[k].source, files1, paths1, files2, paths2, bp, sourcePath, onDisk);
        }
      } else {
        assert all[k] == bp;
      }
    }
    forall g | g in paths2 && g !in paths0
      ensures BreakpointFile(g, all)
    {
      BreakpointFileAppend(g, bps, bp);
    }
    forall i | |files0| <= i < |files2|
      ensures BreakpointFile(files2[i], all)
    {
      if i < |files1| {
        assert files2[i] == files1[i];
      }
      BreakpointFileAppend(files2[i], bps, bp);
    }
  }

  /** Without a request path (function breakpoints), no path is recorded. */
  lemma NoPathRecorded(files: seq<string>, paths: map<string, string>, files': seq<string>, paths': map<string, string>,
                       bps: seq<Breakpoint>, onDisk: map<string, string>)
    requires RegistryAfter(files, paths, files', paths', bps, None, onDisk)
    ensures paths' == paths
  {
    assert forall f :: f in paths' <==> f in paths;
  }

  /** `f` is the file of one of `frames`. */
  predicate FileOfFrame(f: string, frames: seq<StackFrame>)
  {
    exists k :: 0 <= k < |frames| && frames[k].source.name == f
  }

  /** Each entry of `_filenames` past `files0` is the file of one of `frames`. */
  predicate NewFilesFrom(files0: seq<string>, files: seq<string>, frames: seq<StackFrame>)
  {
    forall j :: |files0| <= j < |files| ==> FileOfFrame(files[j], frames)
  }

  /** One more stack frame keeps the earlier frames' sources valid. */
  lemma FrameStep(files0: seq<string>, files1: seq<string>, files2: seq<string>, paths: map<string, string>,
                  frames: seq<StackFrame>, frame: StackFrame, frames': seq<StackFrame>, onDisk: map<string, string>)
    requires |files0| <= |files1| && files1[..|files0|] == files0
    requires forall k :: 0 <= k < |frames| ==> SourceIn(frames[k].source, files1, paths, onDisk)
    requires NewFilesFrom(files0, files1, frames)
    requires files2 == files1 || files2 == files1 + [frame.source.name]
    requires SourceIn(frame.source, files2, paths, onDisk)
    requires frames' == frames + [frame]
    ensures |files0| <= |files2| && files2[..|files0|] == files0
    ensures forall k :: 0 <= k < |frames'| ==> SourceIn(frames'[k].source, files2, paths, onDisk)
    ensures NewFilesFrom(files0, files2, frames')
  {
    assert files2[..|files1|] == files1;
    assert files2[..|files0|] == files1[..|files0|];
    forall k | 0 <= k < |frames'| ensures SourceIn(frames'[k].source, files2, paths, onDisk) {
      if k < |frames| {
        assert frames'[k] == frames[k];
        var src := frames[k].source;
        if src.name !in paths {
          assert files2[src.reference - 1] == files1[src.reference - 1];
        }
      }
    }
    forall j | |files0| <= j < |files2|
      ensures FileOfFrame(files2[j], frames')
    {
      if j < |files1| {
        assert files2[j] == files1[j];
        var k :| 0 <= k < |frames| && frames[k].source.name == files1[j];
        assert frames'[k] == frames[k];
      } else {
        assert files2 == files1 + [frame.source.name];
        assert frames'[|frames|].source.name == files2[j];
      }
    }
  }

  class DebugSession {
    /** `_filenames`: the file names handed out as synthetic source references, reference
        `i + 1` for entry `i`. */
    var filenames: seq<string>
    /** `_filenameToPath`: file names whose path on disk is known. */
    var filenameToPath: map<string, string>
    /** `_modules`: the modules listed by `info modules`. */
    var modules: seq<string>
    /** `_breakpoints`, keyed by module (None for `undefined`); None once disconnected. */
    var breakpoints: Option<map<Option<string>, seq<Breakpoint>>>
    /** `_functionBreakpoints`; None once disconnected. */
    var functionBreakpoints: Option<seq<Breakpoint>>
    /** `_variableHandles`: the values whose children a handle stands for ... */
    var handles: map<nat, Values.Value>
    /** ... and the next handle it gives out. */
    var nextHandle: nat
    var remoteMode: bool
    /** The `once` flag of the launch handshake. */
    var listened: bool
    /** How many times the debuggee was launched. */
    var launches: nat
    /** Every command line handed to `ocdCommand`, in order. */
    var commands: seq<string>
    /** Every event sent to the front end, in order. */
    var events: seq<RunEvents.Event>

    ghost predicate Valid()
      reads this`filenames, this`handles, this`nextHandle, this`listened, this`launches
    {
      NoDuplicates(filenames) &&
      StartHandle <= nextHandle &&
      (forall h :: h in handles ==> StartHandle <= h < nextHandle && !handles[h].Plain?) &&
      (forall h :: StartHandle <= h < nextHandle ==> h in handles) &&
      launches <= 1 && (launches == 1 ==> listened)
    }

    /** `launchRequest` up to the handshake: the tables start empty, the handle table
        fresh, and the first command reads the debugger's banner. */
    constructor Launch(remote: bool)
      ensures Valid()
      ensures filenames == [] && filenameToPath == map[] && modules == []
      ensures breakpoints == Some(map[]) && functionBreakpoints == Some([])
      ensures handles == map[] && nextHandle == StartHandle
      ensures remoteMode == remote && !listened && launches == 0
      ensures commands == [] && events == []
    {
      filenames := [];
      filenameToPath := map[];
      modules := [];
      breakpoints := Some(map[]);
      functionBreakpoints := Some([]);
      handles := map[];
      nextHandle := StartHandle;
      remoteMode := remote;
      listened := false;
      launches := 0;
      commands := [];
      events := [];
    }

    /** The handshake: `set loadingmode manual`, `goto 0` and `info modules`, whose reply
        fills the module list before the front end hears that the adapter is initialized. */
    method Handshake(modulesReply: string)
      modifies this`commands, this`modules, this`events
      ensures commands == old(commands) + ["set loadingmode manual", "goto 0", "info modules"]
      ensures modules == ModuleNames.ParseModules(modulesReply)
      ensures events == old(events) + [RunEvents.Initialized]
    {
      commands := commands + ["set loadingmode manual", "goto 0", "info modules"];
      ReadModules(modulesReply);
      events := events + [RunEvents.Initialized];
    }

    /** The callback of `info modules`. */
    method ReadModules(reply: string)
      modifies this`modules
      ensures modules == ModuleNames.ParseModules(reply)
    {
      modules := ModuleNames.ParseModules(reply);
    }

    /** The streaming callback of `goto 0`: the first time the buffer shows the
        connection notice, a remote session reports the notice and a local one launches
        the debuggee; later calls do nothing. */
    method OnGotoStream(buffer: string)
      requires Valid()
      modifies this`listened, this`events, this`launches
      ensures Valid()
      ensures old(listened) || WaitingMessage(buffer).None? ==>
                listened == old(listened) && events == old(events) && launches == old(launches)
      ensures !old(listened) && WaitingMessage(buffer).Some? ==>
                listened &&
                (remoteMode ==> events == old(events) + [RunEvents.Output(WaitingMessage(buffer).value, RunEvents.Console)] &&
                                launches == old(launches)) &&
                (!remoteMode ==> events == old(events) && launches == 1)
    {
      var message := WaitingMessage(buffer);
      if message.Some? && !listened {
        listened := true;
        if remoteMode {
          events := events + [RunEvents.Output(message.value, RunEvents.Console)];
        } else {
          launches := launches + 1;
        }
      }
    }

    /** `configurationDoneRequest`: the launch script, if any, is sourced and its output
        shown; then the program either goes to its start (`stopOnEntry`) or runs, and
        the reply is classified. */
    method ConfigurationDone(script: string, scriptReply: string, stopOnEntry: bool, runReply: string)
      modifies this`commands, this`events
      ensures var start := if script != [] then ["source \"" + script + "\""] else [];
              commands == old(commands) + start + [if stopOnEntry then "goto 0" else "run"]
      ensures var shown := if script != [] && scriptReply != [] then [RunEvents.Output(scriptReply, RunEvents.Console)] else [];
              events == old(events) + shown + RunEvents.ParseEvent(runReply)
    {
      if script != [] {
        commands := commands + ["source \"" + script + "\""];
        if scriptReply != [] {
          events := events + [RunEvents.Output(scriptReply, RunEvents.Console)];
        }
      }
      if stopOnEntry {
        commands := commands + ["goto 0"];
      } else {
        commands := commands + ["run"];
      }
      events := events + RunEvents.ParseEvent(runReply);
    }

    /** `continueRequest`, `nextRequest`, `stepInRequest`, `stepOutRequest`, `stepBackRequest`. */
    method Run(r: Resume, reply: string)
      modifies this`commands, this`events
      ensures commands == old(commands) + [ResumeCommand(r)]
      ensures events == old(events) + RunEvents.ParseEvent(reply)
    {
      commands := commands + [ResumeCommand(r)];
      events := events + RunEvents.ParseEvent(reply);
    }

    /** `getSource`: a file with a known path is shown by that path; any other file gets the
        synthetic reference of its entry in `_filenames`, added at the end when new, and
        the path on disk the lookup `onDisk` finds for it, if any. */
    method GetSource(filename: string, onDisk: map<string, string>) returns (src: Source)
      requires Valid()
      modifies this`filenames
      ensures Valid()
      ensures src.name == filename
      ensures filename in filenameToPath ==>
                src == Source(filename, Some(filenameToPath[filename]), 0) && filenames == old(filenames)
      ensures filename !in filenameToPath ==>
                src.path == DiskPath(onDisk, filename) &&
                1 <= src.reference <= |filenames| && filenames[src.reference - 1] == filename
      ensures filename !in filenameToPath && filename in old(filenames) ==> filenames == old(filenames)
      ensures filename !in filenameToPath && filename !in old(filenames) ==>
                filenames == old(filenames) + [filename] && src.reference == |filenames|
      ensures SourceIn(src, filenames, filenameToPath, onDisk)
    {
      if filename in filenameToPath {
        return Source(filename, Some(filenameToPath[filename]), 0);
      }
      var index := Position(filenames, filename);
      if index == -1 {
        index := |filenames|;
        filenames := filenames + [filename];
      }
      src := Source(filename, DiskPath(onDisk, filename), index + 1);
    }

    /** The path hack of `doSetBreakpoint`: a file named in a `break` reply whose path is
        not known yet takes the request's path when that path ends with the file name. */
    method RecordPath(filename: string, sourcePath: Option<string>)
      modifies this`filenameToPath
      ensures if filename !in old(filenameToPath) && sourcePath.Some? && EndsWith(sourcePath.value, filename)
              then filenameToPath == old(filenameToPath)[filename := sourcePath.value]
              else filenameToPath == old(filenameToPath)
    {
      if filename !in filenameToPath && sourcePath.Some? && EndsWith(sourcePath.value, filename) {
        filenameToPath := filenameToPath[filename := sourcePath.value];
      }
    }

    /** `doSetBreakpoint(param, source)`: `break param`, and a verified breakpoint exactly
        when the reply has a breakpoint line, with that line's id, line, first character
        and file. */
    method SetBreakpoint(param: string, reply: string, sourcePath: Option<string>, onDisk: map<string, string>)
      returns (bp: Breakpoint)
      requires Valid()
      modifies this`commands, this`filenames, this`filenameToPath
      ensures Valid()
      ensures commands == old(commands) + [BreakReply.BreakCommand(param)]
      ensures Agrees(bp, reply)
      ensures bp.Unverified? ==> filenames == old(filenames) && filenameToPath == old(filenameToPath)
      ensures bp.Verified? ==> LocatedStep(old(filenames), old(filenameToPath), filenames, filenameToPath, bp, sourcePath, onDisk)
    {
      Issue([BreakReply.BreakCommand(param)]);
      var parsed := BreakReply.ParseBreakReply(reply);
      if parsed.None? {
        return Unverified;
      }
      bp := Locate(parsed.value, sourcePath, onDisk);
    }

    /** Appends commands handed to `ocdCommand`. */
    method Issue(cmds: seq<string>)
      modifies this`commands
      ensures commands == old(commands) + cmds
    {
      commands := commands + cmds;
    }

    /** The verified breakpoint of a `break` reply, with the source of its file. */
    method Locate(info: BreakReply.BreakInfo, sourcePath: Option<string>, onDisk: map<string, string>)
      returns (bp: Breakpoint)
      requires Valid()
      modifies this`filenames, this`filenameToPath
      ensures Valid()
      ensures bp.Verified? && bp.id == info.id && bp.line == info.line && bp.column == info.column &&
              bp.source.name == info.file
      ensures LocatedStep(old(filenames), old(filenameToPath), filenames, filenameToPath, bp, sourcePath, onDisk)
    {
      RecordPath(info.file, sourcePath);
      var src := GetSource(info.file, onDisk);
      bp := Verified(info.id, info.line, info.column, src);
    }

    /** `clearBreakpoints`: one `delete` per verified breakpoint, in order. */
    method ClearBreakpoints(bps: seq<Breakpoint>)
      modifies this`commands
      ensures commands == old(commands) + DeleteCommands(VerifiedIds(bps))
    {
      var i := 0;
      while i < |bps|
        invariant 0 <= i <= |bps|
        invariant commands == old(commands) + DeleteCommands(VerifiedIds(bps[..i]))
      {
        DeletesStep(bps, i);
        if bps[i].Verified? {
          var delete := BreakReply.DeleteCommand(bps[i].id);
          AppendAssociative(old(commands), DeleteCommands(VerifiedIds(bps[..i])), [delete]);
          commands := commands + [delete];
        }
        i := i + 1;
      }
      assert bps[..i] == bps;
    }

    /** The `for` loop of the breakpoint requests: one `break` per argument, in order, each
        giving the breakpoint its reply stands for. */
    method SetAll(params: seq<string>, replies: seq<string>, sourcePath: Option<string>, onDisk: map<string, string>)
      returns (result: seq<Breakpoint>)
      requires Valid() && |replies| == |params|
      modifies this`commands, this`filenames, this`filenameToPath
      ensures Valid()
      ensures commands == old(commands) + BreakCommands(params)
      ensures |result| == |params|
      ensures AllAgree(result, replies)
      ensures RegistryAfter(old(filenames), old(filenameToPath), filenames, filenameToPath, result, sourcePath, onDisk)
    {
      result := [];
      RegistryStart(filenames, filenameToPath, sourcePath, onDisk);
      var i := 0;
      while i < |params|
        invariant 0 <= i <= |params| && Valid() && |result| == i
        invariant commands == old(commands) + BreakCommands(params[..i])
        invariant AllAgree(result, replies[..i])
        invariant RegistryAfter(old(filenames), old(filenameToPath), filenames, filenameToPath, result, sourcePath, onDisk)
      {
        BreaksStep(params, i);
        ghost var (files, paths) := (filenames, filenameToPath);
        var bp := SetBreakpoint(params[i], replies[i], sourcePath, onDisk);
        AppendAssociative(old(commands), BreakCommands(params[..i]), [BreakReply.BreakCommand(params[i])]);
        AllAgreeStep(result, bp, replies, i);
        RegisteredStep(old(filenames), old(filenameToPath), files, paths, filenames, filenameToPath, result, bp, sourcePath, onDisk);
        result := result + [bp];
        i := i + 1;
      }
      assert params[..i] == params && replies[..i] == replies;
    }

    /** The body shared by both breakpoint requests: the previous breakpoints are cleared,
        then one `break` is issued per argument. */
    method Replace(previous: seq<Breakpoint>, params: seq<string>, replies: seq<string>, sourcePath: Option<string>,
                   onDisk: map<string, string>)
      returns (added: seq<Breakpoint>)
      requires Valid() && |replies| == |params|
      modifies this`commands, this`filenames, this`filenameToPath
      ensures Valid()
      ensures commands == old(commands) + DeleteCommands(VerifiedIds(previous)) + BreakCommands(params)
      ensures |added| == |params| && AllAgree(added, replies)
      ensures RegistryAfter(old(filenames), old(filenameToPath), filenames, filenameToPath, added, sourcePath, onDisk)
    {
      ClearBreakpoints(previous);
      added := SetAll(params, replies, sourcePath, onDisk);
    }

    /** `setBreakPointsRequest`: the previous verified breakpoints of the module are deleted,
        then one `break @ module line column` is issued per requested breakpoint, and the
        module's list becomes the new breakpoints, one per request. None when the request
        throws: a source reference outside the registry, or tables cleared by a disconnect. */
    method SetBreakpoints(sourceRef: int, sourcePath: Option<string>, requests: seq<LineRequest>, replies: seq<string>,
                          onDisk: map<string, string>)
      returns (result: Option<seq<Breakpoint>>)
      requires Valid() && |replies| == |requests|
      modifies this`commands, this`filenames, this`filenameToPath, this`breakpoints
      ensures Valid()
      ensures result.None? <==> old(breakpoints).None? || ScopeOf(modules, old(filenames), sourceRef, sourcePath).None?
      ensures result.None? ==> commands == old(commands) && filenames == old(filenames) &&
                               filenameToPath == old(filenameToPath) && breakpoints == old(breakpoints)
      ensures result.Some? ==>
                var scope := ScopeOf(modules, old(filenames), sourceRef, sourcePath).value;
                var table := old(breakpoints).value;
                var previous := if scope in table then table[scope] else [];
                commands == old(commands) + DeleteCommands(VerifiedIds(previous)) + BreakCommands(LineParams(scope, requests)) &&
                |result.value| == |requests| &&
                AllAgree(result.value, replies) &&
                breakpoints == Some(table[scope := result.value]) &&
                RegistryAfter(old(filenames), old(filenameToPath), filenames, filenameToPath, result.value, sourcePath, onDisk)
    {
      var lookup := ScopeOf(modules, filenames, sourceRef, sourcePath);
      if breakpoints.None? || lookup.None? {
        return None;
      }
      var scope := lookup.value;
      var table := breakpoints.value;
      var previous := if scope in table then table[scope] else [];
      var added := Replace(previous, LineParams(scope, requests), replies, sourcePath, onDisk);
      breakpoints := Some(table[scope := added]);
      result := Some(added);
    }

    /** `setFunctionBreakPointsRequest`: the same with the single list of function
        breakpoints, `break name` per requested function. */
    method SetFunctionBreakpoints(names: seq<string>, replies: seq<string>, onDisk: map<string, string>)
      returns (result: Option<seq<Breakpoint>>)
      requires Valid() && |replies| == |names|
      modifies this`commands, this`filenames, this`filenameToPath, this`functionBreakpoints
      ensures Valid()
      ensures result.None? <==> old(functionBreakpoints).None?
      ensures result.None? ==> commands == old(commands) && filenames == old(filenames) &&
                               filenameToPath == old(filenameToPath) && functionBreakpoints == old(functionBreakpoints)
      ensures result.Some? ==>
                commands == old(commands) + DeleteCommands(VerifiedIds(old(functionBreakpoints).value)) + BreakCommands(names) &&
                |result.value| == |names| &&
                AllAgree(result.value, replies) &&
                functionBreakpoints == result &&
                RegistryAfter(old(filenames), old(filenameToPath), filenames, filenameToPath, result.value, None, onDisk) && filenameToPath == old(filenameToPath)
    {
      if functionBreakpoints.None? {
        return None;
      }
      var added := Replace(functionBreakpoints.value, names, replies, None, onDisk);
      NoPathRecorded(old(filenames), old(filenameToPath), filenames, filenameToPath, added, onDisk);
      functionBreakpoints := Some(added);
      result := Some(added);
    }

    /** `stackTraceRequest`: `backtrace 100`, and one stack frame per decoded frame, in
        order, each with the source of its file. */
    method StackTrace(reply: string, onDisk: map<string, string>) returns (frames: seq<StackFrame>)
      requires Valid()
      modifies this`commands, this`filenames
      ensures Valid()
      ensures commands == old(commands) + ["backtrace 100"]
      ensures var infos := Backtrace.DecodeBacktrace(reply);
              |frames| == |infos| &&
              forall k :: 0 <= k < |frames| ==>
                frames[k].id == infos[k].index && frames[k].name == [] && frames[k].source.name == infos[k].file &&
                frames[k].line == infos[k].line && frames[k].column == infos[k].column
      ensures Grows(old(filenames), filenameToPath, filenames, filenameToPath)
      ensures forall k :: 0 <= k < |frames| ==> SourceIn(frames[k].source, filenames, filenameToPath, onDisk)
      ensures NewFilesFrom(old(filenames), filenames, frames)
    {
      commands := commands + ["backtrace 100"];
      var infos := Backtrace.DecodeBacktrace(reply);
      frames := FramesOf(infos, onDisk);
    }

    /** The `map` of `stackTraceRequest` over the decoded frames. */
    method FramesOf(infos: seq<Backtrace.FrameInfo>, onDisk: map<string, string>) returns (frames: seq<StackFrame>)
      requires Valid()
      modifies this`filenames
      ensures Valid()
      ensures |frames| == |infos| &&
              forall k :: 0 <= k < |frames| ==>
                frames[k].id == infos[k].index && frames[k].name == [] && frames[k].source.name == infos[k].file &&
                frames[k].line == infos[k].line && frames[k].column == infos[k].column
      ensures Grows(old(filenames), filenameToPath, filenames, filenameToPath)
      ensures forall k :: 0 <= k < |frames| ==> SourceIn(frames[k].source, filenames, filenameToPath, onDisk)
      ensures NewFilesFrom(old(filenames), filenames, frames)
    {
      frames := [];
      var i := 0;
      while i < |infos|
        invariant 0 <= i <= |infos| && Valid() && |frames| == i
        invariant forall k :: 0 <= k < i ==>
                    frames[k].id == infos[k].index && frames[k].name == [] && frames[k].source.name == infos[k].file &&
                    frames[k].line == infos[k].line && frames[k].column == infos[k].column
        invariant Grows(old(filenames), filenameToPath, filenames, filenameToPath)
        invariant forall k :: 0 <= k < i ==> SourceIn(frames[k].source, filenames, filenameToPath, onDisk)
        invariant NewFilesFrom(old(filenames), filenames, frames)
      {
        ghost var files := filenames;
        var src := GetSource(infos[i].file, onDisk);
        var frame := StackFrame(infos[i].index, [], src, infos[i].line, infos[i].column);
        FrameStep(old(filenames), files, filenames, filenameToPath, frames, frame, frames + [frame], onDisk);
        frames := frames + [frame];
        i := i + 1;
      }
    }

    /** `createVariable(name, value)`: a value with children is given a fresh handle. */
    method CreateVariable(name: string, v: Values.Value) returns (x: Values.Variable)
      requires Valid()
      modifies this`handles, this`nextHandle
      ensures Valid()
      ensures x == Values.CreateVariable(name, v, old(nextHandle))
      ensures Describes(x, (name, v), handles) && Extends(old(handles), handles)
      ensures v.Plain? ==> handles == old(handles) && nextHandle == old(nextHandle)
      ensures !v.Plain? ==> handles == old(handles)[old(nextHandle) := v] && nextHandle == old(nextHandle) + 1
    {
      if v.Plain? {
        x := Values.CreateVariable(name, v, nextHandle);
      } else {
        var h := NewHandle(v);
        x := Values.CreateVariable(name, v, h);
      }
    }

    /** `_variableHandles.create(...)`: a fresh handle for a value with children. */
    method NewHandle(v: Values.Value) returns (h: nat)
      requires Valid() && !v.Plain?
      modifies this`handles, this`nextHandle
      ensures Valid()
      ensures h == old(nextHandle) && h !in old(handles)
      ensures handles == old(handles)[h := v] && nextHandle == h + 1
    {
      h := nextHandle;
      handles := handles[h := v];
      nextHandle := nextHandle + 1;
    }

    /** `evaluateRequest`: `frame id` (the argument empty when the request names no frame)
        and `print (expression)`; the reply, once the value
        grammar has decoded it into a name, a value and a type, becomes the response body.
        A reply the grammar rejects gives a response without a body. */
    method Evaluate(frameId: Option<int>, expression: string, decoded: Option<(string, Values.Value, string)>)
      returns (body: Option<EvalBody>)
      requires Valid()
      modifies this`commands, this`handles, this`nextHandle
      ensures Valid()
      ensures |commands| == |old(commands)| + 2 && commands[..|old(commands)|] == old(commands)
      ensures frameId.Some? ==> commands[|old(commands)|] == "frame " + IntToString(frameId.value)
      ensures frameId.None? ==> commands[|old(commands)|] == "frame "
      ensures Last(commands) == "print (" + expression + ")"
      ensures body.Some? <==> decoded.Some?
      ensures body.Some? ==>
                var (name, v, typ) := decoded.value;
                var x := Values.TopVariable(name, v, typ, old(nextHandle));
                body.value == EvalBody(x.value, x.reference, typ, x.indexed, x.named) &&
                (x.reference != 0 ==> handles == old(handles)[x.reference := v])
      ensures decoded.None? || decoded.value.1.Plain? ==> handles == old(handles) && nextHandle == old(nextHandle)
      ensures decoded.Some? && !decoded.value.1.Plain? ==> nextHandle == old(nextHandle) + 1
    {
      var frame := if frameId.Some? then IntToString(frameId.value) else "";
      commands := commands + ["frame " + frame, "print (" + expression + ")"];
      if decoded.None? {
        return None;
      }
      var (name, v, typ) := decoded.value;
      var top := nextHandle;
      var x := CreateVariable(name, v);
      var shown := Values.TopVariable(name, v, typ, top);
      body := Some(EvalBody(shown.value, shown.reference, typ, shown.indexed, shown.named));
    }

    /** The expander of a value: one variable per child, in order, each child with children
        of its own getting a fresh handle. */
    method Expand(v: Values.Value) returns (vars: seq<Values.Variable>)
      requires Valid() && !v.Plain?
      modifies this`handles, this`nextHandle
      ensures Valid()
      ensures var cs := Values.Children(v);
              vars == Values.ChildVariables(cs, old(nextHandle)) &&
              nextHandle == old(nextHandle) + Values.HandlesUsed(cs) &&
              forall k :: 0 <= k < |vars| ==> Describes(vars[k], cs[k], handles)
      ensures Extends(old(handles), handles)
    {
      var cs := Values.Children(v);
      vars := [];
      var i := 0;
      while i < |cs|
        invariant Valid() && ExpandedUpTo(cs, i, vars, old(nextHandle), nextHandle, old(handles), handles)
      {
        ghost var (next, before) := (nextHandle, handles);
        var x := CreateVariable(cs[i].0, cs[i].1);
        ExpandStep(cs, i, vars, old(nextHandle), next, old(handles), before, x, nextHandle, handles);
        vars := vars + [x];
        i := i + 1;
      }
      assert cs[..i] == cs;
    }

    /** `variablesRequest`: the children of the value behind a handle, filtered; an unknown
        handle (for instance one from before a disconnect) has no children. */
    method Variables(reference: nat, filter: Values.Filter) returns (vars: seq<Values.Variable>)
      requires Valid()
      modifies this`handles, this`nextHandle
      ensures Valid()
      ensures Extends(old(handles), handles)
      ensures reference !in old(handles) ==> vars == [] && handles == old(handles) && nextHandle == old(nextHandle)
      ensures reference in old(handles) ==>
                var cs := Values.Children(old(handles)[reference]);
                vars == Values.Filtered(Values.ChildVariables(cs, old(nextHandle)), VariableName, filter) &&
                nextHandle == old(nextHandle) + Values.HandlesUsed(cs) &&
                (forall k :: 0 <= k < |vars| ==>
                   Values.Keep(filter, vars[k].name) && exists j :: 0 <= j < |cs| && Describes(vars[k], cs[j], handles)) &&
                (forall j :: 0 <= j < |cs| && Values.Keep(filter, cs[j].0) ==>
                   exists k :: 0 <= k < |vars| && Describes(vars[k], cs[j], handles))
    {
      if reference !in handles {
        return [];
      }
      var cs := Values.Children(handles[reference]);
      var all := Expand(handles[reference]);
      vars := Values.Filtered(all, VariableName, filter);
      KeptChildren(all, cs, handles, filter);
    }

    /** `sourceRequest`: the module of the file behind a synthetic reference is listed with
        `list module 1 100000` and its listing read back. A reference outside the registry
        makes the request throw, written None. */
    method SourceRequest(sourceRef: int, reply: string) returns (content: Option<string>)
      modifies this`commands
      ensures content.None? <==> !(1 <= sourceRef <= |filenames|)
      ensures content.None? ==> commands == old(commands)
      ensures content.Some? ==>
                commands == old(commands) + [Listing.ListCommand(ModuleNames.ModuleFromFilename(modules, filenames[sourceRef - 1]))] &&
                content.value == Listing.RetrieveSource(reply)
    {
      if !(1 <= sourceRef <= |filenames|) {
        return None;
      }
      var scope := ModuleNames.ModuleFromFilename(modules, filenames[sourceRef - 1]);
      commands := commands + [Listing.ListCommand(scope)];
      content := Some(Listing.RetrieveSource(reply));
    }

    /** `disconnectRequest`: every table is cleared; handles start again from the first. */
    method Disconnect()
      requires Valid()
      modifies this`remoteMode, this`breakpoints, this`functionBreakpoints, this`handles, this`nextHandle,
               this`filenames, this`filenameToPath
      ensures Valid()
      ensures !remoteMode && breakpoints.None? && functionBreakpoints.None?
      ensures handles == map[] && nextHandle == StartHandle
      ensures filenames == [] && filenameToPath == map[]
    {
      remoteMode := false;
      breakpoints := None;
      functionBreakpoints := None;
      handles := map[];
      nextHandle := StartHandle;
      filenames := [];
      filenameToPath := map[];
    }
  }
}
