/** From file names to ocamldebug module names: `getModuleFromFilename`, and the reply
    of `info modules`, which lists the modules the debugger knows. */
module ModuleNames {
  import opened Text

  /** `path.basename(p)` for POSIX paths: the last component, ignoring trailing slashes. */
  function Basename(p: string): (b: string)
    ensures '/' !in b
  {
    Last(Split(DropTrailing(p, '/'), '/'))
  }

  function DropTrailing(s: string, c: char): (r: string)
    ensures r == [] || Last(r) != c
    ensures |r| <= |s| && r == s[..|r|]
  {
    if s != [] && Last(s) == c then DropTrailing(s[..|s| - 1], c) else s
  }

  /** `.replace(/^[a-z]/, c => c.toUpperCase())` */
  function Capitalize(s: string): (r: string)
    ensures |r| == |s| && (s != [] ==> r[1..] == s[1..])
    ensures s != [] && 'a' <= s[0] <= 'z' ==> 'A' <= r[0] <= 'Z' && r[0] as int == s[0] as int - 32
    ensures s != [] && !('a' <= s[0] <= 'z') ==> r == s
  {
    if s != [] && 'a' <= s[0] <= 'z' then [(s[0] as int - 32) as char] + s[1..] else s
  }

  /** The module name ocamldebug would give a file: its base name up to the first dot,
      with a lower-case first letter capitalised. */
  function Candidate(filename: string): string
  {
    Capitalize(Split(Basename(filename), '.')[0])
  }

  /** The last dot-separated component of a qualified module name. */
  function ShortName(qualified: string): (r: string)
    ensures '.' !in r
  {
    Last(Split(qualified, '.'))
  }

  /** The index of the first module whose short name is `name`. */
  function FirstNamed(modules: seq<string>, name: string): (r: Option<nat>)
    ensures r.Some? ==> r.value < |modules| && ShortName(modules[r.value]) == name
    ensures r.Some? ==> forall j :: 0 <= j < r.value ==> ShortName(modules[j]) != name
    ensures r.None? ==> forall j :: 0 <= j < |modules| ==> ShortName(modules[j]) != name
  {
    if modules == [] then None
    else if ShortName(modules[0]) == name then Some(0)
    else match FirstNamed(modules[1..], name)
      case None => None
      case Some(i) => Some(i + 1)
  }

  /** `getModuleFromFilename`: the first known module whose short name is the file's
      candidate name, or the candidate itself when no known module has that short name. */
  function ModuleFromFilename(modules: seq<string>, filename: string): string
  {
    match FirstNamed(modules, Candidate(filename))
    case Some(i) => modules[i]
    case None => Candidate(filename)
  }

  /** The module of a file is the first known module whose short name is the file's
      candidate, and the candidate itself when no known module has that short name. */
  lemma ModuleFromFilenameFirst(modules: seq<string>, filename: string)
    ensures var m := ModuleFromFilename(modules, filename);
            (exists i :: 0 <= i < |modules| && ShortName(modules[i]) == Candidate(filename)) ==>
              exists i :: 0 <= i < |modules| && m == modules[i] && ShortName(m) == Candidate(filename) &&
                forall j :: 0 <= j < i ==> ShortName(modules[j]) != Candidate(filename)
    ensures (forall i :: 0 <= i < |modules| ==> ShortName(modules[i]) != Candidate(filename)) ==>
              ModuleFromFilename(modules, filename) == Candidate(filename)
  {
  }

  /** The reply of `info modules`: without a leading `Used modules:`, white space runs
      turned into single spaces, trimmed, and split at the spaces. */
  function ParseModules(text: string): (modules: seq<string>)
    ensures |modules| >= 1
    ensures forall i :: 0 <= i < |modules| ==> NoSpace(modules[i])
  {
    var words := Trim(CollapseSpace(ModulesBody(text)));
    var modules := Split(words, ' ');
    TrimmedSpaces(CollapseSpace(ModulesBody(text)));
    WordsHaveNoSpace(words);
    modules
  }

  const UsedModules: string := "Used modules:"

  /** `text.replace(/^Used modules:/, '')` */
  function ModulesBody(text: string): string
  {
    if StartsWith(text, UsedModules) then text[|UsedModules|..] else text
  }

  /** Trimming keeps only characters of its argument, so the only white space left in
      collapsed text is the plain space. */
  lemma TrimmedSpaces(c: string)
    requires forall i :: 0 <= i < |c| && IsSpace(c[i]) ==> c[i] == ' '
    ensures var t := Trim(c); forall i :: 0 <= i < |t| && IsSpace(t[i]) ==> t[i] == ' '
  {
    TrimStartSuffix(c);
    var u := TrimStart(c);
    forall i | 0 <= i < |u| ensures u[i] == c[|c| - |u| + i] { }
  }

  /** Once runs of white space are single spaces and the ends are trimmed, splitting at
      the spaces leaves pieces without white space. */
  lemma WordsHaveNoSpace(words: string)
    requires forall i :: 0 <= i < |words| && IsSpace(words[i]) ==> words[i] == ' '
    ensures forall i :: 0 <= i < |Split(words, ' ')| ==> NoSpace(Split(words, ' ')[i])
  {
    var parts := Split(words, ' ');
    forall i | 0 <= i < |parts|
      ensures NoSpace(parts[i])
    {
      PieceOfSplit(words, ' ', i);
    }
  }

  lemma {:induction false} PieceOfSplit(s: string, sep: char, i: nat)
    requires i < |Split(s, sep)|
    ensures forall c :: c in Split(s, sep)[i] ==> c in s
  {
    if s != [] {
      var rest := Split(s[1..], sep);
      if s[0] == sep {
        if i > 0 { PieceOfSplit(s[1..], sep, i - 1); }
      } else if i == 0 {
        PieceOfSplit(s[1..], sep, 0);
      } else {
        PieceOfSplit(s[1..], sep, i);
      }
    }
  }

  lemma JoinEnds(ws: seq<string>)
    requires |ws| >= 1 && forall i :: 0 <= i < |ws| ==> ws[i] != [] && NoSpace(ws[i])
    ensures Join(ws, " ") != [] && !IsSpace(Join(ws, " ")[0]) && !IsSpace(Last(Join(ws, " ")))
  {
    if |ws| > 1 {
      JoinEnds(ws[1..]);
      var tail := Join(ws[1..], " ");
      assert Join(ws, " ") == ws[0] + (" " + tail);
    }
  }
  lemma CollapseStep(w: string, tail: string)
    requires NoSpace(w) && tail != [] && !IsSpace(tail[0]) && CollapseSpace(tail) == tail
    ensures CollapseSpace(w + (" " + tail)) == w + (" " + tail)
  {
    CollapseWord(w, " " + tail);
    CollapseLeadingSpace(tail);
  }

  lemma {:induction false} JoinCollapse(ws: seq<string>)
    requires |ws| >= 1 && forall i :: 0 <= i < |ws| ==> ws[i] != [] && NoSpace(ws[i])
    ensures CollapseSpace(Join(ws, " ")) == Join(ws, " ")
  {
    if |ws| > 1 {
      var tail := Join(ws[1..], " ");
      assert CollapseSpace(tail) == tail && tail != [] && !IsSpace(tail[0]) by {
        var rest := ws[1..];
        assert forall i :: 0 <= i < |rest| ==> rest[i] == ws[i + 1];
        JoinCollapse(rest);
        JoinEnds(rest);
      }
      assert Join(ws, " ") == ws[0] + (" " + tail);
      CollapseStep(ws[0], tail);
    } else {
      CollapseWordAlone(ws[0]);
    }
  }

  lemma CollapseWordAlone(w: string)
    requires NoSpace(w)
    ensures CollapseSpace(w) == w
  {
    CollapseWord(w, []);
    assert w + [] == w;
  }

  lemma ModulesBodyOf(words: string)
    ensures ModulesBody(UsedModules + " " + words) == " " + words
  {
    var text := UsedModules + " " + words;
    assert text[..|UsedModules|] == UsedModules;
    assert text[|UsedModules|..] == " " + words;
  }

  lemma WordsSurviveCleanup(ws: seq<string>)
    requires |ws| >= 1 && forall i :: 0 <= i < |ws| ==> ws[i] != [] && NoSpace(ws[i])
    ensures Trim(CollapseSpace(" " + Join(ws, " "))) == Join(ws, " ")
  {
    var words := Join(ws, " ");
    JoinEnds(ws);
    JoinCollapse(ws);
    CollapseLeadingSpace(words);
    assert (" " + words)[1..] == words;
    assert TrimStart(" " + words) == words;
  }

  lemma SplitWords(ws: seq<string>)
    requires |ws| >= 1 && forall i :: 0 <= i < |ws| ==> ws[i] != [] && NoSpace(ws[i])
    ensures Split(Join(ws, " "), ' ') == ws
  {
    forall i | 0 <= i < |ws|
      ensures ' ' !in ws[i]
    {
      assert NoSpace(ws[i]);
      assert IsSpace(' ');
    }
    SplitJoin(ws, ' ');
  }

  /** A module list printed the way ocamldebug prints it reads back as the same list. */
  lemma ParseModulesRoundTrip(ws: seq<string>)
    requires |ws| >= 1 && forall i :: 0 <= i < |ws| ==> ws[i] != [] && NoSpace(ws[i])
    ensures ParseModules(UsedModules + " " + Join(ws, " ")) == ws
  {
    ModulesBodyOf(Join(ws, " "));
    WordsSurviveCleanup(ws);
    SplitWords(ws);
  }

  /** The base name of `dir/name` is `name`, whatever the directories. */
  lemma BasenameOf(dir: string, name: string)
    requires name != [] && '/' !in name
    ensures Basename(dir + "/" + name) == name
  {
    var p := dir + "/" + name;
    assert Last(p) == Last(name);
    assert DropTrailing(p, '/') == p;
    SplitConcat(dir, name, '/');
    SplitNoSeparator(name, '/');
  }

  /** A file name without directories: its candidate is the capitalised text before
      the first dot. */
  lemma CandidateOf(stem: string, ext: string)
    requires '/' !in stem && '/' !in ext && '.' !in stem
    ensures Candidate(stem + "." + ext) == Capitalize(stem)
  {
    var f := stem + "." + ext;
    assert '/' !in f;
    assert DropTrailing(f, '/') == f;
    SplitNoSeparator(f, '/');
    SplitPiece(stem, ext, '.');
  }

  /** The request's full path `dir/stem.ext`: the directories are dropped, and the
      candidate is the capitalised stem. */
  lemma CandidateOfPath(dir: string, stem: string, ext: string)
    requires '/' !in stem && '/' !in ext && '.' !in stem
    ensures Candidate(dir + "/" + stem + "." + ext) == Capitalize(stem)
  {
    var f := stem + "." + ext;
    assert dir + "/" + stem + "." + ext == dir + "/" + f;
    BasenameOf(dir, f);
    SplitPiece(stem, ext, '.');
  }

  /** The short name of `Qualifier.Name` is `Name`. */
  lemma ShortNameOf(qualifier: string, name: string)
    requires '.' !in qualifier && '.' !in name
    ensures ShortName(qualifier + "." + name) == name
  {
    SplitPiece(qualifier, name, '.');
    SplitNoSeparator(name, '.');
  }

  /** A source file `dir/stem.ext` belongs to the first known module `Qualifier.Stem`, with
      the stem capitalised, when no earlier known module has that short name: the
      directories are dropped and the short names are compared, not the whole names, so
      `src/list_map.ml` goes to `Mylib.List_map` even though `Stdlib.List` comes first. */
  lemma QualifiedModuleFound(earlier: seq<string>, qualifier: string, dir: string, stem: string, ext: string)
    requires '/' !in stem && '/' !in ext && '.' !in stem && '.' !in qualifier
    requires forall i :: 0 <= i < |earlier| ==> ShortName(earlier[i]) != Capitalize(stem)
    ensures ModuleFromFilename(earlier + [qualifier + "." + Capitalize(stem)], dir + "/" + stem + "." + ext) ==
              qualifier + "." + Capitalize(stem)
  {
    var modules := earlier + [qualifier + "." + Capitalize(stem)];
    CandidateOfPath(dir, stem, ext);
    assert '.' !in Capitalize(stem) by {
      if stem != [] { assert Capitalize(stem)[1..] == stem[1..]; }
    }
    ShortNameOf(qualifier, Capitalize(stem));
    assert modules[|earlier|] == qualifier + "." + Capitalize(stem);
    ModuleFromFilenameFirst(modules, dir + "/" + stem + "." + ext);
  }
}
