/** The command pipeline of `OCamlDebugSession` (`ocdCommand` and `readUntilPrompt`).
    Commands go to the debugger one at a time: the promise chain `_wait` becomes an
    explicit FIFO of pending jobs, the debugger's standard output becomes the chunks
    passed to `Feed`, its standard error the chunks passed to `FeedStderr`, and what is
    written to its standard input becomes the log `written`. */
module Pipeline {
  import opened Text

  /** The prompt ocamldebug prints when it is ready for the next command. */
  const Prompt: string := "(ocd) "

  /** A response is complete once the buffer's last six characters are the prompt. */
  predicate Framed(buffer: string)
  {
    EndsWith(buffer, Prompt)
  }

  /** The response carried by a complete buffer: the text before the prompt, less one
      trailing newline if there is one. */
  function Frame(buffer: string): (response: string)
    requires Framed(buffer)
    ensures response + Prompt == buffer || response + "\n" + Prompt == buffer
  {
    var output := buffer[..|buffer| - |Prompt|];
    if output != [] && Last(output) == '\n' then output[..|output| - 1] else output
  }

  /** A response followed by a newline and the prompt frames back to itself; so does a
      response that does not end in a newline, followed directly by the prompt. */
  lemma FrameRoundTrip(response: string)
    ensures Framed(response + "\n" + Prompt) && Frame(response + "\n" + Prompt) == response
    ensures response == [] || Last(response) != '\n' ==>
              Framed(response + Prompt) && Frame(response + Prompt) == response
  {
    var b := response + "\n" + Prompt;
    assert b[..|b| - |Prompt|] == response + "\n";
    assert b[|b| - |Prompt|..] == Prompt;
    var c := response + Prompt;
    assert c[..|c| - |Prompt|] == response;
    assert c[|c| - |Prompt|..] == Prompt;
  }

  /** The prompt inside a response does not end it unless it is the buffer's tail. */
  lemma PromptInsideIsNotFramed(before: string, after: string)
    requires after != [] && !EndsWith(after, Prompt)
    ensures !Framed(before + Prompt + after)
  {
    var b := before + Prompt + after;
    var n := |Prompt|;
    if |after| >= n {
      assert b[|b| - n..] == after[|after| - n..];
    } else {
      // The tail would begin inside the prompt, at a character other than `(`.
      assert b[|b| - n] == Prompt[|after|];
      assert Prompt[|after|] != '(';
    }
  }

  /** ocamldebug prints `done.` on its standard error after loading; that exact chunk is
      dropped, every other chunk is shown to the user. */
  predicate ForwardStderr(chunk: string)
  {
    chunk != "done.\n"
  }

  /** A queued command. `line` is None for the read of the banner that ends with the first
      prompt, which writes nothing; `streaming` says whether the command has the second,
      streaming callback. */
  datatype Job = Job(id: nat, line: Option<string>, streaming: bool)

  /** One call of a streaming callback: the job it belongs to and the whole buffer so far. */
  datatype StreamView = StreamView(id: nat, buffer: string)

  /** What the jobs write to the debugger's standard input, in order. */
  function Writes(js: seq<Job>): seq<string>
  {
    if js == [] then []
    else Writes(js[..|js| - 1]) + (if Last(js).line.Some? then [Last(js).line.value + "\n"] else [])
  }

  lemma WritesAppend(js: seq<Job>, j: Job)
    ensures Writes(js + [j]) == Writes(js) + Writes([j])
  {
    assert (js + [j])[..|js|] == js;
    assert [j][..0] == [];
  }

  function Active(current: Option<Job>): seq<Job>
  {
    if current.Some? then [current.value] else []
  }

  class CommandQueue {
    /** Commands waiting for their turn, oldest first. */
    var pending: seq<Job>
    /** The command whose response is being read, if any. */
    var current: Option<Job>
    /** The normalised text read so far for the current command. */
    var buffer: string
    /** Everything written to the debugger's standard input. */
    var written: seq<string>
    /** The commands whose completion callbacks ran, in the order they ran ... */
    var completed: seq<Job>
    /** ... and the framed response each callback received. */
    var responses: seq<string>
    /** The streaming callbacks that ran, in the order they ran. */
    var streamed: seq<StreamView>
    /** Standard-error chunks shown to the user as output events. */
    var diagnostics: seq<string>
    var nextId: nat
    /** Every job ever queued, in queuing order. */
    ghost var issued: seq<Job>

    ghost predicate Valid()
      reads this
    {
      issued == completed + Active(current) + pending &&
      |responses| == |completed| &&
      written == Writes(completed + Active(current)) &&
      (current.None? ==> pending == [] && buffer == []) &&
      nextId == |issued| &&
      forall i :: 0 <= i < |issued| ==> issued[i].id == i
    }

    /** Launching the debugger starts by reading its banner, up to the first prompt. */
    constructor Launch()
      ensures Valid()
      ensures current == Some(Job(0, None, false)) && pending == [] && buffer == []
      ensures written == [] && completed == [] && responses == [] && streamed == [] && diagnostics == []
    {
      pending := [];
      current := Some(Job(0, None, false));
      buffer := [];
      written := [];
      completed := [];
      responses := [];
      streamed := [];
      diagnostics := [];
      nextId := 1;
      issued := [Job(0, None, false)];
    }

    /** `ocdCommand(line, callback, callback2?)`: the command is written at once when the
        debugger is idle, and otherwise waits behind the commands queued before it. */
    method Command(line: string, streaming: bool) returns (id: nat)
      requires Valid()
      modifies this
      ensures Valid()
      ensures id == |old(issued)| && issued == old(issued) + [Job(id, Some(line), streaming)]
      ensures completed == old(completed) && responses == old(responses) && streamed == old(streamed)
      ensures diagnostics == old(diagnostics) && buffer == old(buffer)
      ensures old(current).None? ==>
                current == Some(Job(id, Some(line), streaming)) && pending == [] &&
                written == old(written) + [line + "\n"]
      ensures old(current).Some? ==>
                current == old(current) && pending == old(pending) + [Job(id, Some(line), streaming)] &&
                written == old(written)
    {
      id := nextId;
      var job := Job(id, Some(line), streaming);
      nextId := nextId + 1;
      issued := issued + [job];
      if current.None? {
        assert completed + Active(current) == completed;
        current := Some(job);
        written := written + [line + "\n"];
        WritesAppend(completed, job);
        assert Writes([job]) == [line + "\n"];
      } else {
        pending := pending + [job];
      }
    }

    /** A chunk of the debugger's standard output. With no command listening it is lost;
        otherwise it is normalised and appended to the buffer, the streaming callback (if
        any) sees the whole buffer, and if the buffer now ends with the prompt the
        command completes with the framed response and the next queued command is written. */
    method Feed(chunk: string)
      requires Valid()
      modifies this
      ensures Valid()
      ensures issued == old(issued) && diagnostics == old(diagnostics)
      ensures old(current).None? ==>
                current == old(current) && buffer == old(buffer) && written == old(written) &&
                completed == old(completed) && responses == old(responses) && streamed == old(streamed)
      ensures old(current).Some? ==>
                var job := old(current).value;
                var b := old(buffer) + NormalizeNewlines(chunk);
                streamed == old(streamed) + (if job.streaming then [StreamView(job.id, b)] else []) &&
                (Framed(b) ==>
                   completed == old(completed) + [job] && responses == old(responses) + [Frame(b)] &&
                   buffer == [] &&
                   (old(pending) == [] ==> current.None? && written == old(written)) &&
                   (old(pending) != [] ==>
                      current == Some(old(pending)[0]) && pending == old(pending)[1..] &&
                      written == old(written) + Writes([old(pending)[0]]))) &&
                (!Framed(b) ==>
                   completed == old(completed) && responses == old(responses) &&
                   buffer == b && current == old(current) &&
                   pending == old(pending) && written == old(written))
    {
      if current.None? {
        return;
      }
      var job := current.value;
      buffer := buffer + NormalizeNewlines(chunk);
      if job.streaming {
        streamed := streamed + [StreamView(job.id, buffer)];
      }
      if Framed(buffer) {
        Resolve();
      }
    }

    /** The current command's buffer ends with the prompt: its callback runs with the
        framed response, its listeners go, and the next queued command (if any) is written. */
    method Resolve()
      requires Valid() && current.Some? && Framed(buffer)
      modifies this`completed, this`responses, this`buffer, this`current, this`pending, this`written
      ensures Valid()
      ensures completed == old(completed) + [old(current).value]
      ensures responses == old(responses) + [Frame(old(buffer))] && buffer == []
      ensures old(pending) == [] ==> current.None? && pending == [] && written == old(written)
      ensures old(pending) != [] ==>
                current == Some(old(pending)[0]) && pending == old(pending)[1..] &&
                written == old(written) + Writes([old(pending)[0]])
    {
      completed := completed + [current.value];
      responses := responses + [Frame(buffer)];
      buffer := [];
      assert issued == completed + pending;
      if pending == [] {
        current := None;
        assert completed + Active(current) == completed;
      } else {
        var next := pending[0];
        assert pending == [next] + pending[1..];
        current := Some(next);
        pending := pending[1..];
        written := written + Writes([next]);
        WritesAppend(completed, next);
        assert issued == completed + [next] + pending;
      }
    }

    /** A chunk of the debugger's standard error, while a command is listening. */
    method FeedStderr(chunk: string)
      requires Valid()
      modifies this`diagnostics
      ensures Valid()
      ensures diagnostics ==
                old(diagnostics) + (if current.Some? && ForwardStderr(chunk) then [chunk] else [])
    {
      if current.Some? && ForwardStderr(chunk) {
        diagnostics := diagnostics + [chunk];
      }
    }
  }
}
