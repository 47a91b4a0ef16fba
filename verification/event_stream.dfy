/** The chat proxy (`AiServlet.proxyChat`): the upstream URL, the checks
    before the upstream call, the rewrite of the `stream` flag, and the
    loop that reads the upstream's event stream line by line and writes
    only the text of each event. The event stream is a reduced form of the
    server-sent events format of section 9.2 of the WHATWG HTML Living
    Standard: only lines starting "data: " carry data, and a blank line
    dispatches. JSON parsing and writing, and the HTTP exchange itself, are
    inputs.
 */
module EventStream {
  import opened Wrappers
  import opened Text

  // ---------------------------------------------------------------------
  // Upstream URL

  /** The completions endpoint under the configured base URL. */
  function Target(base: string): (r: string)
    ensures StartsWith(r, base) && EndsWith(r, "/chat/completions")
    ensures |r| == |base| + (if EndsWith(base, "/") then 16 else 17)
  {
    if EndsWith(base, "/") then
      var r := base + "chat/completions";
      assert r[..|base|] == base;
      assert r[|r| - 17..] == base[|base| - 1..] + "chat/completions";
      r
    else
      var r := base + "/chat/completions";
      assert r[..|base|] == base;
      r
  }

  /** A trailing slash on the base URL makes no difference. */
  lemma TargetIgnoresTrailingSlash(base: string)
    requires !EndsWith(base, "/")
    ensures Target(base + "/") == Target(base)
  {
    var b := base + "/";
    assert b[|b| - 1..] == "/";
    assert b + "chat/completions" == base + "/chat/completions";
  }

  // ---------------------------------------------------------------------
  // The request body

  /** A JSON value as far as the `stream` flag is concerned. */
  datatype JsonValue = JBool(b: bool) | JOther(text: string)

  type JsonObject = map<string, JsonValue>

  /** `stream` becomes `true` unless it already is the boolean `true`;
      every other member is kept. */
  function WithStream(m: JsonObject): (r: JsonObject)
    ensures "stream" in r && r["stream"] == JBool(true)
    ensures forall k :: k in m && k != "stream" ==> k in r && r[k] == m[k]
    ensures forall k :: k in r ==> k in m || k == "stream"
  {
    if "stream" in m && m["stream"] == JBool(true) then m else m["stream" := JBool(true)]
  }

  /** Forcing the flag twice is forcing it once. */
  lemma WithStreamIdempotent(m: JsonObject)
    ensures WithStream(WithStream(m)) == WithStream(m)
  {
  }

  /** The body sent upstream: a JSON object is rewritten with the flag
      forced on; anything else goes as it came. */
  function Payload(body: string, parse: string -> Option<JsonObject>, write: JsonObject -> string): (r: string)
    ensures parse(body).None? ==> r == body
    ensures parse(body).Some? ==> r == write(WithStream(parse(body).value))
  {
    match parse(body)
    case None => body
    case Some(m) => write(WithStream(m))
  }

  // ---------------------------------------------------------------------
  // Events

  /** What the JSON parser makes of one event's text: not JSON, or a value
      that may have a `choices` array (each choice's `delta.content` as
      text, when present) and may have a top-level `content`. */
  datatype Parsed = NotJson | Json(choices: Option<seq<Option<string>>>, content: Option<string>)

  /** The non-empty texts of the choices, in order. */
  function Deltas(cs: seq<Option<string>>): (r: string)
    ensures cs == [] ==> r == []
    decreases |cs|
  {
    if cs == [] then []
    else (if cs[0].Some? then cs[0].value else []) + Deltas(cs[1..])
  }

  /** What one dispatched event writes: the choices' texts when there is a
      choices array, else the top-level content, else the event's own text
      (also when it is not JSON). */
  function Extract(event: string, p: Parsed): (r: string)
    ensures p.NotJson? ==> r == event
    ensures p.Json? && p.choices.None? && p.content.None? ==> r == event
    ensures p.Json? && p.choices.Some? ==> r == Deltas(p.choices.value)
    ensures p.Json? && p.choices.None? && p.content.Some? ==> r == p.content.value
  {
    match p
    case NotJson => event
    case Json(choices, content) =>
      if choices.Some? then Deltas(choices.value)
      else if content.Some? then content.value
      else event
  }

  /** The framing state: data buffered since the last dispatch, what has
      been written, and whether "[DONE]" ended the stream. */
  datatype Framer = Framer(buf: string, out: string, done: bool)

  const Start: Framer := Framer([], [], false)

  const DataPrefix: string := "data: "

  /** One line of the upstream's answer. */
  function Step(st: Framer, line: string, parse: string -> Parsed): (r: Framer)
    ensures st.done ==> r == st
    ensures StartsWith(r.out, st.out)
  {
    if st.done then st
    else if StartsWith(line, DataPrefix) then
      st.(buf := st.buf + line[|DataPrefix|..] + "\n")
    else if IsBlank(line) then
      var event := Trim(st.buf);
      if event == [] then st.(buf := [])
      else if event == "[DONE]" then Framer([], st.out + "[DONE]", true)
      else Framer([], st.out + Extract(event, parse(event)), false)
    else st
  }

  /** The lines, one after the other. */
  function Run(st: Framer, lines: seq<string>, parse: string -> Parsed): (r: Framer)
    decreases |lines|
  {
    if lines == [] then st else Run(Step(st, lines[0], parse), lines[1..], parse)
  }

  lemma {:induction false} RunAppend(st: Framer, a: seq<string>, b: seq<string>, parse: string -> Parsed)
    ensures Run(st, a + b, parse) == Run(Run(st, a, parse), b, parse)
    decreases |a|
  {
    if a == [] {
      assert a + b == b;
    } else {
      assert (a + b)[1..] == a[1..] + b;
      RunAppend(Step(st, a[0], parse), a[1..], b, parse);
    }
  }

  /** The read loop with its `break` on "[DONE]". */
  method Stream(lines: seq<string>, parse: string -> Parsed) returns (out: string)
    ensures out == Run(Start, lines, parse).out
  {
    var st := Start;
    var i := 0;
    while i < |lines|
      invariant 0 <= i <= |lines|
      invariant st == Run(Start, lines[..i], parse)
      invariant !st.done
    {
      assert lines[..i + 1] == lines[..i] + [lines[i]];
      RunAppend(Start, lines[..i], [lines[i]], parse);
      st := Step(st, lines[i], parse);
      i := i + 1;
      if st.done {
        RunAppend(Start, lines[..i], lines[i..], parse);
        assert lines[..i] + lines[i..] == lines;
        DoneStays(st, lines[i..], parse);
        return st.out;
      }
    }
    assert lines[..i] == lines;
    out := st.out;
  }

  /** Once "[DONE]" is seen, later lines change nothing. */
  lemma {:induction false} DoneStays(st: Framer, lines: seq<string>, parse: string -> Parsed)
    requires st.done
    ensures Run(st, lines, parse) == st
    decreases |lines|
  {
    if lines != [] {
      DoneStays(st, lines[1..], parse);
    }
  }

  /** Whatever follows the line that ended the stream is never read. */
  lemma DoneStops(a: seq<string>, b: seq<string>, parse: string -> Parsed)
    ensures Run(Start, a, parse).done ==> Run(Start, a + b, parse) == Run(Start, a, parse)
  {
    if Run(Start, a, parse).done {
      RunAppend(Start, a, b, parse);
      DoneStays(Run(Start, a, parse), b, parse);
    }
  }

  /** Written text is never taken back. */
  lemma {:induction false} RunGrows(st: Framer, lines: seq<string>, parse: string -> Parsed)
    ensures StartsWith(Run(st, lines, parse).out, st.out)
    decreases |lines|
  {
    if lines != [] {
      var next := Step(st, lines[0], parse);
      RunGrows(next, lines[1..], parse);
      StartsWithTrans(Run(next, lines[1..], parse).out, next.out, st.out);
    }
  }

  /** Without a blank line nothing is dispatched: data still buffered when
      the answer ends is never written. */
  lemma {:induction false} NoBlankNoOutput(st: Framer, lines: seq<string>, parse: string -> Parsed)
    requires forall i :: 0 <= i < |lines| ==> !IsBlank(lines[i])
    ensures Run(st, lines, parse).out == st.out
    ensures Run(st, lines, parse).done == st.done
    decreases |lines|
  {
    if lines != [] {
      NoBlankNoOutput(Step(st, lines[0], parse), lines[1..], parse);
    }
  }

  /** Trimming a line of data with its newline gives the data back. */
  lemma TrimDataLine(p: string)
    requires |p| > 0 && !IsSpace(p[0]) && !IsSpace(p[|p| - 1])
    ensures Trim(p + "\n") == p
  {
    var s := p + "\n";
    assert s[0] == p[0];
    assert TrimStart(s) == s;
    assert s[|s| - 1] == '\n' && IsSpace('\n');
    assert s[..|s| - 1] == p;
    assert TrimEnd(p) == p;
    assert TrimEnd(s) == p;
  }

  /** One data line and a blank line write that event's text. */
  lemma OneEvent(p: string, parse: string -> Parsed)
    requires |p| > 0 && !IsSpace(p[0]) && !IsSpace(p[|p| - 1]) && p != "[DONE]"
    ensures Run(Start, [DataPrefix + p, ""], parse) == Framer([], Extract(p, parse(p)), false)
  {
    var line := DataPrefix + p;
    assert StartsWith(line, DataPrefix) && line[|DataPrefix|..] == p;
    TrimDataLine(p);
    var st := Step(Start, line, parse);
    assert st.buf == p + "\n";
    assert IsBlank("");
    assert Run(Start, [line, ""], parse) == Run(st, [""], parse);
  }

  /** A line that neither carries data nor is blank is ignored. */
  lemma OtherLinesIgnored(st: Framer, line: string, parse: string -> Parsed)
    requires !StartsWith(line, DataPrefix) && !IsBlank(line)
    ensures Step(st, line, parse) == st
  {
  }

  // ---------------------------------------------------------------------
  // The whole exchange

  /** The upstream's answer: its status and the lines of the body it
      offered (`None` when it offered no stream at all). */
  datatype Remote = Remote(status: int, lines: Option<seq<string>>)

  datatype Reply =
    | Rejected(status: int, message: string)
    | Forwarded(target: string, payload: string, status: int, text: string)
    | Failed(status: int, message: string)

  /** The stand-in body when the upstream offers no stream. */
  function EmptyRemote(status: int): (s: string)
    ensures |s| > 0 && s[0] == '{'
  {
    "{" + ("\"success\":false,\"message\":\"Empty response from remote (status=" + IntToString(status) + ")\"}")
  }

  /** The lines the read loop sees: the upstream's body, or the stand-in
      when it offered none. */
  function RemoteLines(rm: Remote): (lines: seq<string>)
    ensures rm.lines.Some? ==> lines == rm.lines.value
    ensures rm.lines.None? ==> lines == [EmptyRemote(rm.status)]
  {
    if rm.lines.Some? then rm.lines.value else [EmptyRemote(rm.status)]
  }

  /** `proxyChat`: the key and body checks answer 400 before any upstream
      call; otherwise the payload goes to the target, and the upstream's
      status and the framed text come back, or 500 when the exchange
      throws. */
  function Proxy(apiKey: Option<string>, base: string, body: string,
                 parseBody: string -> Option<JsonObject>, write: JsonObject -> string,
                 remote: Outcome<Remote>, parse: string -> Parsed): (r: Reply)
    ensures apiKey.None? || apiKey.value == [] ==> r == Rejected(400, "DASHSCOPE_API_KEY not configured on server")
    ensures apiKey.Some? && apiKey.value != [] && IsBlank(body) ==> r == Rejected(400, "Request body is required")
    ensures r.Forwarded? ==> r.target == Target(base) && r.payload == Payload(body, parseBody, write)
    ensures r.Failed? ==> r.status == 500 && remote.Exn? && r.message == "Proxy failed: " + remote.msg
    // past the checks: a thrown exchange fails, and an answered one is
    // forwarded under the upstream's status with the text the read loop
    // writes
    ensures apiKey.Some? && apiKey.value != [] && !IsBlank(body) ==>
              !r.Rejected? && (r.Failed? <==> remote.Exn?)
    ensures apiKey.Some? && apiKey.value != [] && !IsBlank(body) && remote.Ok? ==>
              r == Forwarded(Target(base), Payload(body, parseBody, write), remote.v.status,
                             Run(Start, RemoteLines(remote.v), parse).out)
  {
    if apiKey.None? || apiKey.value == [] then Rejected(400, "DASHSCOPE_API_KEY not configured on server")
    else if IsBlank(body) then Rejected(400, "Request body is required")
    else
      var payload := Payload(body, parseBody, write);
      match remote
      case Exn(msg) => Failed(500, "Proxy failed: " + msg)
      case Ok(rm) =>
        Forwarded(Target(base), payload, rm.status, Run(Start, RemoteLines(rm), parse).out)
  }

  /** When the upstream offers no stream, its stand-in body is not event
      data, so nothing is written under the upstream's status. */
  lemma EmptyRemoteWritesNothing(apiKey: Option<string>, base: string, body: string,
                                 parseBody: string -> Option<JsonObject>, write: JsonObject -> string,
                                 status: int, parse: string -> Parsed)
    requires apiKey.Some? && apiKey.value != [] && !IsBlank(body)
    ensures Proxy(apiKey, base, body, parseBody, write, Ok(Remote(status, None)), parse)
            == Forwarded(Target(base), Payload(body, parseBody, write), status, [])
  {
    var line := EmptyRemote(status);
    assert !StartsWith(line, DataPrefix) by {
      assert DataPrefix[0] == 'd';
    }
    assert !IsBlank(line) by {
      assert !IsSpace(line[0]);
    }
    NoBlankNoOutput(Start, [line], parse);
  }
}
