/**
 * The desktop client's `ApiClient`: its connection settings, the headers
 * every request carries, and the line framing of `streamMessage`, which
 * reads a server-sent-event stream chunk by chunk, cuts it into lines at
 * `\n`, and yields the JSON payload of every complete `data: ` line.
 *
 * The network is a parameter: a `Response` holds the status and the body's
 * chunks, already decoded to text.
 */
module Api {
  import opened Wrappers
  import opened Text
  import opened JsonValue
  import opened JsonText

  /** `ApiConfig` */
  datatype ApiConfig = ApiConfig(baseUrl: string, authToken: Option<string>)

  /** What `fetch` gives back: the status, and the body's chunks in arrival order, if there is a body. */
  datatype Response = Response(ok: bool, statusText: string, body: Option<seq<string>>)

  /** The errors `streamMessage` throws before it yields anything. */
  datatype StreamError =
    | NotOk(statusText: string)   // Failed to stream message: <statusText>
    | NoBody                      // No response body

  const ContentType := "Content-Type"
  const Authorization := "Authorization"

  class ApiClient {
    var baseUrl: string
    var authToken: Option<string>

    constructor(config: ApiConfig)
      ensures baseUrl == config.baseUrl && authToken == config.authToken
    {
      baseUrl := config.baseUrl;
      authToken := config.authToken;
    }

    /** `setAuthToken(token)`: replaces the token and nothing else. */
    method SetAuthToken(token: string)
      modifies this
      ensures authToken == Some(token) && baseUrl == old(baseUrl)
      ensures Authorization in Headers() <==> token != ""
    {
      authToken := Some(token);
    }

    /**
     * `getHeaders()`: always the JSON content type; a bearer token exactly
     * when a non-empty token is stored.
     */
    function Headers(): (h: map<string, string>)
      reads this
      ensures ContentType in h && h[ContentType] == "application/json"
      ensures Authorization in h <==> authToken.Some? && authToken.value != ""
      ensures Authorization in h ==> h[Authorization] == "Bearer " + authToken.value
      ensures forall k :: k in h ==> k == ContentType || k == Authorization
    {
      var headers := map[ContentType := "application/json"];
      if authToken.Some? && authToken.value != "" then headers[Authorization := "Bearer " + authToken.value]
      else headers
    }

    /**
     * `streamMessage(messageId)`, all of it at once: the events in the
     * order they are yielded, or the error thrown before the first.
     */
    method StreamMessage(response: Response) returns (r: Result<seq<Value>, StreamError>)
      ensures r == StreamEvents(response)
    {
      if !response.ok {
        return Err(NotOk(response.statusText));
      }
      if response.body.None? {
        return Err(NoBody);
      }
      var chunks := response.body.value;
      var buffer := "";
      var events: seq<Value> := [];
      ghost var lines: seq<string> := [];
      var i := 0;
      while i < |chunks|
        invariant 0 <= i <= |chunks|
        invariant Split(Concat(chunks[..i]), '\n') == lines + [buffer]
        invariant '\n' !in buffer
        invariant events == EventsOf(lines)
      {
        buffer, events, lines := ReadChunk(chunks, i, buffer, events, lines);
        i := i + 1;
      }
      ReadAll(chunks, lines, buffer);
      return Ok(events);
    }

    /**
     * One read: the chunk is appended to the buffer and split at newlines;
     * the last piece stays as the new buffer, the others are complete lines
     * whose events are yielded after those of the earlier reads.
     */
    static method ReadChunk(chunks: seq<string>, i: nat, buffer: string, events: seq<Value>, ghost lines: seq<string>)
      returns (buffer': string, events': seq<Value>, ghost lines': seq<string>)
      requires i < |chunks| && Split(Concat(chunks[..i]), '\n') == lines + [buffer]
      requires events == EventsOf(lines)
      ensures Split(Concat(chunks[..i + 1]), '\n') == lines' + [buffer']
      ensures '\n' !in buffer'
      ensures events' == EventsOf(lines')
    {
      var pieces := Split(buffer + chunks[i], '\n');
      buffer' := Last(pieces);
      var complete := Init(pieces);
      var found := LineEvents(complete);
      ReadStep(chunks, i, lines, buffer, complete, buffer');
      EventsOfAppend(lines, complete);
      events', lines' := events + found, lines + complete;
    }

    /** `for (const line of lines)`: the events of the complete lines of one read, in order. */
    static method LineEvents(lines: seq<string>) returns (events: seq<Value>)
      ensures events == EventsOf(lines)
    {
      events := [];
      var j := 0;
      while j < |lines|
        invariant 0 <= j <= |lines|
        invariant events == EventsOf(lines[..j])
      {
        var line := lines[j];
        assert lines[..j + 1] == lines[..j] + [line];
        EventsOfSnoc(lines[..j], line);
        if StartsWith(line, "data: ") {
          var data := line[6..];
          var event := Parse(data);
          if event.Some? {
            events := events + [event.value];
          }
        }
        j := j + 1;
      }
      assert lines[..j] == lines;
    }
  }

  /** One more read: the complete lines it finishes follow the earlier ones, and its last piece is the new partial line. */
  lemma ReadStep(chunks: seq<string>, i: nat, lines: seq<string>, buffer: string, complete: seq<string>, rest: string)
    requires i < |chunks| && Split(Concat(chunks[..i]), '\n') == lines + [buffer]
    requires Split(buffer + chunks[i], '\n') == complete + [rest]
    ensures Split(Concat(chunks[..i + 1]), '\n') == (lines + complete) + [rest]
    ensures '\n' !in rest
  {
    assert Init(chunks[..i + 1]) == chunks[..i] && Last(chunks[..i + 1]) == chunks[i];
    BufferStep(Concat(chunks[..i]), chunks[i], lines, buffer);
    SplitPiecesHaveNoSep(buffer + chunks[i], '\n');
    assert rest == Split(buffer + chunks[i], '\n')[|complete|];
  }

  /** Once every chunk is read, the complete lines seen are those of the whole text. */
  lemma ReadAll(chunks: seq<string>, lines: seq<string>, buffer: string)
    requires Split(Concat(chunks[..|chunks|]), '\n') == lines + [buffer]
    ensures CompleteLines(Concat(chunks)) == lines
  {
    assert chunks[..|chunks|] == chunks;
    assert Init(lines + [buffer]) == lines;
  }

  lemma BufferStep(received: string, chunk: string, lines: seq<string>, buffer: string)
    requires Split(received, '\n') == lines + [buffer]
    ensures Split(received + chunk, '\n') == lines + Split(buffer + chunk, '\n')
  {
    SplitAppend(received, chunk, '\n');
    assert Init(lines + [buffer]) == lines && Last(lines + [buffer]) == buffer;
  }

  // ---------------------------------------------------------------------
  // The stream as text
  // ---------------------------------------------------------------------

  /** Everything received, in order. */
  function Concat(chunks: seq<string>): string
    decreases |chunks|
  {
    if chunks == [] then "" else Concat(Init(chunks)) + Last(chunks)
  }

  /** The event a complete line carries: the parsed text after an exact `data: ` prefix. */
  function EventOf(line: string): Option<Value> {
    if StartsWith(line, "data: ") then Parse(line[6..]) else None
  }

  /** The events of the lines, in order; lines without one are skipped. */
  function EventsOf(lines: seq<string>): seq<Value>
    decreases |lines|
  {
    if lines == [] then []
    else
      var e := EventOf(Last(lines));
      EventsOf(Init(lines)) + (if e.Some? then [e.value] else [])
  }

  lemma EventsOfSnoc(lines: seq<string>, line: string)
    ensures var e := EventOf(line);
      EventsOf(lines + [line]) == EventsOf(lines) + (if e.Some? then [e.value] else [])
  {
    assert Init(lines + [line]) == lines && Last(lines + [line]) == line;
  }

  lemma {:induction false} EventsOfAppend(xs: seq<string>, ys: seq<string>)
    ensures EventsOf(xs + ys) == EventsOf(xs) + EventsOf(ys)
    decreases |ys|
  {
    if ys == [] {
      assert xs + ys == xs;
    } else {
      EventsOfAppend(xs, Init(ys));
      assert xs + ys == (xs + Init(ys)) + [Last(ys)] && ys == Init(ys) + [Last(ys)];
      EventsOfSnoc(xs + Init(ys), Last(ys));
      EventsOfSnoc(Init(ys), Last(ys));
    }
  }

  /** The complete lines of a text: every piece before the last `\n`. */
  function CompleteLines(text: string): seq<string> {
    Init(Split(text, '\n'))
  }

  /** What `streamMessage` yields, or the error it throws first. */
  function StreamEvents(response: Response): Result<seq<Value>, StreamError> {
    if !response.ok then Err(NotOk(response.statusText))
    else if response.body.None? then Err(NoBody)
    else Ok(EventsOf(CompleteLines(Concat(response.body.value))))
  }

  // ---------------------------------------------------------------------
  // What the framing promises
  // ---------------------------------------------------------------------

  /** Text after the last newline never yields an event, however the stream ends. */
  lemma PartialLineNeverYielded(text: string, tail: string)
    requires '\n' !in tail
    ensures CompleteLines(text + tail) == CompleteLines(text)
    ensures EventsOf(CompleteLines(text + tail)) == EventsOf(CompleteLines(text))
  {
    var pieces := Split(text, '\n');
    SplitAppend(text, tail, '\n');
    SplitPiecesHaveNoSep(text, '\n');
    assert '\n' !in pieces[|pieces| - 1];
    SplitNoSep(Last(pieces) + tail, '\n');
  }

  /** Lines sent one after the other, each ended by `\n`. */
  function Framed(lines: seq<string>): string
    decreases |lines|
  {
    if lines == [] then "" else Framed(Init(lines)) + (Last(lines) + "\n")
  }

  /** A line ended by a newline splits into the line and an empty rest. */
  lemma SplitTerminated(line: string)
    requires '\n' !in line
    ensures Split(line + "\n", '\n') == [line, ""]
  {
    assert Join([line, ""], '\n') == line + "\n";
    SplitJoin([line, ""], '\n');
  }

  /**
   * Framing round trip: a stream of newline-terminated lines is cut back
   * into exactly those lines, so it yields the events of those lines in
   * order, whatever the chunking.
   */
  lemma {:induction false} FramedLines(lines: seq<string>)
    requires forall i :: 0 <= i < |lines| ==> '\n' !in lines[i]
    ensures Split(Framed(lines), '\n') == lines + [""]
    ensures CompleteLines(Framed(lines)) == lines
    decreases |lines|
  {
    if lines != [] {
      var init, line := Init(lines), Last(lines);
      FramedLines(init);
      BufferStep(Framed(init), line + "\n", init, "");
      assert "" + (line + "\n") == line + "\n";
      SplitTerminated(line);
      assert init + [line, ""] == lines + [""];
    }
    assert Init(lines + [""]) == lines;
  }

  /** The events of a framed stream are the events of its lines. */
  lemma FramedStreamEvents(lines: seq<string>, chunks: seq<string>, statusText: string)
    requires forall i :: 0 <= i < |lines| ==> '\n' !in lines[i]
    requires Concat(chunks) == Framed(lines)
    ensures StreamEvents(Response(true, statusText, Some(chunks))) == Ok(EventsOf(lines))
  {
    FramedLines(lines);
  }
}
