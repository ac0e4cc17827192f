/** The incremental event-stream parser of `LLMInterface::stream_write_callback`: a line
    splitter that is handed the bytes of a response in fragments of any size. */
module EventStream {
  import opened Common
  import opened Strings

  /** JSON parsing and the lookup of `choices[0].delta.content`: `None` when the text is not
      JSON or has no such string. */
  type DeltaParser = string -> Option<string>

  datatype Context = Context(buffer: string, fullReply: string, chunks: seq<string>)

  const EMPTY_CONTEXT := Context("", "", [])

  const DATA_PREFIX := "data: "
  const DONE_LINE := "data: [DONE]"

  /** What one complete line adds to the chunk list: nothing or one non-empty string. */
  function LineContent(delta: DeltaParser, line: string): seq<string> {
    if line == "" || line == DONE_LINE then []
    else if !StartsWith(line, DATA_PREFIX) then []
    else match delta(line[|DATA_PREFIX|..])
      case None => []
      case Some(content) => if content == "" then [] else [content]
  }

  function AddLine(delta: DeltaParser, ctx: Context, line: string): Context {
    var content := LineContent(delta, line);
    ctx.(fullReply := ctx.fullReply + Concat(content), chunks := ctx.chunks + content)
  }

  /** The callback's loop: consume complete lines until the buffer holds none. */
  function Drain(delta: DeltaParser, ctx: Context): Context
    decreases |ctx.buffer|
  {
    match Find(ctx.buffer, "\n")
    case None => ctx
    case Some(pos) =>
      Drain(delta, AddLine(delta, ctx.(buffer := ctx.buffer[pos + 1..]), ctx.buffer[..pos]))
  }

  function Feed(delta: DeltaParser, ctx: Context, contents: string): Context {
    Drain(delta, ctx.(buffer := ctx.buffer + contents))
  }

  function FeedAll(delta: DeltaParser, ctx: Context, fragments: seq<string>): Context
    decreases |fragments|
  {
    if fragments == [] then ctx
    else FeedAll(delta, Feed(delta, ctx, fragments[0]), fragments[1..])
  }

  // ---------- Reference meaning of a byte string, independent of the buffer ----------

  /** The complete lines of `bytes`, read one byte at a time. */
  function Lines(bytes: string): seq<string> {
    if bytes == "" then []
    else
      var init := bytes[..|bytes| - 1];
      if bytes[|bytes| - 1] == '\n' then Lines(init) + [Rest(init)] else Lines(init)
  }

  /** The bytes after the last newline. */
  function Rest(bytes: string): string {
    if bytes == "" then ""
    else
      var init := bytes[..|bytes| - 1];
      if bytes[|bytes| - 1] == '\n' then "" else Rest(init) + [bytes[|bytes| - 1]]
  }

  function Unlines(lines: seq<string>): string {
    if lines == [] then "" else lines[0] + "\n" + Unlines(lines[1..])
  }

  function Contents(delta: DeltaParser, lines: seq<string>): seq<string> {
    if lines == [] then [] else LineContent(delta, lines[0]) + Contents(delta, lines[1..])
  }

  function Meaning(delta: DeltaParser, bytes: string): Context {
    var chunks := Contents(delta, Lines(bytes));
    Context(Rest(bytes), Concat(chunks), chunks)
  }

  lemma {:induction false} UnlinesAppend(a: seq<string>, b: seq<string>)
    ensures Unlines(a + b) == Unlines(a) + Unlines(b)
  {
    if a == [] {
      assert a + b == b;
    } else {
      assert (a + b)[1..] == a[1..] + b;
      UnlinesAppend(a[1..], b);
    }
  }

  lemma {:induction false} ContentsAppend(delta: DeltaParser, a: seq<string>, b: seq<string>)
    ensures Contents(delta, a + b) == Contents(delta, a) + Contents(delta, b)
  {
    if a == [] {
      assert a + b == b;
    } else {
      assert (a + b)[1..] == a[1..] + b;
      ContentsAppend(delta, a[1..], b);
    }
  }

  lemma AppendAssociative<T>(a: seq<T>, b: seq<T>, c: seq<T>)
    ensures (a + b) + c == a + (b + c)
  {
  }

  lemma UnlinesPush(lines: seq<string>, rest: string)
    ensures Unlines(lines + [rest]) == (Unlines(lines) + rest) + "\n"
  {
    UnlinesAppend(lines, [rest]);
    assert [rest][1..] == [];
    assert Unlines([rest]) == rest + "\n";
  }

  /** No byte is lost, added or moved: consumed lines, their newlines and the buffer spell the
      input, and neither a line nor the buffer contains a newline. */
  lemma {:induction false} ByteConservation(bytes: string)
    ensures Unlines(Lines(bytes)) + Rest(bytes) == bytes
    ensures '\n' !in Rest(bytes)
    ensures forall line :: line in Lines(bytes) ==> '\n' !in line
  {
    if bytes != "" {
      var init, last := bytes[..|bytes| - 1], bytes[|bytes| - 1];
      ByteConservation(init);
      assert bytes == init + [last];
      if last == '\n' {
        UnlinesPush(Lines(init), Rest(init));
      } else {
        AppendAssociative(Unlines(Lines(init)), Rest(init), [last]);
      }
    }
  }

  lemma {:induction false} NewlineFreeRest(bytes: string)
    requires '\n' !in bytes
    ensures Lines(bytes) == [] && Rest(bytes) == bytes
  {
    if bytes != "" {
      NewlineFreeRest(bytes[..|bytes| - 1]);
      assert bytes == bytes[..|bytes| - 1] + [bytes[|bytes| - 1]];
    }
  }

  lemma SnocLines(init: string, last: char)
    ensures Lines(init + [last]) == Lines(init) + (if last == '\n' then [Rest(init)] else [])
    ensures Rest(init + [last]) == if last == '\n' then "" else Rest(init) + [last]
  {
    assert (init + [last])[..|init|] == init;
  }

  lemma SplitPush(a: string, init: string, last: char)
    requires Lines(a + init) == Lines(a) + Lines(Rest(a) + init)
    requires Rest(a + init) == Rest(Rest(a) + init)
    ensures Lines((a + init) + [last]) == Lines(a) + Lines((Rest(a) + init) + [last])
    ensures Rest((a + init) + [last]) == Rest((Rest(a) + init) + [last])
  {
    SnocLines(a + init, last);
    SnocLines(Rest(a) + init, last);
    AppendAssociative(Lines(a), Lines(Rest(a) + init), if last == '\n' then [Rest(a + init)] else []);
  }

  /** Splitting `a + b` is splitting `a`, then continuing with what `a` left over. */
  lemma {:induction false} SplitAppend(a: string, b: string)
    ensures Lines(a + b) == Lines(a) + Lines(Rest(a) + b)
    ensures Rest(a + b) == Rest(Rest(a) + b)
  {
    if b == "" {
      ByteConservation(a);
      NewlineFreeRest(Rest(a));
      assert a + b == a && Rest(a) + b == Rest(a);
    } else {
      var init, last := b[..|b| - 1], b[|b| - 1];
      SplitAppend(a, init);
      SplitPush(a, init, last);
      assert b == init + [last];
      AppendAssociative(a, init, [last]);
      AppendAssociative(Rest(a), init, [last]);
    }
  }

  lemma SplitAtNewline(line: string, more: string)
    requires '\n' !in line
    ensures Lines(line + "\n" + more) == [line] + Lines(more)
    ensures Rest(line + "\n" + more) == Rest(more)
  {
    var first := line + "\n";
    assert first[..|first| - 1] == line;
    NewlineFreeRest(line);
    SplitAppend(first, more);
    assert "" + more == more;
  }

  /** The lines-and-rest view is the only way to read the bytes. */
  lemma {:induction false} UniqueSplit(lines: seq<string>, rest: string)
    requires '\n' !in rest && forall line :: line in lines ==> '\n' !in line
    ensures Lines(Unlines(lines) + rest) == lines
    ensures Rest(Unlines(lines) + rest) == rest
  {
    if lines == [] {
      assert Unlines(lines) + rest == rest;
      NewlineFreeRest(rest);
    } else {
      UniqueSplit(lines[1..], rest);
      assert Unlines(lines) + rest == lines[0] + "\n" + (Unlines(lines[1..]) + rest);
      SplitAtNewline(lines[0], Unlines(lines[1..]) + rest);
    }
  }

  // ---------- The callback computes the meaning ----------

  lemma FindNewline(s: string)
    ensures Find(s, "\n").None? <==> '\n' !in s
    ensures Find(s, "\n").Some? ==>
              var pos := Find(s, "\n").value;
              pos < |s| && '\n' !in s[..pos] && s == s[..pos] + "\n" + s[pos + 1..]
  {
    forall i: nat | i < |s| && s[i] == '\n'
      ensures OccursAt(s, "\n", i)
    {
      assert s[i..i + 1] == "\n";
    }
    if Find(s, "\n").Some? {
      var pos := Find(s, "\n").value;
      assert s[pos..pos + 1] == "\n";
      assert s == s[..pos] + s[pos..pos + 1] + s[pos + 1..];
    }
  }

  lemma LineThenLines(delta: DeltaParser, ctx: Context, line: string, more: string)
    requires Lines(ctx.buffer) == [line] + Lines(more)
    ensures var next := AddLine(delta, ctx, line);
            var added, rest := Contents(delta, Lines(ctx.buffer)), Contents(delta, Lines(more));
            && next.chunks + rest == ctx.chunks + added
            && next.fullReply + Concat(rest) == ctx.fullReply + Concat(added)
  {
    var content, rest := LineContent(delta, line), Contents(delta, Lines(more));
    assert Contents(delta, Lines(ctx.buffer)) == content + rest by {
      assert ([line] + Lines(more))[1..] == Lines(more);
    }
    ConcatAppend(content, rest);
    AppendAssociative(ctx.fullReply, Concat(content), Concat(rest));
    AppendAssociative(ctx.chunks, content, rest);
  }

  /** Draining any context yields its old chunks followed by those of the buffered lines. */
  lemma {:induction false} DrainMeaning(delta: DeltaParser, ctx: Context)
    ensures var added := Contents(delta, Lines(ctx.buffer));
            Drain(delta, ctx)
            == Context(Rest(ctx.buffer), ctx.fullReply + Concat(added), ctx.chunks + added)
    decreases |ctx.buffer|
  {
    FindNewline(ctx.buffer);
    match Find(ctx.buffer, "\n")
    case None =>
      NewlineFreeRest(ctx.buffer);
    case Some(pos) =>
      var line, more := ctx.buffer[..pos], ctx.buffer[pos + 1..];
      DrainMeaning(delta, AddLine(delta, ctx.(buffer := more), line));
      SplitAtNewline(line, more);
      LineThenLines(delta, ctx, line, more);
  }

  lemma FeedMeaning(delta: DeltaParser, received: string, contents: string)
    ensures Feed(delta, Meaning(delta, received), contents) == Meaning(delta, received + contents)
  {
    var ctx := Meaning(delta, received);
    DrainMeaning(delta, ctx.(buffer := ctx.buffer + contents));
    SplitAppend(received, contents);
    var more := Lines(Rest(received) + contents);
    ContentsAppend(delta, Lines(received), more);
    ConcatAppend(Contents(delta, Lines(received)), Contents(delta, more));
  }

  lemma {:induction false} FeedAllMeaning(delta: DeltaParser, received: string, fragments: seq<string>)
    ensures FeedAll(delta, Meaning(delta, received), fragments)
         == Meaning(delta, received + Concat(fragments))
    decreases |fragments|
  {
    if fragments == [] {
      assert received + Concat(fragments) == received;
    } else {
      FeedMeaning(delta, received, fragments[0]);
      FeedAllMeaning(delta, received + fragments[0], fragments[1..]);
      AppendAssociative(received, fragments[0], Concat(fragments[1..]));
    }
  }

  /** However the bytes are cut into callback calls, the final context is that of one call on
      all of them, namely the line-by-line meaning of the bytes. */
  lemma {:induction false} FragmentationInvariance(delta: DeltaParser, fragments: seq<string>)
    ensures FeedAll(delta, EMPTY_CONTEXT, fragments) == Feed(delta, EMPTY_CONTEXT, Concat(fragments))
    ensures FeedAll(delta, EMPTY_CONTEXT, fragments) == Meaning(delta, Concat(fragments))
  {
    assert Meaning(delta, "") == EMPTY_CONTEXT;
    FeedAllMeaning(delta, "", fragments);
    FeedMeaning(delta, "", Concat(fragments));
    assert "" + Concat(fragments) == Concat(fragments);
  }

  // ---------- Print and parse ----------

  /** A line that has to show up in the reply: a data line, not the end marker, whose JSON has a
      content that is not empty. */
  predicate Carries(delta: DeltaParser, line: string, content: string) {
    && line != "data: [DONE]"
    && |line| >= 6 && line[..6] == "data: "
    && delta(line[6..]) == Some(content) && content != ""
  }

  /** A complete line that must leave no trace: empty lines, the end marker, comments, chunks that
      only name a role, unreadable JSON, empty contents. */
  ghost predicate Silent(delta: DeltaParser, line: string) {
    '\n' !in line && forall content :: !Carries(delta, line, content)
  }

  /** What a server may send: a reply delta, or any silent line. */
  datatype Event = Reply(text: string) | Other(line: string)

  function Render(encode: string -> string, events: seq<Event>): seq<string> {
    if events == [] then []
    else [if events[0].Reply? then "data: " + encode(events[0].text) else events[0].line] + Render(encode, events[1..])
  }

  function Texts(events: seq<Event>): seq<string> {
    if events == [] then []
    else (if events[0].Reply? then [events[0].text] else []) + Texts(events[1..])
  }

  /** `encode` writes one-line JSON that `delta` reads back; `[DONE]` itself is not such JSON. */
  ghost predicate Inverts(delta: DeltaParser, encode: string -> string) {
    forall text :: '\n' !in encode(text) && encode(text) != "[DONE]" && delta(encode(text)) == Some(text)
  }

  ghost predicate Sendable(delta: DeltaParser, events: seq<Event>) {
    forall e :: e in events ==> if e.Reply? then e.text != "" else Silent(delta, e.line)
  }

  const CHUNK_OPENING := "{\"choices\":[{\"delta\":{\"content\":\""
  const CHUNK_CLOSING := "\"}}]}"

  function Escape(text: string): string {
    if text == "" then ""
    else
      (if text[0] == '\n' then "\\n" else if text[0] in {'\\', '"'} then ['\\', text[0]] else [text[0]]) + Escape(text[1..])
  }

  function Unescape(text: string): string {
    if text == "" then ""
    else if text[0] == '\\' && |text| > 1 then [if text[1] == 'n' then '\n' else text[1]] + Unescape(text[2..])
    else [text[0]] + Unescape(text[1..])
  }

  /** The smallest chunk object with this content, and its reader. */
  function EncodeChunk(text: string): string {
    CHUNK_OPENING + Escape(text) + CHUNK_CLOSING
  }

  function DecodeChunk(json: string): Option<string> {
    if |json| < |CHUNK_OPENING| + |CHUNK_CLOSING| || !StartsWith(json, CHUNK_OPENING) then None
    else Some(Unescape(json[|CHUNK_OPENING|..|json| - |CHUNK_CLOSING|]))
  }

  lemma {:induction false} EscapeRoundTrip(text: string)
    ensures Unescape(Escape(text)) == text
    ensures '\n' !in Escape(text)
  {
    if text != "" {
      EscapeRoundTrip(text[1..]);
      var escaped, rest := Escape(text), Escape(text[1..]);
      if text[0] == '\n' || text[0] in {'\\', '"'} {
        assert escaped[2..] == rest;
      } else {
        assert escaped[1..] == rest;
      }
    }
  }

  lemma Wrapped(opening: string, text: string, closing: string)
    ensures var json := opening + text + closing;
            && StartsWith(json, opening) && json[|opening|..|json| - |closing|] == text
            && ('\n' !in opening && '\n' !in text && '\n' !in closing ==> '\n' !in json)
  {
    var json := opening + text + closing;
    assert json[..|opening|] == opening;
    assert json[|opening|..|json| - |closing|] == text;
  }

  lemma FrameFacts()
    ensures '\n' !in CHUNK_OPENING && '\n' !in CHUNK_CLOSING && |CHUNK_OPENING| > |"[DONE]"|
  {
  }

  lemma ChunkRoundTrip(text: string)
    ensures '\n' !in EncodeChunk(text) && DecodeChunk(EncodeChunk(text)) == Some(text)
  {
    EscapeRoundTrip(text);
    Wrapped(CHUNK_OPENING, Escape(text), CHUNK_CLOSING);
    assert '\n' !in EncodeChunk(text) by { FrameFacts(); }
  }

  /** The condition of the round trip can be met. */
  lemma ChunksInvert()
    ensures Inverts(DecodeChunk, EncodeChunk)
  {
    FrameFacts();
    forall text: string
      ensures '\n' !in EncodeChunk(text) && EncodeChunk(text) != "[DONE]" && DecodeChunk(EncodeChunk(text)) == Some(text)
    {
      ChunkRoundTrip(text);
    }
  }

  /** What a line adds, in terms of the line and the parser alone. */
  lemma LineContentIff(delta: DeltaParser, line: string)
    ensures forall content :: Carries(delta, line, content) ==> LineContent(delta, line) == [content]
    ensures (forall content :: !Carries(delta, line, content)) ==> LineContent(delta, line) == []
  {
    if |line| >= 6 {
      assert line[0..6] == line[..6];
    }
    if LineContent(delta, line) != [] {
      assert Carries(delta, line, LineContent(delta, line)[0]);
    }
  }

  lemma ReplyLine(delta: DeltaParser, encode: string -> string, text: string)
    requires Inverts(delta, encode) && text != ""
    ensures '\n' !in "data: " + encode(text)
    ensures LineContent(delta, "data: " + encode(text)) == [text]
  {
    var line := "data: " + encode(text);
    assert line[6..] == encode(text);
    assert "data: [DONE]"[6..] == "[DONE]";
    assert Carries(delta, line, text);
    LineContentIff(delta, line);
  }

  lemma {:induction false} RenderedContents(delta: DeltaParser, encode: string -> string, events: seq<Event>)
    requires Inverts(delta, encode) && Sendable(delta, events)
    ensures Contents(delta, Render(encode, events)) == Texts(events)
    ensures forall line :: line in Render(encode, events) ==> '\n' !in line
  {
    if events != [] {
      assert events[0] in events && forall e :: e in events[1..] ==> e in events;
      RenderedContents(delta, encode, events[1..]);
      var lines := Render(encode, events);
      assert lines[1..] == Render(encode, events[1..]);
      match events[0]
      case Reply(text) => ReplyLine(delta, encode, text);
      case Other(line) => LineContentIff(delta, line);
    }
  }

  /** Printing replies as event-stream lines, mixed with any lines that carry no content and
      followed by an incomplete line, and feeding the bytes in any fragments yields exactly those
      replies and leaves the incomplete line buffered. */
  lemma StreamRoundTrip(delta: DeltaParser, encode: string -> string, events: seq<Event>, partial: string, fragments: seq<string>)
    requires Inverts(delta, encode) && Sendable(delta, events) && '\n' !in partial
    requires Concat(fragments) == Unlines(Render(encode, events)) + partial
    ensures FeedAll(delta, EMPTY_CONTEXT, fragments)
         == Context(partial, Concat(Texts(events)), Texts(events))
  {
    FragmentationInvariance(delta, fragments);
    RenderedContents(delta, encode, events);
    UniqueSplit(Render(encode, events), partial);
  }

  lemma DrainStep(delta: DeltaParser, ctx: Context, pos: nat)
    requires Find(ctx.buffer, "\n") == Some(pos)
    ensures pos < |ctx.buffer|
    ensures Drain(delta, ctx)
         == Drain(delta, AddLine(delta, ctx.(buffer := ctx.buffer[pos + 1..]), ctx.buffer[..pos]))
  {
  }

  lemma DrainDone(delta: DeltaParser, ctx: Context)
    requires Find(ctx.buffer, "\n").None?
    ensures Drain(delta, ctx) == ctx
  {
  }

  lemma AddLineOne(delta: DeltaParser, ctx: Context, line: string)
    ensures var content := LineContent(delta, line);
            AddLine(delta, ctx, line)
            == if content == [] then ctx
               else Context(ctx.buffer, ctx.fullReply + content[0], ctx.chunks + [content[0]])
  {
    var content := LineContent(delta, line);
    if content == [] {
      assert ctx.fullReply + "" == ctx.fullReply && ctx.chunks + [] == ctx.chunks;
    } else {
      assert content == [content[0]];
      ConcatOne(content[0]);
    }
  }

  lemma FeedKeepsChunks(delta: DeltaParser, ctx: Context, contents: string)
    ensures ctx.chunks <= Feed(delta, ctx, contents).chunks
  {
    DrainMeaning(delta, ctx.(buffer := ctx.buffer + contents));
  }

  // ---------- The object the callback works on ----------

  class StreamContext {
    const delta: DeltaParser
    var buffer: string
    var fullReply: string
    var chunks: seq<string>
    ghost var received: string

    ghost function State(): Context
      reads this
    {
      Context(buffer, fullReply, chunks)
    }

    /** Between calls the fields are a function of the bytes received so far. */
    ghost predicate Valid()
      reads this
    {
      State() == Meaning(delta, received)
    }

    constructor (delta: DeltaParser)
      ensures Valid() && State() == EMPTY_CONTEXT && received == "" && this.delta == delta
    {
      this.delta := delta;
      buffer, fullReply, chunks := "", "", [];
      received := "";
    }

    /** The callback's treatment of one complete line. */
    method ProcessLine(line: string)
      modifies `fullReply, `chunks
      ensures State() == AddLine(delta, old(State()), line)
      ensures forall content :: Carries(delta, line, content) ==>
                fullReply == old(fullReply) + content && chunks == old(chunks) + [content]
      ensures (forall content :: !Carries(delta, line, content)) ==> fullReply == old(fullReply) && chunks == old(chunks)
    {
      AddLineOne(delta, State(), line);
      LineContentIff(delta, line);
      if line == "" || line == DONE_LINE { return; }
      if StartsWith(line, DATA_PREFIX) {
        var content := delta(line[|DATA_PREFIX|..]);
        if content.Some? && content.value != "" {
          fullReply := fullReply + content.value;
          chunks := chunks + [content.value];
        }
      }
    }

    method WriteCallback(contents: string) returns (realsize: nat)
      requires Valid()
      modifies this
      ensures Valid()
      ensures received == old(received) + contents
      ensures State() == Feed(delta, old(State()), contents)
      ensures '\n' !in buffer && fullReply == Concat(chunks) && old(chunks) <= chunks
      ensures realsize == |contents|
    {
      buffer := buffer + contents;
      ghost var all := Drain(delta, State());
      var next := Find(buffer, "\n");
      while next.Some?
        invariant next == Find(buffer, "\n")
        invariant Drain(delta, State()) == all
        invariant received == old(received)
        decreases |buffer|
      {
        var pos := next.value;
        DrainStep(delta, State(), pos);
        var line := buffer[..pos];
        buffer := buffer[pos + 1..];
        ProcessLine(line);
        next := Find(buffer, "\n");
      }
      realsize := |contents|;
      DrainDone(delta, State());
      FeedMeaning(delta, received, contents);
      FeedKeepsChunks(delta, old(State()), contents);
      received := received + contents;
      ByteConservation(received);
    }
  }
}
