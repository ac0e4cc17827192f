/** Cutting text into pieces: knowledge chunks, streamed replies and mock streams. */
module Chunking {
  import opened Common

  /** Pieces of `size` characters, the last one possibly shorter. */
  function Split(content: string, size: nat): seq<string>
    requires size > 0
    decreases |content|
  {
    if content == "" then []
    else if |content| <= size then [content]
    else [content[..size]] + Split(content[size..], size)
  }

  /** `substr`, which stops at the end of the text. */
  function Substr(s: string, offset: nat, count: nat): string
    requires offset <= |s|
  {
    if offset + count <= |s| then s[offset..offset + count] else s[offset..]
  }

  /** The pieces from `offset` on. */
  function Tail(content: string, offset: nat, size: nat): seq<string>
    requires size > 0
  {
    if offset <= |content| then Split(content[offset..], size) else []
  }

  lemma SplitStep(content: string, offset: nat, size: nat)
    requires size > 0 && offset < |content|
    ensures Tail(content, offset, size) == [Substr(content, offset, size)] + Tail(content, offset + size, size)
  {
    if offset + size == |content| {
      assert content[offset + size..] == "";
      assert content[offset..offset + size] == content[offset..];
    } else if offset + size < |content| {
      assert content[offset..][..size] == content[offset..offset + size];
      assert content[offset..][size..] == content[offset + size..];
    }
  }

  method SplitLoop(content: string, size: nat) returns (pieces: seq<string>)
    requires size > 0
    ensures pieces == Split(content, size)
  {
    pieces := [];
    var offset := 0;
    assert content[0..] == content;
    while offset < |content|
      invariant pieces + Tail(content, offset, size) == Split(content, size)
      decreases |content| - offset
    {
      SplitStep(content, offset, size);
      pieces := pieces + [Substr(content, offset, size)];
      offset := offset + size;
    }
  }

  /** The three facts that pin the pieces down. */
  ghost predicate ArePieces(pieces: seq<string>, content: string, size: nat) {
    && Concat(pieces) == content
    && (forall i :: 0 <= i < |pieces| - 1 ==> |pieces[i]| == size)
    && (pieces != [] ==> 0 < |pieces[|pieces| - 1]| <= size)
  }

  /** The least number of pieces of `size` characters that hold `length` of them, that is,
      `length / size` rounded up. */
  predicate IsCeiling(count: nat, length: nat, size: nat) {
    if length == 0 then count == 0 else (count - 1) * size < length <= count * size
  }

  lemma CeilingOfMore(count: nat, length: nat, size: nat)
    requires size > 0 && length > 0 && IsCeiling(count, length, size)
    ensures IsCeiling(count + 1, length + size, size)
  {
    assert (count - 1) * size + size == count * size;
    assert (count + 1) * size == count * size + size;
  }

  lemma SplitLong(content: string, size: nat)
    requires 0 < size < |content|
    requires ArePieces(Split(content[size..], size), content[size..], size)
    ensures ArePieces(Split(content, size), content, size)
  {
    var rest := Split(content[size..], size);
    assert Split(content, size) == [content[..size]] + rest;
    assert ([content[..size]] + rest)[1..] == rest;
    assert content == content[..size] + content[size..];
    assert rest != [];
  }

  /** Cutting loses and moves nothing, fills every piece but the last, and makes
      `ceil(|content| / size)` of them. */
  lemma {:induction false} SplitPieces(content: string, size: nat)
    requires size > 0
    ensures ArePieces(Split(content, size), content, size)
    ensures IsCeiling(|Split(content, size)|, |content|, size)
    decreases |content|
  {
    if content == "" {
    } else if |content| <= size {
      ConcatOne(content);
    } else {
      SplitPieces(content[size..], size);
      SplitLong(content, size);
      CeilingOfMore(|Split(content[size..], size)|, |content| - size, size);
    }
  }

  /** Nothing else has those three properties. */
  lemma {:induction false} PiecesUnique(pieces: seq<string>, content: string, size: nat)
    requires size > 0 && ArePieces(pieces, content, size)
    ensures pieces == Split(content, size)
    decreases |pieces|
  {
    if pieces != [] {
      var rest := pieces[1..];
      assert content == pieces[0] + Concat(rest);
      if rest == [] {
        assert pieces == [pieces[0]] && content == pieces[0];
      } else {
        assert rest[|rest| - 1] == pieces[|pieces| - 1];
        assert content[size..] == Concat(rest);
        PiecesUnique(rest, content[size..], size);
        NonEmptyConcat(rest);
        assert content[..size] == pieces[0];
      }
    }
  }

  lemma {:induction false} NonEmptyConcat(pieces: seq<string>)
    requires pieces != [] && |pieces[|pieces| - 1]| > 0
    ensures Concat(pieces) != ""
    decreases |pieces|
  {
    if |pieces| > 1 {
      NonEmptyConcat(pieces[1..]);
    }
  }

  // ---------- Streams ----------

  datatype StreamChunk = StreamChunk(seqNo: nat, chunk: string, isFinal: bool)

  function Numbered(pieces: seq<string>): seq<StreamChunk> {
    seq(|pieces|, i requires 0 <= i < |pieces| => StreamChunk(i + 1, pieces[i], false))
  }

  function Texts(chunks: seq<StreamChunk>): seq<string> {
    seq(|chunks|, i requires 0 <= i < |chunks| => chunks[i].chunk)
  }

  /** `stream_chat_completion` for a reply obtained in one piece. */
  method StreamReply(response: string) returns (chunks: seq<StreamChunk>)
    ensures chunks == Numbered(Split(response, 24)) + (if response == "" then [StreamChunk(1, "", false)] else [])
                      + [StreamChunk(|Split(response, 24)| + 1, response, true)]
  {
    var pieces := SplitLoop(response, 24);
    chunks := [];
    var seqNo := 0;
    for i := 0 to |pieces|
      invariant seqNo == i && chunks == Numbered(pieces[..i])
    {
      seqNo := seqNo + 1;
      chunks := chunks + [StreamChunk(seqNo, pieces[i], false)];
    }
    assert pieces[..|pieces|] == pieces;
    if chunks == [] {
      chunks := [StreamChunk(1, "", false)];
    }
    chunks := chunks + [StreamChunk(seqNo + 1, response, true)];
  }

  /** `build_mock_stream_response`: configured pieces, or the reply cut by 16. */
  function MockPieces(response: string, configured: seq<string>): seq<string> {
    if configured != [] then configured else Split(response, 16)
  }

  method MockStream(response: string, configured: seq<string>) returns (chunks: seq<StreamChunk>)
    ensures var pieces := MockPieces(response, configured);
            chunks == Numbered(pieces) + [StreamChunk(|pieces| + 1, response, true)]
  {
    var pieces := configured;
    if configured == [] {
      pieces := SplitLoop(response, 16);
    }
    chunks := [];
    var seqNo := 0;
    for i := 0 to |pieces|
      invariant seqNo == i && chunks == Numbered(pieces[..i])
    {
      seqNo := seqNo + 1;
      chunks := chunks + [StreamChunk(seqNo, pieces[i], false)];
    }
    assert pieces[..|pieces|] == pieces;
    chunks := chunks + [StreamChunk(seqNo + 1, response, true)];
  }

  /** Numbered 1, 2, ... with exactly one final entry, which is last and carries the reply. */
  predicate WellNumbered(chunks: seq<StreamChunk>, response: string) {
    && chunks != []
    && (forall i :: 0 <= i < |chunks| ==> chunks[i].seqNo == i + 1 && (chunks[i].isFinal <==> i == |chunks| - 1))
    && chunks[|chunks| - 1].chunk == response
  }

  /** A streamed reply spells the reply before its final entry and is well numbered exactly
      when the reply is not empty: for an empty one, filler and final entry share number 1. */
  lemma StreamMeaning(response: string, chunks: seq<StreamChunk>)
    requires chunks == Numbered(Split(response, 24)) + (if response == "" then [StreamChunk(1, "", false)] else [])
                       + [StreamChunk(|Split(response, 24)| + 1, response, true)]
    ensures WellNumbered(chunks, response) <==> response != ""
    ensures Concat(Texts(chunks[..|chunks| - 1])) == response
    ensures response != "" ==> ArePieces(Texts(chunks[..|chunks| - 1]), response, 24)
  {
    SplitPieces(response, 24);
    if response == "" {
      assert chunks == [StreamChunk(1, "", false), StreamChunk(1, "", true)];
      assert Texts(chunks[..1]) == [""];
      ConcatOne("");
    } else {
      assert Texts(chunks[..|chunks| - 1]) == Split(response, 24);
    }
  }

  /** A mock stream is always well numbered, and spells the reply unless pieces that do not are
      configured. */
  lemma MockStreamMeaning(response: string, configured: seq<string>, chunks: seq<StreamChunk>)
    requires var pieces := MockPieces(response, configured);
             chunks == Numbered(pieces) + [StreamChunk(|pieces| + 1, response, true)]
    ensures WellNumbered(chunks, response)
    ensures Concat(Texts(chunks[..|chunks| - 1])) == response
       <==> configured == [] || Concat(configured) == response
    ensures configured == [] ==> ArePieces(Texts(chunks[..|chunks| - 1]), response, 16)
    ensures configured != [] ==> Texts(chunks[..|chunks| - 1]) == configured
  {
    SplitPieces(response, 16);
    assert Texts(chunks[..|chunks| - 1]) == MockPieces(response, configured);
  }

  // ---------- Knowledge documents ----------

  /** `split_content`: an empty text still makes one piece. */
  function ContentPieces(content: string, size: nat): seq<string>
    requires size > 0
  {
    if content == "" then [""] else Split(content, size)
  }

  method SplitContent(content: string, size: nat) returns (chunks: seq<string>)
    requires size > 0
    ensures chunks == ContentPieces(content, size)
    ensures Concat(chunks) == content
    ensures content == "" ==> |chunks| == 1
    ensures content != "" ==> IsCeiling(|chunks|, |content|, size)
  {
    chunks := SplitLoop(content, size);
    SplitPieces(content, size);
    if chunks == [] {
      chunks := [""];
      ConcatOne("");
    }
  }

  /** `std::max(chunk_size, 32)`. */
  function PieceSize(chunkSize: int): (size: nat)
    ensures size >= 32 && size >= chunkSize && size in {32, chunkSize}
  {
    if chunkSize < 32 then 32 else chunkSize
  }

  datatype ChunkRow = ChunkRow(document: nat, index: nat, content: string)

  /** Content of the rows of a document with a given index, among the first `n` rows. */
  function ContentsAmong(rows: seq<ChunkRow>, n: nat, document: nat, index: nat): seq<string>
    requires n <= |rows|
  {
    if n == 0 then []
    else
      var row := rows[n - 1];
      ContentsAmong(rows, n - 1, document, index)
      + (if row.document == document && row.index == index then [row.content] else [])
  }

  function ContentsAt(rows: seq<ChunkRow>, document: nat, index: nat): seq<string> {
    ContentsAmong(rows, |rows|, document, index)
  }

  /** `ORDER BY chunk_index` within a document, for indexes below `n`. */
  function ReadBack(rows: seq<ChunkRow>, document: nat, n: nat): seq<string> {
    if n == 0 then [] else ReadBack(rows, document, n - 1) + ContentsAt(rows, document, n - 1)
  }

  function RowsFor(document: nat, chunks: seq<string>): seq<ChunkRow> {
    seq(|chunks|, i requires 0 <= i < |chunks| => ChunkRow(document, i, chunks[i]))
  }

  lemma {:induction false} ContentsSamePrefix(a: seq<ChunkRow>, b: seq<ChunkRow>, n: nat, document: nat, index: nat)
    requires n <= |a| && n <= |b| && forall i :: 0 <= i < n ==> a[i] == b[i]
    ensures ContentsAmong(a, n, document, index) == ContentsAmong(b, n, document, index)
  {
    if n > 0 {
      ContentsSamePrefix(a, b, n - 1, document, index);
    }
  }

  /** Rows `from` to `n` hold nothing for that document and index. */
  lemma {:induction false} ContentsForeign(rows: seq<ChunkRow>, from: nat, n: nat, document: nat, index: nat)
    requires from <= n <= |rows|
    requires forall i :: from <= i < n ==> rows[i].document != document || rows[i].index != index
    ensures ContentsAmong(rows, n, document, index) == ContentsAmong(rows, from, document, index)
  {
    if from < n {
      ContentsForeign(rows, from, n - 1, document, index);
    }
  }

  /** Row `at` is the only one for that document and index. */
  lemma ContentsSingle(rows: seq<ChunkRow>, at: nat, document: nat, index: nat)
    requires at < |rows| && rows[at].document == document && rows[at].index == index
    requires forall i :: 0 <= i < |rows| && i != at ==> rows[i].document != document || rows[i].index != index
    ensures ContentsAt(rows, document, index) == [rows[at].content]
  {
    ContentsForeign(rows, 0, at, document, index);
    ContentsForeign(rows, at + 1, |rows|, document, index);
  }

  lemma {:induction false} NothingFrom(rows: seq<ChunkRow>, document: nat, m: nat, n: nat)
    requires m <= n
    requires forall i :: 0 <= i < |rows| && rows[i].document == document ==> rows[i].index < m
    ensures ReadBack(rows, document, n) == ReadBack(rows, document, m)
  {
    if m < n {
      NothingFrom(rows, document, m, n - 1);
      ContentsForeign(rows, 0, |rows|, document, n - 1);
    }
  }

  /** Document rows in a block starting at `start`, numbered from zero. */
  ghost predicate HasBlock(rows: seq<ChunkRow>, start: nat, document: nat, chunks: seq<string>) {
    && start + |chunks| == |rows|
    && (forall i :: 0 <= i < start ==> rows[i].document != document)
    && (forall i :: start <= i < |rows| ==> rows[i] == ChunkRow(document, i - start, chunks[i - start]))
  }

  lemma {:induction false} BlockReadsBack(rows: seq<ChunkRow>, start: nat, document: nat, chunks: seq<string>, n: nat)
    requires HasBlock(rows, start, document, chunks) && n <= |chunks|
    ensures ReadBack(rows, document, n) == chunks[..n]
  {
    if n > 0 {
      BlockReadsBack(rows, start, document, chunks, n - 1);
      ContentsSingle(rows, start + n - 1, document, n - 1);
    }
  }

  lemma NewDocument(rows: seq<ChunkRow>, start: nat, document: nat, chunks: seq<string>)
    requires HasBlock(rows, start, document, chunks)
    ensures ReadBack(rows, document, |rows|) == chunks
  {
    NothingFrom(rows, document, |chunks|, |rows|);
    BlockReadsBack(rows, start, document, chunks, |chunks|);
    assert chunks[..|chunks|] == chunks;
  }

  lemma {:induction false} ForeignRowsDoNotMatter(before: seq<ChunkRow>, after: seq<ChunkRow>, document: nat, n: nat)
    requires |before| <= |after| && forall i :: 0 <= i < |before| ==> after[i] == before[i]
    requires forall i :: |before| <= i < |after| ==> after[i].document != document
    ensures ReadBack(after, document, n) == ReadBack(before, document, n)
  {
    if n > 0 {
      ForeignRowsDoNotMatter(before, after, document, n - 1);
      ContentsSamePrefix(before, after, |before|, document, n - 1);
      ContentsForeign(after, |before|, |after|, document, n - 1);
    }
  }

  lemma OldDocument(before: seq<ChunkRow>, after: seq<ChunkRow>, document: nat)
    requires |before| <= |after| && forall i :: 0 <= i < |before| ==> after[i] == before[i] && before[i].index < |before|
    requires forall i :: |before| <= i < |after| ==> after[i].document != document
    ensures ReadBack(after, document, |after|) == ReadBack(before, document, |before|)
  {
    NothingFrom(after, document, |before|, |after|);
    ForeignRowsDoNotMatter(before, after, document, |before|);
  }

  ghost predicate RowsBelong(documents: map<nat, string>, rows: seq<ChunkRow>) {
    forall i :: 0 <= i < |rows| ==> rows[i].document in documents && rows[i].index < |rows|
  }

  ghost predicate Spells(rows: seq<ChunkRow>, document: nat, content: string) {
    Concat(ReadBack(rows, document, |rows|)) == content
  }

  /** Chunks belong to known documents, and the chunks of each document, read by index, spell its
      content. */
  ghost predicate Readable(documents: map<nat, string>, rows: seq<ChunkRow>) {
    RowsBelong(documents, rows) && forall d :: d in documents ==> Spells(rows, d, documents[d])
  }

  /** Storing a document under a new id keeps every document readable. */
  lemma AddingKeepsReadable(documents: map<nat, string>, rows: seq<ChunkRow>, document: nat, chunks: seq<string>)
    requires Readable(documents, rows) && document !in documents
    ensures Readable(documents[document := Concat(chunks)], rows + RowsFor(document, chunks))
  {
    var after := rows + RowsFor(document, chunks);
    assert HasBlock(after, |rows|, document, chunks);
    BlockKeepsReadable(documents, rows, after, document, chunks);
  }

  lemma BlockRowsBelong(documents: map<nat, string>, before: seq<ChunkRow>, after: seq<ChunkRow>, document: nat, chunks: seq<string>)
    requires RowsBelong(documents, before)
    requires HasBlock(after, |before|, document, chunks) && forall i :: 0 <= i < |before| ==> after[i] == before[i]
    ensures RowsBelong(documents[document := Concat(chunks)], after)
  {
  }

  lemma BlockKeepsOthers(documents: map<nat, string>, before: seq<ChunkRow>, after: seq<ChunkRow>, document: nat, chunks: seq<string>, d: nat)
    requires RowsBelong(documents, before) && d in documents && d != document
    requires HasBlock(after, |before|, document, chunks) && forall i :: 0 <= i < |before| ==> after[i] == before[i]
    ensures Spells(before, d, documents[d]) ==> Spells(after, d, documents[d])
  {
    OldDocument(before, after, d);
  }

  lemma BlockKeepsReadable(documents: map<nat, string>, before: seq<ChunkRow>, after: seq<ChunkRow>, document: nat, chunks: seq<string>)
    requires Readable(documents, before) && document !in documents
    requires HasBlock(after, |before|, document, chunks) && forall i :: 0 <= i < |before| ==> after[i] == before[i]
    ensures Readable(documents[document := Concat(chunks)], after)
  {
    BlockRowsBelong(documents, before, after, document, chunks);
    assert Spells(after, document, Concat(chunks)) by {
      NewDocument(after, |before|, document, chunks);
    }
    forall d | d in documents
      ensures Spells(after, d, documents[d])
    {
      BlockKeepsOthers(documents, before, after, document, chunks, d);
    }
  }

  class KnowledgeStore {
    var documents: map<nat, string>
    var rows: seq<ChunkRow>
    var nextDocument: nat

    ghost predicate Valid()
      reads this
    {
      Readable(documents, rows) && forall d :: d in documents ==> d < nextDocument
    }

    constructor ()
      ensures Valid() && documents == map[] && rows == []
    {
      documents, rows, nextDocument := map[], [], 0;
    }

    /** One row per piece, numbered from zero. */
    method InsertChunks(document: nat, chunks: seq<string>)
      modifies `rows
      ensures rows == old(rows) + RowsFor(document, chunks)
    {
      var start := rows;
      for i := 0 to |chunks|
        invariant rows == start + RowsFor(document, chunks)[..i]
      {
        rows := rows + [ChunkRow(document, i, chunks[i])];
      }
      assert RowsFor(document, chunks)[..|chunks|] == RowsFor(document, chunks);
    }

    /** `pg_llm_add_knowledge`. */
    method AddKnowledge(content: string, chunkSize: int) returns (document: nat)
      requires Valid()
      modifies this
      ensures Valid()
      ensures document !in old(documents) && documents == old(documents)[document := content]
      ensures rows == old(rows) + RowsFor(document, ContentPieces(content, PieceSize(chunkSize)))
    {
      document := nextDocument;
      nextDocument := nextDocument + 1;
      documents := documents[document := content];
      var chunks := SplitContent(content, PieceSize(chunkSize));
      InsertChunks(document, chunks);
      AddingKeepsReadable(old(documents), old(rows), document, chunks);
    }
  }
}
