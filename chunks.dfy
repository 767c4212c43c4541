/**
 * Spans (`chunkInfo`), their resolution against the source size, the two ways of
 * reading one span (`readChunk` on a local file, `readRemoteChunk` over HTTP) and
 * the specification of reading a list of spans into one buffer.
 */
module Chunks {
  import opened Types
  import opened Decimal

  /** `chunkInfo`: a span of `size` bytes at `offset`; a negative offset counts from the end. */
  datatype ChunkInfo = ChunkInfo(offset: int, size: nat)

  /** `totalBufferNeeded`: the sum of the span sizes. */
  function TotalSize(chunks: seq<ChunkInfo>): nat {
    if chunks == [] then 0 else TotalSize(chunks[..|chunks| - 1]) + chunks[|chunks| - 1].size
  }

  /**
   * Where a span starts once the source size is known: a non-negative offset is a position
   * from the start, and an offset -k with k at most the size is the position k bytes before
   * the end.
   */
  function Resolve(offset: int, fileSize: int): (start: int)
    ensures 0 <= offset ==> start == offset
    ensures -fileSize <= offset < 0 ==> 0 <= start < fileSize && fileSize - start == -offset
  {
    if offset < 0 then offset + fileSize else offset
  }

  // ---------------------------------------------------------------- local file

  /**
   * `os.File.ReadAt(buf, offset)` on a file holding `content`, for a buffer of `len` bytes:
   * the number of bytes copied (they are `content[offset..offset + n]`) and whether an
   * error came back. A negative offset is an error; a read that reaches the end of the
   * file before filling the buffer copies what there is and reports `io.EOF`.
   */
  function ReadAt(content: seq<uint8>, offset: int, len: nat): (r: (nat, bool))
    ensures r.0 <= len
    ensures r.1 <==> offset < 0 || (0 < len && |content| < offset + len)
    ensures !r.1 ==> r.0 == len
    ensures 0 <= offset ==> offset + r.0 <= |content| || r.0 == 0
  {
    if offset < 0 then (0, true)
    else
      var avail := if offset < |content| then |content| - offset else 0;
      if avail < len then (avail, true) else (len, false)
  }

  /**
   * `readChunk`: fill a buffer of `len` bytes from `offset`. It fails on a ReadAt error,
   * and also whenever the count read is not `OSDBChunkSize`, whatever `len` is.
   */
  function LocalReadSpan(content: seq<uint8>, offset: int, len: nat): (r: Result<seq<uint8>>)
    ensures r.Ok? <==> 0 <= offset && offset + len <= |content| && len == OSDBChunkSize
    ensures r.Ok? ==> r.value == content[offset..offset + len]
    ensures r.Err? ==> r.error == ShortRead
  {
    var (n, failed) := ReadAt(content, offset, len);
    if failed then Err(ShortRead)
    else if n != OSDBChunkSize then Err(ShortRead)
    else Ok(content[offset..offset + n])
  }

  // ---------------------------------------------------------------- remote resource

  /** Response headers, by canonical name, each with its list of values (Go's `http.Header`). */
  type Header = map<string, seq<string>>

  /**
   * A remote resource as the client sees it: the headers of its HEAD response (`None` when
   * the request fails), and the body a GET with a given `Range` header value returns
   * (`None` when the request fails). The status code is not part of it: the client ignores it.
   */
  datatype Server = Server(head: Option<Header>, get: string -> Option<seq<uint8>>)

  /**
   * The `Range` header value of `readRemoteChunk`. Its end position is inclusive: for a
   * non-empty span at a non-negative offset it asks a server for exactly the `len` bytes
   * from `offset` to `offset + len - 1`.
   */
  function RangeHeader(offset: int, len: nat): (h: string)
    ensures 0 <= offset && 1 <= len ==> ParseRange(h) == Some((offset, offset + len - 1))
  {
    if 0 <= offset && 1 <= len then
      ParseRangeOfItoa(offset, offset + len - 1);
      "bytes=" + Itoa(offset) + "-" + Itoa(offset + len - 1)
    else
      "bytes=" + Itoa(offset) + "-" + Itoa(offset + len - 1)
  }

  /**
   * `readRemoteChunk`: GET with the Range header, then `io.ReadFull` of `len` bytes of the
   * body, which fails when the body ends first and ignores what follows.
   */
  function RemoteReadSpan(server: Server, offset: int, len: nat): Result<seq<uint8>> {
    match server.get(RangeHeader(offset, len))
    case None => Err(NetworkError)
    case Some(body) => if |body| < len then Err(ShortRead) else Ok(body[..len])
  }

  /** Index of the first '-' in s, or |s| when there is none. */
  function FirstDash(s: string): (k: nat)
    ensures k <= |s|
    ensures k < |s| ==> s[k] == '-'
  {
    if s == [] then 0 else if s[0] == '-' then 0 else 1 + FirstDash(s[1..])
  }

  /**
   * How a server reads a `Range` value `bytes=first-last` with both positions given
   * (a single byte-range-spec of section 2.1 of RFC 7233); `None` for any other value.
   */
  function ParseRange(h: string): Option<(nat, nat)> {
    if |h| < 6 || h[..6] != "bytes=" then None
    else
      var rest := h[6..];
      var k := FirstDash(rest);
      if k == |rest| then None
      else
        var first, last := rest[..k], rest[k + 1..];
        if first == [] || last == [] || !AllDigits(first) || !AllDigits(last) then None
        else Some((DigitsValue(first), DigitsValue(last)))
  }

  /**
   * The body a server that honours single byte ranges of `content` sends back: the bytes
   * from `first` to `last` inclusive, cut at the end of the resource; an empty body for a
   * range that starts past the end (416); the whole resource when the value is not a
   * range it understands, or is a range whose last position comes before its first (such
   * a range is invalid, so the header is ignored and 200 is sent).
   */
  function Serve(content: seq<uint8>, h: string): seq<uint8> {
    match ParseRange(h)
    case None => content
    case Some((first, last)) =>
      if last < first then content
      else if first < |content| then
        content[first..if last < |content| then last + 1 else |content|]
      else []
  }

  /** A resource of `content` behind a server that supports byte ranges. */
  function RangeServer(content: seq<uint8>): Server {
    Server(Some(map["Accept-Ranges" := ["bytes"], "Content-Length" := [Itoa(|content|)]]),
           h => Some(Serve(content, h)))
  }

  // ---------------------------------------------------------------- both backends

  datatype Backend = Local(content: seq<uint8>) | Remote(server: Server)

  function ReadSpan(b: Backend, start: int, len: nat): (r: Result<seq<uint8>>)
    ensures r.Ok? ==> |r.value| == len
  {
    match b
    case Local(content) => LocalReadSpan(content, start, len)
    case Remote(server) => RemoteReadSpan(server, start, len)
  }

  /** What both backends provide: read `len` bytes from a resolved start position. */
  type SpanReader = (int, nat) -> Result<seq<uint8>>

  function ReaderOf(b: Backend): SpanReader {
    (start: int, len: nat) => ReadSpan(b, start, len)
  }

  /** A reader that, when it succeeds, yields exactly the number of bytes asked for. */
  ghost predicate ReadsExactly(read: SpanReader) {
    forall start, len :: read(start, len).Ok? ==> |read(start, len).value| == len
  }

  /**
   * `read` is the reader of backend `b`. The equation is only brought in where a read of
   * `b` is already mentioned, so that reasoning about a list of spans does not unfold the
   * backends' definitions.
   */
  ghost predicate ReadsAs(read: SpanReader, b: Backend) {
    forall start, len {:trigger ReadSpan(b, start, len)} :: read(start, len) == ReadSpan(b, start, len)
  }

  lemma ReaderOfReadsAs(b: Backend)
    ensures ReadsAs(ReaderOf(b), b)
  {
    forall start, len ensures ReaderOf(b)(start, len) == ReadSpan(b, start, len) {
    }
  }

  lemma ReaderOfReadsExactly(b: Backend)
    ensures ReadsExactly(ReaderOf(b))
  {
    forall start, len ensures ReaderOf(b)(start, len) == ReadSpan(b, start, len) {
    }
  }

  /** Reading one span of a source of `fileSize` bytes: resolve its offset, then read. */
  function SpanRead(read: SpanReader, fileSize: int, c: ChunkInfo): Result<seq<uint8>> {
    read(Resolve(c.offset, fileSize), c.size)
  }

  lemma SpanReadOf(b: Backend, fileSize: int, c: ChunkInfo)
    ensures SpanRead(ReaderOf(b), fileSize, c) == ReadSpan(b, Resolve(c.offset, fileSize), c.size)
  {
  }

  /**
   * Reading the spans one after the other, in input order, each appended to what the
   * earlier ones produced; the first failing span decides the error.
   */
  function FetchSpans(read: SpanReader, fileSize: int, chunks: seq<ChunkInfo>): Result<seq<uint8>> {
    if chunks == [] then Ok([])
    else
      match FetchSpans(read, fileSize, chunks[..|chunks| - 1])
      case Err(e) => Err(e)
      case Ok(prefix) =>
        match SpanRead(read, fileSize, chunks[|chunks| - 1])
        case Err(e) => Err(e)
        case Ok(data) => Ok(prefix + data)
  }

  /** On success the buffer is as long as the spans' sizes added up. */
  lemma {:induction false} FetchSpansLength(read: SpanReader, fileSize: int, chunks: seq<ChunkInfo>)
    requires ReadsExactly(read)
    ensures FetchSpans(read, fileSize, chunks).Ok? ==>
      |FetchSpans(read, fileSize, chunks).value| == TotalSize(chunks)
  {
    if chunks != [] {
      FetchSpansLength(read, fileSize, chunks[..|chunks| - 1]);
    }
  }

  // ---------------------------------------------------------------- lemmas

  lemma {:induction false} TotalSizePrefix(chunks: seq<ChunkInfo>, i: nat)
    requires i < |chunks|
    ensures TotalSize(chunks[..i + 1]) == TotalSize(chunks[..i]) + chunks[i].size
    ensures TotalSize(chunks[..i + 1]) <= TotalSize(chunks)
    decreases |chunks| - i
  {
    assert chunks[..i + 1][..i] == chunks[..i];
    if i + 1 < |chunks| {
      TotalSizePrefix(chunks, i + 1);
    } else {
      assert chunks[..i + 1] == chunks;
    }
  }

  /** Extending the list of spans by one spans runs the loop body once more. */
  lemma FetchSpansStep(read: SpanReader, fileSize: int, chunks: seq<ChunkInfo>, i: nat)
    requires i < |chunks|
    ensures FetchSpans(read, fileSize, chunks[..i + 1]) ==
      match FetchSpans(read, fileSize, chunks[..i])
      case Err(e) => Err(e)
      case Ok(prefix) =>
        match SpanRead(read, fileSize, chunks[i])
        case Err(e) => Err(e)
        case Ok(data) => Ok(prefix + data)
  {
    assert chunks[..i + 1][..i] == chunks[..i];
  }

  /** A successful step of the loop: the buffer so far, then the bytes of span i. */
  lemma FetchSpansStepOk(read: SpanReader, fileSize: int, chunks: seq<ChunkInfo>, i: nat)
    requires i < |chunks| && FetchSpans(read, fileSize, chunks[..i]).Ok?
    requires SpanRead(read, fileSize, chunks[i]).Ok?
    ensures FetchSpans(read, fileSize, chunks[..i + 1]) ==
      Ok(FetchSpans(read, fileSize, chunks[..i]).value + SpanRead(read, fileSize, chunks[i]).value)
  {
    FetchSpansStep(read, fileSize, chunks, i);
  }

  /** A failing step of the loop: span i decides the error of the whole list. */
  lemma FetchSpansStepErr(read: SpanReader, fileSize: int, chunks: seq<ChunkInfo>, i: nat)
    requires i < |chunks| && FetchSpans(read, fileSize, chunks[..i]).Ok?
    requires SpanRead(read, fileSize, chunks[i]).Err?
    ensures FetchSpans(read, fileSize, chunks) == Err(SpanRead(read, fileSize, chunks[i]).error)
  {
    FetchSpansStep(read, fileSize, chunks, i);
    FetchSpansErrPrefix(read, fileSize, chunks, i + 1);
  }

  /** Once a prefix of the spans fails, the whole list fails with the same error. */
  lemma {:induction false} FetchSpansErrPrefix(read: SpanReader, fileSize: int, chunks: seq<ChunkInfo>, k: nat)
    requires k <= |chunks| && FetchSpans(read, fileSize, chunks[..k]).Err?
    ensures FetchSpans(read, fileSize, chunks) == FetchSpans(read, fileSize, chunks[..k])
    decreases |chunks| - k
  {
    if k == |chunks| {
      assert chunks[..k] == chunks;
    } else {
      FetchSpansStep(read, fileSize, chunks, k);
      FetchSpansErrPrefix(read, fileSize, chunks, k + 1);
    }
  }

  lemma SliceOfAppend(a: seq<uint8>, b: seq<uint8>, p: nat, q: nat)
    requires p <= q
    ensures q <= |a| ==> (a + b)[p..q] == a[p..q]
    ensures p == |a| && q == |a| + |b| ==> (a + b)[p..q] == b
  {
  }

  /** A successful read of a non-empty list is the read of all but the last span, then the last. */
  lemma FetchSpansLast(read: SpanReader, fileSize: int, chunks: seq<ChunkInfo>)
    requires FetchSpans(read, fileSize, chunks).Ok? && chunks != []
    ensures FetchSpans(read, fileSize, chunks[..|chunks| - 1]).Ok?
    ensures SpanRead(read, fileSize, chunks[|chunks| - 1]).Ok?
    ensures FetchSpans(read, fileSize, chunks).value ==
      FetchSpans(read, fileSize, chunks[..|chunks| - 1]).value + SpanRead(read, fileSize, chunks[|chunks| - 1]).value
  {
  }

  /**
   * On success span i sits at position `TotalSize(chunks[..i])` of the buffer, right after
   * the spans before it, and holds exactly what reading that span yields.
   */
  lemma {:induction false} FetchSpansSegments(read: SpanReader, fileSize: int, chunks: seq<ChunkInfo>, i: nat)
    requires ReadsExactly(read)
    requires FetchSpans(read, fileSize, chunks).Ok? && i < |chunks|
    ensures |FetchSpans(read, fileSize, chunks).value| == TotalSize(chunks)
    ensures TotalSize(chunks[..i]) + chunks[i].size <= TotalSize(chunks)
    ensures SpanRead(read, fileSize, chunks[i]) ==
      Ok(FetchSpans(read, fileSize, chunks).value[TotalSize(chunks[..i])..TotalSize(chunks[..i]) + chunks[i].size])
  {
    var n := |chunks|;
    var init := chunks[..n - 1];
    TotalSizePrefix(chunks, i);
    FetchSpansLast(read, fileSize, chunks);
    var prefix := FetchSpans(read, fileSize, init).value;
    var data := SpanRead(read, fileSize, chunks[n - 1]).value;
    var p := TotalSize(chunks[..i]);
    FetchSpansLength(read, fileSize, init);
    FetchSpansLength(read, fileSize, chunks);
    if i < n - 1 {
      assert init[i] == chunks[i] && init[..i] == chunks[..i];
      FetchSpansSegments(read, fileSize, init, i);
      SliceOfAppend(prefix, data, p, p + chunks[i].size);
    } else {
      assert chunks[..i] == init;
      SliceOfAppend(prefix, data, p, p + chunks[i].size);
    }
  }

  /** The spans are all read successfully exactly when each of them is. */
  lemma {:induction false} FetchSpansOkIff(read: SpanReader, fileSize: int, chunks: seq<ChunkInfo>)
    ensures FetchSpans(read, fileSize, chunks).Ok? <==>
      forall i :: 0 <= i < |chunks| ==> SpanRead(read, fileSize, chunks[i]).Ok?
  {
    if chunks != [] {
      var init := chunks[..|chunks| - 1];
      FetchSpansOkIff(read, fileSize, init);
      assert forall i :: 0 <= i < |init| ==> init[i] == chunks[i];
    }
  }

  /** The error is the one of the first span that fails. */
  lemma FetchSpansFirstError(read: SpanReader, fileSize: int, chunks: seq<ChunkInfo>, i: nat)
    requires i < |chunks| && SpanRead(read, fileSize, chunks[i]).Err?
    requires forall j :: 0 <= j < i ==> SpanRead(read, fileSize, chunks[j]).Ok?
    ensures FetchSpans(read, fileSize, chunks) == Err(SpanRead(read, fileSize, chunks[i]).error)
  {
    var pre := chunks[..i];
    FetchSpansOkIff(read, fileSize, pre);
    assert forall j :: 0 <= j < |pre| ==> pre[j] == chunks[j];
    FetchSpansStep(read, fileSize, chunks, i);
    FetchSpansErrPrefix(read, fileSize, chunks, i + 1);
  }

  /** A span with a negative offset is read from the end: the tail span covers `[S - 65536, S)`. */
  lemma TailSpanCoversEnd(content: seq<uint8>)
    requires OSDBChunkSize <= |content|
    ensures Resolve(-(OSDBChunkSize as int), |content|) == |content| - OSDBChunkSize
    ensures SpanRead(ReaderOf(Local(content)), |content|, ChunkInfo(-(OSDBChunkSize as int), OSDBChunkSize)) ==
      Ok(content[|content| - OSDBChunkSize..])
  {
    var start := |content| - OSDBChunkSize;
    assert content[start..start + OSDBChunkSize] == content[start..];
  }

  /** Local reading of spans: which lists succeed, and that the buffer holds the file's bytes. */
  lemma LocalFetchSpans(content: seq<uint8>, chunks: seq<ChunkInfo>, i: nat)
    requires i < |chunks|
    requires FetchSpans(ReaderOf(Local(content)), |content|, chunks).Ok?
    ensures |FetchSpans(ReaderOf(Local(content)), |content|, chunks).value| == TotalSize(chunks)
    ensures TotalSize(chunks[..i]) + chunks[i].size <= TotalSize(chunks)
    ensures var start := Resolve(chunks[i].offset, |content|);
      && 0 <= start && start + chunks[i].size <= |content|
      && chunks[i].size == OSDBChunkSize
      && FetchSpans(ReaderOf(Local(content)), |content|, chunks).value[TotalSize(chunks[..i])..TotalSize(chunks[..i]) + chunks[i].size]
         == content[start..start + chunks[i].size]
  {
    ReaderOfReadsExactly(Local(content));
    FetchSpansSegments(ReaderOf(Local(content)), |content|, chunks, i);
  }

  // ---------------------------------------------------------------- Range header

  lemma {:induction false} FirstDashAfterDigits(a: string, b: string)
    requires AllDigits(a)
    ensures FirstDash(a + "-" + b) == |a|
  {
    if a != [] {
      assert (a + "-" + b)[1..] == a[1..] + "-" + b;
      FirstDashAfterDigits(a[1..], b);
    }
  }

  /** `bytes=first-last` with two non-empty digit runs parses to their two values. */
  lemma ParseRangeOfDigits(first: string, last: string)
    requires first != [] && last != [] && AllDigits(first) && AllDigits(last)
    ensures ParseRange("bytes=" + first + "-" + last) == Some((DigitsValue(first), DigitsValue(last)))
  {
    var h := "bytes=" + first + "-" + last;
    var rest := h[6..];
    assert h[..6] == "bytes=" && rest == first + "-" + last;
    FirstDashAfterDigits(first, last);
    assert rest[..|first|] == first && rest[|first| + 1..] == last;
  }

  /** `bytes=first-last` rendered with `Itoa` parses back to the two positions. */
  lemma ParseRangeOfItoa(first: nat, last: nat)
    ensures ParseRange("bytes=" + Itoa(first) + "-" + Itoa(last)) == Some((first, last))
  {
    ParseRangeOfDigits(NatToString(first), NatToString(last));
    DigitsValueOfNatToString(first);
    DigitsValueOfNatToString(last);
  }

  lemma RangeServerGet(content: seq<uint8>, h: string)
    ensures RangeServer(content).get(h) == Some(Serve(content, h))
  {
  }

  /** A range-honouring server answers the Range header of a span inside the resource with its bytes. */
  lemma ServeSpan(content: seq<uint8>, offset: nat, len: nat)
    requires 1 <= len && offset + len <= |content|
    ensures Serve(content, RangeHeader(offset, len)) == content[offset..offset + len]
  {
  }

  /** Against a range-honouring server a span inside the resource reads exactly its bytes. */
  lemma RangeServerReadsSpan(content: seq<uint8>, offset: int, len: nat)
    requires 0 <= offset && offset + len <= |content|
    ensures RemoteReadSpan(RangeServer(content), offset, len) == Ok(content[offset..offset + len])
  {
    var h := RangeHeader(offset, len);
    RangeServerGet(content, h);
    var body := Serve(content, h);
    if 0 < len {
      ServeSpan(content, offset, len);
      assert body[..len] == body;
    } else {
      assert body[..len] == [] == content[offset..offset + len];
    }
    assert RemoteReadSpan(RangeServer(content), offset, len) == Ok(body[..len]);
  }

  /**
   * A remote read of the spans stops at the first span whose GET fails, with
   * `NetworkError`, or whose body is shorter than the span, with `ShortRead` (the error
   * `io.ReadFull` reports), once every span before it has been read.
   */
  lemma RemoteFetchFails(server: Server, fileSize: int, chunks: seq<ChunkInfo>, i: nat)
    requires i < |chunks|
    requires forall j :: 0 <= j < i ==> SpanRead(ReaderOf(Remote(server)), fileSize, chunks[j]).Ok?
    requires var resp := server.get(RangeHeader(Resolve(chunks[i].offset, fileSize), chunks[i].size));
      resp.None? || |resp.value| < chunks[i].size
    ensures var resp := server.get(RangeHeader(Resolve(chunks[i].offset, fileSize), chunks[i].size));
      FetchSpans(ReaderOf(Remote(server)), fileSize, chunks) == Err(if resp.None? then NetworkError else ShortRead)
  {
    SpanReadOf(Remote(server), fileSize, chunks[i]);
    FetchSpansFirstError(ReaderOf(Remote(server)), fileSize, chunks, i);
  }

  // ---------------------------------------------------------------- the bytes the spans cover

  /** A span lies inside a source holding `content` once its offset is resolved. */
  predicate SpanInside(content: seq<uint8>, c: ChunkInfo) {
    0 <= Resolve(c.offset, |content|) && Resolve(c.offset, |content|) + c.size <= |content|
  }

  function SpanBytes(content: seq<uint8>, c: ChunkInfo): seq<uint8>
    requires SpanInside(content, c)
  {
    var start := Resolve(c.offset, |content|);
    content[start..start + c.size]
  }

  predicate AllInside(content: seq<uint8>, chunks: seq<ChunkInfo>) {
    forall i :: 0 <= i < |chunks| ==> SpanInside(content, chunks[i])
  }

  /** The concatenation, in input order, of the bytes each span covers. */
  function Slices(content: seq<uint8>, chunks: seq<ChunkInfo>): seq<uint8>
    requires AllInside(content, chunks)
  {
    if chunks == [] then [] else SpanBytes(content, chunks[0]) + Slices(content, chunks[1..])
  }

  lemma AllInsidePrefix(content: seq<uint8>, chunks: seq<ChunkInfo>, k: nat)
    requires AllInside(content, chunks) && k <= |chunks|
    ensures AllInside(content, chunks[..k])
  {
    assert forall i :: 0 <= i < k ==> chunks[..k][i] == chunks[i];
  }

  lemma AllInsideTail(content: seq<uint8>, chunks: seq<ChunkInfo>)
    requires AllInside(content, chunks) && chunks != []
    ensures AllInside(content, chunks[1..])
  {
    assert forall i :: 0 <= i < |chunks| - 1 ==> chunks[1..][i] == chunks[i + 1];
  }

  lemma {:induction false} SlicesSnoc(content: seq<uint8>, chunks: seq<ChunkInfo>)
    requires chunks != [] && AllInside(content, chunks)
    ensures AllInside(content, chunks[..|chunks| - 1])
    ensures Slices(content, chunks) ==
      Slices(content, chunks[..|chunks| - 1]) + SpanBytes(content, chunks[|chunks| - 1])
  {
    var init := chunks[..|chunks| - 1];
    AllInsidePrefix(content, chunks, |chunks| - 1);
    if |chunks| > 1 {
      var tail := chunks[1..];
      AllInsideTail(content, chunks);
      AllInsideTail(content, init);
      SlicesSnoc(content, tail);
      assert tail[..|tail| - 1] == init[1..];
      assert init[0] == chunks[0] && tail[|tail| - 1] == chunks[|chunks| - 1];
      var head, last := SpanBytes(content, chunks[0]), SpanBytes(content, chunks[|chunks| - 1]);
      calc {
        Slices(content, chunks);
        head + Slices(content, tail);
        head + (Slices(content, init[1..]) + last);
        (head + Slices(content, init[1..])) + last;
        Slices(content, init) + last;
      }
    } else {
      assert init == [];
    }
  }

  /**
   * When every span reads the bytes it covers, reading the list yields their concatenation
   * in input order.
   */
  lemma {:induction false} FetchSpansIsSlices(read: SpanReader, content: seq<uint8>, chunks: seq<ChunkInfo>)
    requires AllInside(content, chunks)
    requires forall i :: 0 <= i < |chunks| ==>
      SpanRead(read, |content|, chunks[i]) == Ok(SpanBytes(content, chunks[i]))
    ensures FetchSpans(read, |content|, chunks) == Ok(Slices(content, chunks))
  {
    if chunks != [] {
      var init := chunks[..|chunks| - 1];
      assert forall i :: 0 <= i < |init| ==> init[i] == chunks[i];
      FetchSpansIsSlices(read, content, init);
      SlicesSnoc(content, chunks);
    }
  }

  /** A local file yields the spans' bytes when each span is inside it and 64 KiB long. */
  lemma LocalFetchIsSlices(content: seq<uint8>, chunks: seq<ChunkInfo>)
    requires AllInside(content, chunks)
    requires forall i :: 0 <= i < |chunks| ==> chunks[i].size == OSDBChunkSize
    ensures FetchSpans(ReaderOf(Local(content)), |content|, chunks) == Ok(Slices(content, chunks))
  {
    FetchSpansIsSlices(ReaderOf(Local(content)), content, chunks);
  }

  /** A range-honouring server yields the spans' bytes whenever each span is inside the resource. */
  lemma RemoteFetchIsSlices(content: seq<uint8>, chunks: seq<ChunkInfo>)
    requires AllInside(content, chunks)
    ensures FetchSpans(ReaderOf(Remote(RangeServer(content))), |content|, chunks) == Ok(Slices(content, chunks))
  {
    forall i | 0 <= i < |chunks|
      ensures SpanRead(ReaderOf(Remote(RangeServer(content))), |content|, chunks[i]) == Ok(SpanBytes(content, chunks[i]))
    {
      RangeServerReadsSpan(content, Resolve(chunks[i].offset, |content|), chunks[i].size);
    }
    FetchSpansIsSlices(ReaderOf(Remote(RangeServer(content))), content, chunks);
  }
}
