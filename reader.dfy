/**
 * `readChunks` and `readRemoteChunks`: choose the backend, find the source size, check it
 * against the minimum, then fill one buffer span by span.
 */
module Reader {
  import opened Types
  import opened Decimal
  import opened Chunks

  /** A local file: whether `Stat` succeeds on it, and its bytes (its size is their count). */
  datatype FileEntry = FileEntry(statOk: bool, content: seq<uint8>)

  /** What the reader can reach: files by path (a missing path fails to open) and servers by URL. */
  datatype Env = Env(files: map<string, FileEntry>, net: map<string, Server>)

  /** A successful read: the size of the source and the filled buffer. */
  datatype Fetched = Fetched(fileSize: int, buf: seq<uint8>)

  /** `strings.HasPrefix`. */
  predicate HasPrefix(s: string, prefix: string) {
    |prefix| <= |s| && s[..|prefix|] == prefix
  }

  /** A string has a prefix exactly when it is that prefix followed by some rest. */
  lemma PrefixIffAppend(s: string, prefix: string)
    ensures HasPrefix(s, prefix) <==> exists rest :: s == prefix + rest
  {
    if HasPrefix(s, prefix) {
      assert s == prefix + s[|prefix|..];
    }
    if exists rest :: s == prefix + rest {
      var rest :| s == prefix + rest;
      assert s[..|prefix|] == prefix;
    }
  }

  /**
   * The backend choice of `readChunks`: the remote backend is chosen exactly for strings
   * that start with "http://" or "https://".
   */
  predicate IsRemote(path: string)
    ensures IsRemote(path) <==> exists rest :: path == "http://" + rest || path == "https://" + rest
  {
    PrefixIffAppend(path, "http://");
    PrefixIffAppend(path, "https://");
    HasPrefix(path, "http://") || HasPrefix(path, "https://")
  }

  /** The HEAD response checks of `readRemoteChunks`, giving the parsed Content-Length. */
  function HeadSize(h: Header): Result<int> {
    if "Accept-Ranges" !in h then Err(RangeUnsupported)
    else if |h["Accept-Ranges"]| == 0 then Err(RuntimePanic)
    else if h["Accept-Ranges"][0] != "bytes" then Err(RangeUnsupported)
    else if "Content-Length" !in h || |h["Content-Length"]| == 0 then Err(RuntimePanic)
    else
      match ParseInt(h["Content-Length"][0])
      case None => Err(MalformedResponse)
      case Some(n) => Ok(n)
  }

  /** What `readRemoteChunks` returns. */
  function RemoteOutcome(net: map<string, Server>, url: string, minimumRequiredSize: int,
                         chunks: seq<ChunkInfo>): Result<Fetched>
  {
    if url !in net || net[url].head.None? then Err(NetworkError)
    else
      match HeadSize(net[url].head.value)
      case Err(e) => Err(e)
      case Ok(fileSize) =>
        if fileSize < minimumRequiredSize then Err(SourceTooSmall)
        else
          match FetchSpans(ReaderOf(Remote(net[url])), fileSize, chunks)
          case Err(e) => Err(e)
          case Ok(buf) => Ok(Fetched(fileSize, buf))
  }

  /** What the local branch of `readChunks` returns. */
  function LocalOutcome(files: map<string, FileEntry>, path: string, minimumRequiredSize: int,
                        chunks: seq<ChunkInfo>): Result<Fetched>
  {
    if path !in files then Err(OpenError)
    else if !files[path].statOk then Err(StatError)
    else
      var content := files[path].content;
      if |content| < minimumRequiredSize then Err(SourceTooSmall)
      else
        match FetchSpans(ReaderOf(Local(content)), |content|, chunks)
        case Err(e) => Err(e)
        case Ok(buf) => Ok(Fetched(|content|, buf))
  }

  /** What `readChunks` returns; the remote branch always uses `OSDBChunkSize` as the minimum. */
  function Outcome(env: Env, path: string, minimumRequiredSize: int, chunks: seq<ChunkInfo>): Result<Fetched> {
    if IsRemote(path) then RemoteOutcome(env.net, path, OSDBChunkSize, chunks)
    else LocalOutcome(env.files, path, minimumRequiredSize, chunks)
  }

  // ---------------------------------------------------------------- one span

  /** `readChunk`: read `len` bytes of the file at `offset` into `buf[lo..lo + len]`. */
  method ReadChunk(content: seq<uint8>, offset: int, buf: array<uint8>, lo: nat, len: nat)
    returns (err: Option<Error>)
    requires lo + len <= buf.Length
    modifies buf
    ensures err.None? <==> LocalReadSpan(content, offset, len).Ok?
    ensures err.Some? ==> LocalReadSpan(content, offset, len) == Err(err.value)
    ensures err.None? ==> buf[lo..lo + len] == LocalReadSpan(content, offset, len).value
    ensures buf[..lo] == old(buf[..lo]) && buf[lo + len..] == old(buf[lo + len..])
  {
    var (n, failed) := ReadAt(content, offset, len);
    // ReadAt copies the bytes it read to the front of the slice, even when it then fails
    if 0 <= offset {
      forall k | 0 <= k < n {
        buf[lo + k] := content[offset + k];
      }
    }
    if failed {
      return Some(ShortRead);
    }
    if n != OSDBChunkSize {
      return Some(ShortRead);
    }
    return None;
  }

  /** `readRemoteChunk`: GET `len` bytes from `offset` into `buf[lo..lo + len]`. */
  method ReadRemoteChunk(server: Server, offset: int, buf: array<uint8>, lo: nat, len: nat)
    returns (err: Option<Error>)
    requires lo + len <= buf.Length
    modifies buf
    ensures err.None? <==> RemoteReadSpan(server, offset, len).Ok?
    ensures err.Some? ==> RemoteReadSpan(server, offset, len) == Err(err.value)
    ensures err.None? ==> buf[lo..lo + len] == RemoteReadSpan(server, offset, len).value
    ensures buf[..lo] == old(buf[..lo]) && buf[lo + len..] == old(buf[lo + len..])
  {
    var rangeHeader := "bytes=" + Itoa(offset) + "-" + Itoa(offset + len - 1);
    var resp := server.get(rangeHeader);
    if resp.None? {
      return Some(NetworkError);
    }
    var body := resp.value;
    // io.ReadFull copies what the body holds, up to len bytes, and fails if that is short
    var n := if |body| < len then |body| else len;
    forall k | 0 <= k < n {
      buf[lo + k] := body[k];
    }
    if n < len {
      return Some(ShortRead);
    }
    return None;
  }

  /**
   * The read of one span by the backend the caller chose: resolve its offset against the
   * source size, then read it into `buf[lo..lo + span.size]`.
   */
  method ReadSpanInto(b: Backend, fileSize: int, span: ChunkInfo, buf: array<uint8>, lo: nat)
    returns (err: Option<Error>)
    requires lo + span.size <= buf.Length
    modifies buf
    ensures err.None? <==> ReadSpan(b, Resolve(span.offset, fileSize), span.size).Ok?
    ensures err.Some? ==> ReadSpan(b, Resolve(span.offset, fileSize), span.size) == Err(err.value)
    ensures err.None? ==> buf[lo..lo + span.size] == ReadSpan(b, Resolve(span.offset, fileSize), span.size).value
    ensures buf[..lo] == old(buf[..lo]) && buf[lo + span.size..] == old(buf[lo + span.size..])
  {
    var start := span.offset;
    if start < 0 {
      start := start + fileSize;
    }
    match b {
      case Local(content) =>
        err := ReadChunk(content, start, buf, lo, span.size);
      case Remote(server) =>
        err := ReadRemoteChunk(server, start, buf, lo, span.size);
    }
  }

  // ---------------------------------------------------------------- all spans

  lemma SeqSplit(s: seq<uint8>, p: nat, q: nat)
    requires p <= q <= |s|
    ensures s[..q] == s[..p] + s[p..q]
  {
  }

  /** The first loop: `totalBufferNeeded`, the sum of the span sizes. */
  method SumSizes(chunks: seq<ChunkInfo>) returns (totalBufferNeeded: nat)
    ensures totalBufferNeeded == TotalSize(chunks)
  {
    totalBufferNeeded := 0;
    for i := 0 to |chunks|
      invariant totalBufferNeeded == TotalSize(chunks[..i])
    {
      TotalSizePrefix(chunks, i);
      totalBufferNeeded := totalBufferNeeded + chunks[i].size;
    }
    assert chunks[..|chunks|] == chunks;
  }

  /**
   * One turn of the second loop: resolve span i against the source size and read it into
   * the buffer right after the bytes the earlier spans filled.
   */
  method FillSpan(b: Backend, ghost read: SpanReader, fileSize: int, chunks: seq<ChunkInfo>, i: nat,
                  buf: array<uint8>, filled: nat)
    returns (err: Option<Error>)
    requires ReadsAs(read, b)
    requires i < |chunks| && filled == TotalSize(chunks[..i]) && filled + chunks[i].size <= buf.Length
    requires FetchSpans(read, fileSize, chunks[..i]) == Ok(buf[..filled])
    modifies buf
    ensures err.Some? ==> FetchSpans(read, fileSize, chunks) == Err(err.value)
    ensures err.None? ==> FetchSpans(read, fileSize, chunks[..i + 1]) == Ok(buf[..filled + chunks[i].size])
  {
    var span := chunks[i];
    ghost var before := buf[..filled];
    err := ReadSpanInto(b, fileSize, span, buf, filled);
    assert SpanRead(read, fileSize, span) == ReadSpan(b, Resolve(span.offset, fileSize), span.size);
    if err.Some? {
      FetchSpansStepErr(read, fileSize, chunks, i);
      return;
    }
    ghost var data := buf[filled..filled + span.size];
    FetchSpansStepOk(read, fileSize, chunks, i);
    assert buf[..filled] == before;
    SeqSplit(buf[..], filled, filled + span.size);
    assert buf[..filled + span.size] == before + data;
  }

  /**
   * The two loops that `readChunks` and `readRemoteChunks` share: sum the span sizes, allocate
   * one buffer of that size, then read the spans in input order, each into the slice that
   * starts where the previous one ended, stopping at the first failure.
   */
  method FillSpans(b: Backend, ghost read: SpanReader, fileSize: int, chunks: seq<ChunkInfo>)
    returns (buf: array<uint8>, err: Option<Error>)
    requires ReadsAs(read, b)
    ensures err.None? <==> FetchSpans(read, fileSize, chunks).Ok?
    ensures err.Some? ==> FetchSpans(read, fileSize, chunks) == Err(err.value)
    ensures buf.Length == TotalSize(chunks)
    ensures err.None? ==> buf[..] == FetchSpans(read, fileSize, chunks).value
  {
    var totalBufferNeeded := SumSizes(chunks);
    buf := new uint8[totalBufferNeeded];
    err := None;
    var filled := 0;
    for i := 0 to |chunks|
      invariant filled == TotalSize(chunks[..i]) <= buf.Length
      invariant FetchSpans(read, fileSize, chunks[..i]) == Ok(buf[..filled])
      invariant err.None?
    {
      TotalSizePrefix(chunks, i);
      err := FillSpan(b, read, fileSize, chunks, i, buf, filled);
      if err.Some? {
        return;
      }
      filled := filled + chunks[i].size;
    }
    assert chunks[..|chunks|] == chunks;
    assert buf[..] == buf[..filled];
  }

  /** `readRemoteChunks`. */
  method ReadRemoteChunks(net: map<string, Server>, url: string, minimumRequiredSize: int,
                          chunks: seq<ChunkInfo>)
    returns (fileSize: int, buf: array<uint8>, err: Option<Error>)
    ensures err.None? <==> RemoteOutcome(net, url, minimumRequiredSize, chunks).Ok?
    ensures err.Some? ==> RemoteOutcome(net, url, minimumRequiredSize, chunks) == Err(err.value)
    ensures err.None? ==> RemoteOutcome(net, url, minimumRequiredSize, chunks) == Ok(Fetched(fileSize, buf[..]))
    ensures err.None? ==> buf.Length == TotalSize(chunks)
  {
    fileSize, buf, err := 0, new uint8[0], None;
    if url !in net || net[url].head.None? {
      err := Some(NetworkError);
      return;
    }
    var server := net[url];
    var header := server.head.value;
    if "Accept-Ranges" !in header {
      err := Some(RangeUnsupported);
      return;
    }
    if |header["Accept-Ranges"]| == 0 {
      err := Some(RuntimePanic);
      return;
    }
    if header["Accept-Ranges"][0] != "bytes" {
      err := Some(RangeUnsupported);
      return;
    }
    if "Content-Length" !in header || |header["Content-Length"]| == 0 {
      err := Some(RuntimePanic);
      return;
    }
    var parsed := ParseInt(header["Content-Length"][0]);
    if parsed.None? {
      err := Some(MalformedResponse);
      return;
    }
    fileSize := parsed.value;
    if fileSize < minimumRequiredSize {
      err := Some(SourceTooSmall);
      return;
    }

    ReaderOfReadsAs(Remote(server));
    buf, err := FillSpans(Remote(server), ReaderOf(Remote(server)), fileSize, chunks);
  }

  /** `readChunks`: the remote backend for http(s) URLs, otherwise the local file. */
  method ReadChunks(env: Env, filePath: string, minimumRequiredSize: int, chunks: seq<ChunkInfo>)
    returns (fileSize: int, buf: array<uint8>, err: Option<Error>)
    ensures err.None? <==> Outcome(env, filePath, minimumRequiredSize, chunks).Ok?
    ensures err.Some? ==> Outcome(env, filePath, minimumRequiredSize, chunks) == Err(err.value)
    ensures err.None? ==> Outcome(env, filePath, minimumRequiredSize, chunks) == Ok(Fetched(fileSize, buf[..]))
    ensures err.None? ==> buf.Length == TotalSize(chunks)
  {
    if HasPrefix(filePath, "http://") || HasPrefix(filePath, "https://") {
      fileSize, buf, err := ReadRemoteChunks(env.net, filePath, OSDBChunkSize, chunks);
      return;
    }
    fileSize, buf, err := 0, new uint8[0], None;
    if filePath !in env.files {
      err := Some(OpenError);
      return;
    }
    var file := env.files[filePath];
    if !file.statOk {
      err := Some(StatError);
      return;
    }
    fileSize := |file.content|;
    if fileSize < minimumRequiredSize {
      err := Some(SourceTooSmall);
      return;
    }

    ReaderOfReadsAs(Local(file.content));
    buf, err := FillSpans(Local(file.content), ReaderOf(Local(file.content)), fileSize, chunks);
  }

  // ---------------------------------------------------------------- lemmas

  /** A remote source is read with minimum 64 KiB, whatever minimum the caller passed. */
  lemma RemoteIgnoresMinimum(env: Env, url: string, min1: int, min2: int, chunks: seq<ChunkInfo>)
    requires IsRemote(url)
    ensures Outcome(env, url, min1, chunks) == Outcome(env, url, min2, chunks)
    ensures Outcome(env, url, min1, chunks) == RemoteOutcome(env.net, url, OSDBChunkSize, chunks)
  {
  }

  /**
   * A HEAD response without `Accept-Ranges: bytes` fails the read whatever the resource
   * would answer to a GET: no span is fetched.
   */
  lemma RangeSupportCheckedFirst(net: map<string, Server>, url: string, h: Header,
                                 get: string -> Option<seq<uint8>>, minimumRequiredSize: int,
                                 chunks: seq<ChunkInfo>)
    requires "Accept-Ranges" !in h || (|h["Accept-Ranges"]| > 0 && h["Accept-Ranges"][0] != "bytes")
    ensures RemoteOutcome(net[url := Server(Some(h), get)], url, minimumRequiredSize, chunks) == Err(RangeUnsupported)
  {
  }

  /**
   * A source smaller than the minimum fails with `SourceTooSmall` before any span is read:
   * the outcome does not depend on the spans or on what a GET would return.
   */
  lemma TooSmallBeforeAnyRead(env: Env, path: string, minimumRequiredSize: int, chunks: seq<ChunkInfo>,
                              h: Header, get: string -> Option<seq<uint8>>)
    ensures (!IsRemote(path) && path in env.files && env.files[path].statOk &&
             |env.files[path].content| < minimumRequiredSize) ==>
      Outcome(env, path, minimumRequiredSize, chunks) == Err(SourceTooSmall)
    ensures (HeadSize(h).Ok? && HeadSize(h).value < minimumRequiredSize) ==>
      RemoteOutcome(env.net[path := Server(Some(h), get)], path, minimumRequiredSize, chunks) == Err(SourceTooSmall)
  {
  }

  /**
   * The local backend: which calls succeed and what they return. Success needs the file to
   * open, to stat, to be at least the minimum, and every span to lie inside it and be
   * 64 KiB long; the buffer then holds the spans' bytes in input order.
   */
  lemma LocalOutcomeCharacterized(files: map<string, FileEntry>, path: string, minimumRequiredSize: int,
                                  chunks: seq<ChunkInfo>)
    requires path in files && files[path].statOk && minimumRequiredSize <= |files[path].content|
    ensures var content := files[path].content;
      LocalOutcome(files, path, minimumRequiredSize, chunks).Ok? <==>
        forall i :: 0 <= i < |chunks| ==> SpanInside(content, chunks[i]) && chunks[i].size == OSDBChunkSize
    ensures var content := files[path].content;
      LocalOutcome(files, path, minimumRequiredSize, chunks).Ok? ==>
        AllInside(content, chunks) &&
        LocalOutcome(files, path, minimumRequiredSize, chunks) == Ok(Fetched(|content|, Slices(content, chunks)))
    ensures LocalOutcome(files, path, minimumRequiredSize, chunks).Err? ==>
      LocalOutcome(files, path, minimumRequiredSize, chunks).error == ShortRead
  {
    var content := files[path].content;
    var read := ReaderOf(Local(content));
    forall i | 0 <= i < |chunks|
      ensures SpanRead(read, |content|, chunks[i]).Ok? <==>
        SpanInside(content, chunks[i]) && chunks[i].size == OSDBChunkSize
    {
      SpanReadOf(Local(content), |content|, chunks[i]);
    }
    FetchSpansOkIff(read, |content|, chunks);
    if forall i :: 0 <= i < |chunks| ==> SpanInside(content, chunks[i]) && chunks[i].size == OSDBChunkSize {
      LocalFetchIsSlices(content, chunks);
    } else {
      var i :| 0 <= i < |chunks| && !(SpanInside(content, chunks[i]) && chunks[i].size == OSDBChunkSize);
      var j := FirstFailing(read, |content|, chunks, i);
      SpanReadOf(Local(content), |content|, chunks[j]);
      FetchSpansFirstError(read, |content|, chunks, j);
    }
  }

  /** The first span that fails to read, given that span i does. */
  ghost function FirstFailing(read: SpanReader, fileSize: int, chunks: seq<ChunkInfo>, i: nat): (j: nat)
    requires i < |chunks| && SpanRead(read, fileSize, chunks[i]).Err?
    ensures j <= i && SpanRead(read, fileSize, chunks[j]).Err?
    ensures forall k :: 0 <= k < j ==> SpanRead(read, fileSize, chunks[k]).Ok?
  {
    if forall k :: 0 <= k < i ==> SpanRead(read, fileSize, chunks[k]).Ok? then i
    else
      var k :| 0 <= k < i && SpanRead(read, fileSize, chunks[k]).Err?;
      FirstFailing(read, fileSize, chunks, k)
  }

  /**
   * A URL whose HEAD checks pass and whose size is at least 64 KiB: the read fails at the
   * first span whose GET fails (`NetworkError`) or whose body is too short (`ShortRead`).
   */
  lemma RemoteOutcomeFails(env: Env, url: string, minimumRequiredSize: int, chunks: seq<ChunkInfo>, i: nat)
    requires IsRemote(url) && url in env.net && env.net[url].head.Some?
    requires HeadSize(env.net[url].head.value).Ok? && OSDBChunkSize <= HeadSize(env.net[url].head.value).value
    requires i < |chunks|
    requires var fileSize := HeadSize(env.net[url].head.value).value;
      forall j :: 0 <= j < i ==> SpanRead(ReaderOf(Remote(env.net[url])), fileSize, chunks[j]).Ok?
    requires var fileSize := HeadSize(env.net[url].head.value).value;
      var resp := env.net[url].get(RangeHeader(Resolve(chunks[i].offset, fileSize), chunks[i].size));
      resp.None? || |resp.value| < chunks[i].size
    ensures var fileSize := HeadSize(env.net[url].head.value).value;
      var resp := env.net[url].get(RangeHeader(Resolve(chunks[i].offset, fileSize), chunks[i].size));
      Outcome(env, url, minimumRequiredSize, chunks) == Err(if resp.None? then NetworkError else ShortRead)
  {
    var fileSize := HeadSize(env.net[url].head.value).value;
    RemoteFetchFails(env.net[url], fileSize, chunks, i);
  }

  /** The HEAD response of a range-honouring server declares its size. */
  lemma RangeServerHead(content: seq<uint8>)
    requires |content| <= MaxInt64
    ensures HeadSize(RangeServer(content).head.value) == Ok(|content|)
  {
    ParseIntOfItoa(|content|);
  }

  /**
   * The remote backend against a range-honouring server of at least 64 KiB: whenever each
   * span lies inside the resource, the buffer holds the spans' bytes in input order (the
   * 64 KiB span length that the local backend insists on is not required here).
   */
  lemma RemoteOutcomeOfRangeServer(env: Env, url: string, minimumRequiredSize: int,
                                   content: seq<uint8>, chunks: seq<ChunkInfo>)
    requires IsRemote(url) && url in env.net && env.net[url] == RangeServer(content)
    requires OSDBChunkSize <= |content| <= MaxInt64 && AllInside(content, chunks)
    ensures Outcome(env, url, minimumRequiredSize, chunks) == Ok(Fetched(|content|, Slices(content, chunks)))
  {
    RangeServerHead(content);
    RemoteFetchIsSlices(content, chunks);
  }
}
