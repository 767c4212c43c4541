# OSDB movie hash of `ziggy`, modelled in Dafny

This project models the OpenSubtitles (OSDB) movie hash of the `ziggy` helper in
`src/ziggy/lib/utils.go`. It also models the span reader under the hash, and proves properties of both.

`OSDBHashFile` fetches two 64 KiB spans of a source: the first 64 KiB, and the last 64 KiB,
written as the negative offset -65536. The source is either a local file or an `http(s)://` URL
that supports byte ranges. The two spans are copied into one 131072-byte buffer, which is read
as 16384 little-endian `uint64` words. The words and the source size are added with wrap-around
at 2^64, and the sum is rendered as 16 lower-case hex digits (`%016x`).

Module layout:

- `Types` holds the machine integers (`uint8`, `uint64` with `AddWrap` and `ToUint64`),
  `OSDBChunkSize`, and the `Error` kinds and `Result`/`Option` wrappers.
- `Decimal` holds `strconv.Itoa` and `strconv.ParseInt(s, 10, 64)`, with the proof that
  `ParseInt` undoes `Itoa` on the int64 range.
- `Chunks` holds the span datatype (`chunkInfo`) and offset resolution, plus the two one-span
  reads:
  - `readChunk`, on top of a model of `File.ReadAt`;
  - `readRemoteChunk`, with the `Range` header it sends, and a reference server that honours
    single byte ranges.

  It also holds the specification `FetchSpans` of reading a list of spans into one buffer,
  stated over an abstract `SpanReader` that both backends instantiate.
- `Reader` holds the imperative `readChunks` / `readRemoteChunks` as methods on an
  `array<uint8>`, plus their specification functions `Outcome`, `LocalOutcome`,
  `RemoteOutcome` and `HeadSize`. The methods' two loops are `SumSizes` and
  `FillSpans`/`FillSpan`: they sum the sizes, then fill span by span at cumulative positions.
- `Hash` holds little-endian decoding, the word sum and `%016x` rendering, with round trips.
- `Osdb` holds `OSDBHashFile` as a method, and end-to-end lemmas about the hash of local and
  remote sources.

The environment is explicit:

- `Env.files` maps a path to whether `Stat` succeeds and the file's bytes. A missing path
  fails to open.
- `Env.net` maps a URL to a `Server`: the headers of its HEAD response (or a failed request),
  and a function from the `Range` header value to the GET body (or a failed request).

Behaviour kept as written in the code:

- The local minimum-size check uses `OSDBChunkSize` (64 KiB), not 128 KiB. A file of
  64 KiB to 128 KiB is therefore hashed from two overlapping spans.
- The remote branch ignores the caller's `minimumRequiredSize` and always uses 64 KiB.
- `readChunk` compares the count read with `OSDBChunkSize`, not with the buffer length. A
  local span of any other size therefore fails.
- Some HEAD responses index an empty or absent header slice: an `Accept-Ranges` list that is
  present but empty, or a missing or empty `Content-Length`. These panic, modelled as the
  error `RuntimePanic`.
- The file opened by `readChunks` is never closed. The model has no handles to leak.

## Model

| member | source | states |
|---|---|---|
| Types.AddWrap | src/ziggy/lib/utils.go:169-174 | `uint64` addition wraps: a sum below 2^64 is exact, and a larger sum comes out 2^64 less |
| Types.ToUint64 | src/ziggy/lib/utils.go:174 | the conversion `uint64(fileSize)` keeps a value in the `uint64` range, and maps a negative value down to -2^64 to itself plus 2^64 (two's complement) |
| Decimal.ParseIntOfItoa | src/ziggy/lib/utils.go:69 | parsing the decimal rendering of any int64 gives the same value back: `ParseInt` undoes `Itoa` |
| Decimal.ParseIntOfDigits | src/ziggy/lib/utils.go:69 | a non-empty digit string whose value fits in int64 parses to that value |
| Chunks.ReadAt | src/ziggy/lib/utils.go:206 | `ReadAt` fails exactly for a negative offset, or when the buffer reaches past the end of the file. It copies at most the buffer length and stays inside the file. Without an error it has filled the whole buffer |
| Chunks.LocalReadSpan | src/ziggy/lib/utils.go:205-214 | a local span read succeeds exactly when the offset is non-negative, the span lies inside the file, and its length is `OSDBChunkSize`. The bytes are then the file's bytes at that offset. Every failure is a short read |
| Chunks.Resolve | src/ziggy/lib/utils.go:132-135 | a non-negative offset is a position from the start; an offset -k with k at most the size is a position inside the source, k bytes before its end |
| Chunks.TailSpanCoversEnd | src/ziggy/lib/utils.go:132-135 | a negative offset is resolved against the size: the span (-65536, 65536) reads exactly the last 64 KiB of a file of at least 64 KiB |
| Chunks.ReaderOfReadsExactly | src/ziggy/lib/utils.go:194-200 | both backends, when they succeed, yield exactly as many bytes as the span asks for |
| Chunks.FetchSpansLength | src/ziggy/lib/utils.go:124-129 | a successful read of the spans has the length of the sum of their sizes (`totalBufferNeeded`) |
| Chunks.FetchSpansSegments | src/ziggy/lib/utils.go:130-141 | on success, span i occupies the buffer from the sum of the earlier sizes, for its own size, and holds what reading that span yields |
| Chunks.FetchSpansOkIff | src/ziggy/lib/utils.go:131-141 | reading the list succeeds if and only if every span reads successfully |
| Chunks.FetchSpansFirstError | src/ziggy/lib/utils.go:136-139 | when span i is the first span that fails, the whole read fails with span i's error |
| Chunks.LocalFetchSpans | src/ziggy/lib/utils.go:130-141 | a successful local read places each span inside the file, each 64 KiB long, and its slice of the buffer equals the file's bytes there |
| Chunks.FetchSpansIsSlices | src/ziggy/lib/utils.go:86-96 | when every span reads the bytes it covers, the buffer is the in-order concatenation of those bytes |
| Chunks.LocalFetchIsSlices | src/ziggy/lib/utils.go:131-141 | a local file yields the concatenation of the spans' bytes when every span lies inside it and is 64 KiB long |
| Chunks.RemoteFetchIsSlices | src/ziggy/lib/utils.go:86-96 | a range-honouring server yields the concatenation of the spans' bytes when every span lies inside the resource, of any length |
| Chunks.RangeHeader | src/ziggy/lib/utils.go:185 | the `Range` value built for `len >= 1` bytes at a non-negative `offset` parses as the inclusive range from `offset` to `offset + len - 1` |
| Chunks.RangeServerReadsSpan | src/ziggy/lib/utils.go:179-201 | against a range-honouring server, a remote read of a span inside the resource returns exactly those bytes |
| Chunks.RemoteFetchFails | src/ziggy/lib/utils.go:86-96 | once every earlier span has been read, a span whose GET fails ends the remote read with `NetworkError`, and a span whose body is shorter than the span ends it with `ShortRead` |
| Reader.ReadChunk | src/ziggy/lib/utils.go:205-214 | `readChunk` fails exactly when `LocalReadSpan` does, with the same error. On success the target slice holds its bytes. Nothing outside the slice changes |
| Reader.ReadRemoteChunk | src/ziggy/lib/utils.go:179-202 | `readRemoteChunk` fails exactly when `RemoteReadSpan` does, with the same error. On success the target slice holds its bytes. Nothing outside the slice changes |
| Reader.ReadSpanInto | src/ziggy/lib/utils.go:132-140 | one span is resolved against the source size and read by the chosen backend into the slice at `lo`. Errors and bytes are those of the backend's read. Nothing outside the slice changes |
| Reader.SumSizes | src/ziggy/lib/utils.go:124-127 | the first loop computes the sum of the span sizes |
| Reader.FillSpan | src/ziggy/lib/utils.go:131-141 | one turn of the fill loop either extends the filled prefix of the buffer to the read of one more span, or ends the whole read with that span's error |
| Reader.FillSpans | src/ziggy/lib/utils.go:124-141 | the buffer has the summed size. The fill succeeds if and only if `FetchSpans` does. On success the buffer's contents equal `FetchSpans`' value; otherwise the error is `FetchSpans`' error |
| Reader.ReadRemoteChunks | src/ziggy/lib/utils.go:47-98 | `readRemoteChunks` returns exactly the outcome `RemoteOutcome` specifies: the HEAD checks, the size check, then the fill |
| Reader.ReadChunks | src/ziggy/lib/utils.go:100-144 | `readChunks` returns exactly the outcome `Outcome` specifies, for both backends |
| Reader.IsRemote | src/ziggy/lib/utils.go:101 | the remote backend is chosen exactly for strings that start with `http://` or `https://` |
| Reader.RemoteIgnoresMinimum | src/ziggy/lib/utils.go:101-103 | for a URL, the outcome does not depend on the minimum the caller passes; it is the remote read with minimum 64 KiB |
| Reader.RangeSupportCheckedFirst | src/ziggy/lib/utils.go:63-67 | a HEAD response without `Accept-Ranges: bytes` fails with `RangeUnsupported`, whatever the GET would return |
| Reader.TooSmallBeforeAnyRead | src/ziggy/lib/utils.go:118-122 | a source below the minimum fails with `SourceTooSmall`, whatever the spans or the GET bodies are |
| Reader.LocalOutcomeCharacterized | src/ziggy/lib/utils.go:106-143 | an openable, statable local file of at least the minimum reads successfully if and only if every span lies inside it and is 64 KiB long. The buffer is then the spans' bytes in order. Otherwise the error is a short read |
| Reader.RangeServerHead | src/ziggy/lib/utils.go:63-72 | the HEAD checks accept a range-honouring server and return its size |
| Reader.RemoteOutcomeFails | src/ziggy/lib/utils.go:47-98 | for a URL whose HEAD checks pass with a size of at least 64 KiB, `readRemoteChunks` fails at the first span whose GET fails (`NetworkError`) or whose body is too short (`ShortRead`) |
| Reader.RemoteOutcomeOfRangeServer | src/ziggy/lib/utils.go:47-98 | a range-honouring server of at least 64 KiB yields its size and the spans' bytes in order whenever every span lies inside it |
| Hash.LittleEndianIsWeightedSum | src/ziggy/lib/utils.go:165 | the little-endian value of bytes is the sum of each byte times 256 to the power of its index |
| Hash.LittleEndianOfBytes | src/ziggy/lib/utils.go:165 | decoding the n-byte little-endian encoding of a value below 256^n gives the value back |
| Hash.BytesOfLittleEndian | src/ziggy/lib/utils.go:165 | encoding the little-endian value of bytes gives the same bytes back |
| Hash.WordAt | src/ziggy/lib/utils.go:163-165 | word k of the buffer is the sum of bytes 8k+j times 256^j, for j from 0 to 7 |
| Hash.WordsAppend | src/ziggy/lib/utils.go:163-165 | the buffer is read word by word in order: decoding whole words followed by more bytes decodes the first part, then the rest |
| Hash.SumWordsAppend | src/ziggy/lib/utils.go:170-172 | the exact sum of a concatenation is the sum of the two parts' sums |
| Hash.WrapStep | src/ziggy/lib/utils.go:170-172 | adding with wrap-around at each step keeps the running value equal to the exact prefix sum modulo 2^64 |
| Hash.HexDigits | src/ziggy/lib/utils.go:176 | the zero-padded rendering has exactly the requested width and uses only lower-case hex digits |
| Hash.Hex16 | src/ziggy/lib/utils.go:176 | `%016x` of a `uint64` is exactly 16 characters, all lower-case hex digits |
| Hash.Hex16RoundTrip | src/ziggy/lib/utils.go:176 | reading the 16 hex digits of a `uint64` gives the value back |
| Hash.Hex16Onto | src/ziggy/lib/utils.go:176 | every 16-character lower-case hex string is the rendering of exactly one `uint64` |
| Osdb.OsdbSpansSize | src/ziggy/lib/utils.go:151-154 | the two spans add up to 131072 bytes, exactly the word array's size, so `binary.Read` cannot fail |
| Osdb.DecodeWords | src/ziggy/lib/utils.go:163-165 | the word array holds the little-endian words of the first 131072 bytes |
| Osdb.FoldWords | src/ziggy/lib/utils.go:169-172 | the loop's wrapping sum equals the exact sum of the words modulo 2^64 |
| Osdb.HashReadBuffer | src/ziggy/lib/utils.go:162-176 | decoding, summing, adding the size and rendering yields what `HashBuffer` specifies |
| Osdb.OSDBHashFile | src/ziggy/lib/utils.go:147-177 | `OSDBHashFile` returns `""` and the read's error, or the hash `HashFileOutcome` specifies |
| Osdb.HashOfFetched | src/ziggy/lib/utils.go:162-176 | a successful 131072-byte read hashes to the hex rendering of (sum of its words + size) mod 2^64 |
| Osdb.OsdbSlices | src/ziggy/lib/utils.go:151-154 | for a source of at least 64 KiB both spans lie inside it, and together they cover its first and its last 64 KiB |
| Osdb.LocalReadsHeadTail | src/ziggy/lib/utils.go:151-156 | reading the two spans from an openable local file of at least 64 KiB yields its size and its head followed by its tail |
| Osdb.RemoteReadsHeadTail | src/ziggy/lib/utils.go:151-156 | reading the two spans from a range-honouring server of at least 64 KiB yields its size and its head followed by its tail |
| Osdb.LocalHashErrors | src/ziggy/lib/utils.go:156-160 | a local file that does not open, does not stat, or is under 64 KiB gives `OpenError`, `StatError` or `SourceTooSmall` |
| Osdb.LocalHashValue | src/ziggy/lib/utils.go:147-177 | any local file of at least 64 KiB is hashed. The hash is the 16 hex digits of (words of head and tail + size) mod 2^64, and reading those digits gives that value back |
| Osdb.RemoteHashMatchesLocal | src/ziggy/lib/utils.go:147-177 | a range-honouring server serving the same bytes as a local file gives the same, successful hash |
| Osdb.ZeroFileHash | src/ziggy/lib/utils.go:169-176 | an all-zero file of 131072 bytes hashes to its size alone, `0000000000020000` |

## Left out

- `Check`, `Must`, `ErrorData` and `JSONMarshal`: process exit, JSON output and printing are I/O outside the hash.
- Error messages: only the kind of each error is kept (`Types.Error`).
- Real I/O is replaced by the explicit `Env` described above:
  - the HTTP client, its 10-second context timeout and its cancellation;
  - connection to the server;
  - the opening and reading of files.
- A failure to build a request (`http.NewRequestWithContext`) has the same kind as a failed
  request, `NetworkError`.
- HTTP status codes are not modelled. The code does not look at them, and a server's answer
  is its body.
- Header names are looked up as written; Go's canonicalisation of header keys is not modelled.
- The check `n != len(buf)` after `io.ReadFull`, and the error branch of `binary.Read`, are
  left out: neither can be reached. `ReadFull` returns an error whenever it reads less, and
  `Osdb.OsdbSpansSize` shows the buffer always has the 131072 bytes `binary.Read` needs.
- `ReadAt`'s "negative offset" error is reported as `ShortRead`, like `ReadAt`'s end-of-file error.
- On an error the Go functions return the partially filled buffer through their named result;
  the model does not return the bytes of a failed read.
- `ChunkInfo.size` is a `nat`. Negative span sizes, which make the slice expressions in Go
  panic, are not modelled; `OSDBHashFile` only uses 65536.
- Offsets and sizes are unbounded integers: the int64 overflow that `totalBufferNeeded` or
  `start += fileSize` could reach is not modelled.
- The two copies of the buffer-filling loop are modelled once, by `Reader.SumSizes`,
  `Reader.FillSpans` and `Reader.FillSpan` over a `Chunks.Backend`.
- `Reader.ReadChunk` and `Reader.ReadRemoteChunk` state their copies into the slice the Go code
  passes as `buf[filled:filled+size]`, as a window `[lo, lo + len)` of the whole array.
