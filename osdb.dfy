/** `OSDBHashFile`: read the head and the tail of a source, then fold them into the hash. */
module Osdb {
  import opened Types
  import opened Chunks
  import opened Reader
  import opened Hash

  /** The spans `OSDBHashFile` asks for: the first 64 KiB and the last 64 KiB. */
  const OsdbSpans: seq<ChunkInfo> :=
    [ChunkInfo(0, OSDBChunkSize), ChunkInfo(-(OSDBChunkSize as int), OSDBChunkSize)]

  /** What `OSDBHashFile` makes of a read: hex of (sum of the buffer's words + size) mod 2^64, or the error. */
  function HashOutcome(o: Result<Fetched>): Result<string> {
    match o
    case Err(e) => Err(e)
    case Ok(f) => HashBuffer(f.buf, f.fileSize)
  }

  /** What `OSDBHashFile` returns for the source at `path`. */
  function HashFileOutcome(env: Env, path: string): Result<string> {
    HashOutcome(Outcome(env, path, OSDBChunkSize, OsdbSpans))
  }

  lemma OsdbSpansSize()
    ensures TotalSize(OsdbSpans) == 8 * WordCount
  {
    var head := OsdbSpans[..1];
    assert head[..0] == [] && head == [OsdbSpans[0]];
    assert TotalSize(head) == OSDBChunkSize;
    assert OsdbSpans[..|OsdbSpans| - 1] == head;
  }

  /** `(a mod 2^64 + b mod 2^64) mod 2^64` is `(a + b) mod 2^64`. */
  lemma AddMod(a: int, b: int)
    ensures ((a % TwoTo64) + (b % TwoTo64)) % TwoTo64 == (a + b) % TwoTo64
  {
    var qa, ra := a / TwoTo64, a % TwoTo64;
    var qb, rb := b / TwoTo64, b % TwoTo64;
    assert a + b == (qa + qb) * TwoTo64 + (ra + rb);
  }

  /** `binary.Read` of the little-endian word array `nums` from the reader over the buffer. */
  method DecodeWords(reader: seq<uint8>) returns (nums: array<uint64>)
    requires 8 * WordCount <= |reader|
    ensures fresh(nums) && nums[..] == Words(reader[..8 * WordCount])
  {
    nums := new uint64[WordCount];
    forall k | 0 <= k < WordCount {
      nums[k] := WordAt(reader, k);
    }
    var bytes := reader[..8 * WordCount];
    assert forall k :: 0 <= k < WordCount ==> WordAt(reader, k) == WordAt(bytes, k) by {
      forall k | 0 <= k < WordCount ensures WordAt(reader, k) == WordAt(bytes, k) {
        assert reader[8 * k..8 * k + 8] == bytes[8 * k..8 * k + 8];
      }
    }
    assert forall k :: 0 <= k < WordCount ==> nums[..][k] == Words(bytes)[k];
  }

  /** The loop of `OSDBHashFile` that adds the words into `hashUint`, wrapping at 2^64. */
  method FoldWords(nums: array<uint64>) returns (hashUint: uint64)
    ensures hashUint as nat == SumWords(nums[..]) % TwoTo64
  {
    hashUint := 0;
    for i := 0 to nums.Length
      invariant hashUint as nat == SumWords(nums[..i]) % TwoTo64
    {
      WrapStep(hashUint as nat, nums[..], i);
      hashUint := AddWrap(hashUint, nums[i]);
    }
    assert nums[..nums.Length] == nums[..];
  }

  /**
   * The part of `OSDBHashFile` after the read: decode the 131072 bytes into words, add them
   * up wrapping at 2^64, add the size, and render the sum.
   */
  method HashReadBuffer(reader: seq<uint8>, fileSize: int) returns (hash: string)
    requires |reader| == 8 * WordCount
    ensures HashBuffer(reader, fileSize) == Ok(hash)
  {
    assert reader[..8 * WordCount] == reader;
    ghost var sum := SumWords(Words(reader));
    assert HashBuffer(reader, fileSize) == Ok(Hex16(ToUint64(sum + fileSize)));
    var nums := DecodeWords(reader);
    var hashUint := FoldWords(nums);
    assert hashUint as int == sum % TwoTo64;
    var size := ToUint64(fileSize);
    assert size as int == fileSize % TwoTo64;
    hashUint := AddWrap(hashUint, size);
    AddMod(sum, fileSize);
    assert hashUint as int == (sum + fileSize) % TwoTo64;
    hash := Hex16(hashUint);
  }

  /** `OSDBHashFile`. */
  method OSDBHashFile(env: Env, filePath: string) returns (hash: string, err: Option<Error>)
    ensures err.None? <==> HashFileOutcome(env, filePath).Ok?
    ensures err.Some? ==> hash == "" && HashFileOutcome(env, filePath) == Err(err.value)
    ensures err.None? ==> HashFileOutcome(env, filePath) == Ok(hash)
  {
    var spans := [ChunkInfo(0, OSDBChunkSize), ChunkInfo(-(OSDBChunkSize as int), OSDBChunkSize)];
    var fileSize, buf, e := ReadChunks(env, filePath, OSDBChunkSize, spans);
    if e.Some? {
      return "", e;
    }
    OsdbSpansSize();
    // the buffer holds exactly the 131072 bytes binary.Read needs, so it cannot fail
    hash := HashReadBuffer(buf[..], fileSize);
    err := None;
  }

  /** The hash of a successful read of the two spans. */
  lemma HashOfFetched(fileSize: int, bytes: seq<uint8>)
    requires |bytes| == 8 * WordCount
    ensures HashOutcome(Ok(Fetched(fileSize, bytes))) == Ok(Hex16(ToUint64(SumWords(Words(bytes)) + fileSize)))
  {
    assert bytes[..8 * WordCount] == bytes;
    var sum := SumWords(Words(bytes));
    assert HashBuffer(bytes, fileSize) == Ok(Hex16(ToUint64(sum + fileSize)));
  }

  // ---------------------------------------------------------------- lemmas

  lemma SlicesOfTwo(content: seq<uint8>, a: ChunkInfo, b: ChunkInfo)
    requires SpanInside(content, a) && SpanInside(content, b)
    ensures AllInside(content, [a, b])
    ensures Slices(content, [a, b]) == SpanBytes(content, a) + SpanBytes(content, b)
  {
    assert [a, b][1..] == [b] && [b][1..] == [];
    assert Slices(content, [b]) == SpanBytes(content, b) + [];
  }

  lemma HeadSpanBytes(content: seq<uint8>)
    requires OSDBChunkSize <= |content|
    ensures SpanInside(content, OsdbSpans[0])
    ensures SpanBytes(content, OsdbSpans[0]) == content[..OSDBChunkSize]
  {
  }

  lemma TailSpanBytes(content: seq<uint8>)
    requires OSDBChunkSize <= |content|
    ensures SpanInside(content, OsdbSpans[1])
    ensures SpanBytes(content, OsdbSpans[1]) == content[|content| - OSDBChunkSize..]
  {
    var st := |content| - OSDBChunkSize;
    assert Resolve(OsdbSpans[1].offset, |content|) == st;
    assert content[st..st + OSDBChunkSize] == content[st..];
  }

  /** The head and tail spans of a file of at least 64 KiB; they overlap below 128 KiB. */
  lemma OsdbSlices(content: seq<uint8>)
    requires OSDBChunkSize <= |content|
    ensures AllInside(content, OsdbSpans)
    ensures Slices(content, OsdbSpans) == content[..OSDBChunkSize] + content[|content| - OSDBChunkSize..]
  {
    HeadSpanBytes(content);
    TailSpanBytes(content);
    SlicesOfTwo(content, OsdbSpans[0], OsdbSpans[1]);
    assert OsdbSpans == [OsdbSpans[0], OsdbSpans[1]];
  }

  /** The bytes `OSDBHashFile` hashes for a source of at least 64 KiB: its first and its last 64 KiB. */
  function HeadTail(content: seq<uint8>): (bytes: seq<uint8>)
    requires OSDBChunkSize <= |content|
    ensures |bytes| == 8 * WordCount
  {
    content[..OSDBChunkSize] + content[|content| - OSDBChunkSize..]
  }

  /** The value a hash of head, tail and size renders. */
  function HeadTailSum(content: seq<uint8>): int
    requires OSDBChunkSize <= |content|
  {
    SumWords(Words(HeadTail(content))) + |content|
  }

  /** A local file that does not open, does not stat or is under 64 KiB is not hashed. */
  lemma LocalHashErrors(env: Env, path: string)
    requires !IsRemote(path)
    ensures path !in env.files ==> HashFileOutcome(env, path) == Err(OpenError)
    ensures path in env.files && !env.files[path].statOk ==> HashFileOutcome(env, path) == Err(StatError)
    ensures (path in env.files && env.files[path].statOk && |env.files[path].content| < OSDBChunkSize) ==>
      HashFileOutcome(env, path) == Err(SourceTooSmall)
  {
  }

  /**
   * A local file that opens, stats and holds at least 64 KiB (64 KiB to 128 KiB included)
   * is hashed: the hash renders the sum of the little-endian words of its first and last
   * 64 KiB plus its size, modulo 2^64, as 16 lower-case hex digits.
   */
  lemma LocalHashValue(env: Env, path: string)
    requires !IsRemote(path) && path in env.files && env.files[path].statOk
    requires OSDBChunkSize <= |env.files[path].content|
    ensures HashFileOutcome(env, path) == Ok(Hex16(ToUint64(HeadTailSum(env.files[path].content))))
    ensures HexValue(HashFileOutcome(env, path).value) == HeadTailSum(env.files[path].content) % TwoTo64
  {
    var content := env.files[path].content;
    var fetched := Fetched(|content|, HeadTail(content));
    LocalReadsHeadTail(env, path);
    assert HashFileOutcome(env, path) == HashOutcome(Ok(fetched));
    HashOfFetched(|content|, HeadTail(content));
    assert HeadTailSum(content) == SumWords(Words(HeadTail(content))) + |content|;
    Hex16RoundTrip(ToUint64(HeadTailSum(content)));
  }

  /** The read of the two spans from a local file of at least 64 KiB yields its head and its tail. */
  lemma LocalReadsHeadTail(env: Env, path: string)
    requires !IsRemote(path) && path in env.files && env.files[path].statOk
    requires OSDBChunkSize <= |env.files[path].content|
    ensures var content := env.files[path].content;
      Outcome(env, path, OSDBChunkSize, OsdbSpans) == Ok(Fetched(|content|, HeadTail(content)))
  {
    var content := env.files[path].content;
    OsdbSlices(content);
    LocalOutcomeCharacterized(env.files, path, OSDBChunkSize, OsdbSpans);
  }

  /** A remote resource behind a range-honouring server hashes to the same value as the same bytes on disk. */
  lemma RemoteHashMatchesLocal(env: Env, url: string, path: string, content: seq<uint8>)
    requires IsRemote(url) && url in env.net && env.net[url] == RangeServer(content)
    requires !IsRemote(path) && path in env.files && env.files[path] == FileEntry(true, content)
    requires OSDBChunkSize <= |content| <= MaxInt64
    ensures HashFileOutcome(env, url) == HashFileOutcome(env, path)
    ensures HashFileOutcome(env, url).Ok?
  {
    var fetched := Fetched(|content|, HeadTail(content));
    RemoteReadsHeadTail(env, url, content);
    LocalReadsHeadTail(env, path);
    assert HashFileOutcome(env, url) == HashOutcome(Ok(fetched));
    assert HashFileOutcome(env, path) == HashOutcome(Ok(fetched));
    HashOfFetched(|content|, HeadTail(content));
  }

  /** The read of the two spans from a range-honouring server of at least 64 KiB yields head and tail. */
  lemma RemoteReadsHeadTail(env: Env, url: string, content: seq<uint8>)
    requires IsRemote(url) && url in env.net && env.net[url] == RangeServer(content)
    requires OSDBChunkSize <= |content| <= MaxInt64
    ensures Outcome(env, url, OSDBChunkSize, OsdbSpans) == Ok(Fetched(|content|, HeadTail(content)))
  {
    OsdbSlices(content);
    RemoteOutcomeOfRangeServer(env, url, OSDBChunkSize, content, OsdbSpans);
  }

  /** An all-zero file of 131072 bytes hashes to its size alone: "0000000000020000". */
  lemma ZeroFileHash(env: Env, path: string)
    requires !IsRemote(path) && path in env.files
    requires env.files[path] == FileEntry(true, seq(2 * OSDBChunkSize, _ => 0))
    ensures HashFileOutcome(env, path) == Ok("0000000000020000")
  {
    var content := env.files[path].content;
    LocalHashValue(env, path);
    ZeroHeadTailSum(content);
    assert ToUint64(0x20000) == 0x20000;
    HexOfSize();
  }

  lemma ZeroHeadTailSum(content: seq<uint8>)
    requires content == seq(2 * OSDBChunkSize, _ => 0)
    ensures HeadTailSum(content) == 0x20000
  {
    var bytes := HeadTail(content);
    assert forall j :: 0 <= j < |bytes| ==> bytes[j] == 0;
    ZeroWordsSum(bytes);
  }

  lemma ZeroWordsSum(bytes: seq<uint8>)
    requires forall j :: 0 <= j < |bytes| ==> bytes[j] == 0
    ensures SumWords(Words(bytes)) == 0
  {
    var ws := Words(bytes);
    forall k | 0 <= k < |ws| ensures ws[k] == 0 {
      ZeroBytes(bytes[8 * k..8 * k + 8]);
    }
    SumWordsOfZeros(ws);
  }

  lemma HexOfSize()
    ensures Hex16(0x20000) == "0000000000020000"
  {
    ZeroPadding(11);
    assert HexDigits(2, 12) == HexDigits(0, 11) + "2";
    assert HexDigits(0x20, 13) == HexDigits(2, 12) + "0";
    assert HexDigits(0x200, 14) == HexDigits(0x20, 13) + "0";
    assert HexDigits(0x2000, 15) == HexDigits(0x200, 14) + "0";
    assert HexDigits(0x20000, 16) == HexDigits(0x2000, 15) + "0";
    assert seq(11, _ => '0') + "2" + "0" + "0" + "0" + "0" == "0000000000020000";
  }

  lemma {:induction false} ZeroBytes(b: seq<uint8>)
    requires forall j :: 0 <= j < |b| ==> b[j] == 0
    ensures LittleEndian(b) == 0
  {
    if b != [] {
      ZeroBytes(b[1..]);
    }
  }

  lemma {:induction false} ZeroPadding(width: nat)
    ensures HexDigits(0, width) == seq(width, _ => '0')
  {
    if width > 0 {
      ZeroPadding(width - 1);
    }
  }
}
