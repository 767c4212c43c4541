/**
 * The hash folder of `OSDBHashFile`: little-endian 64-bit words, their sum, and the
 * `%016x` rendering of the result.
 */
module Hash {
  import opened Types

  // ---------------------------------------------------------------- little-endian words

  function Pow256(k: nat): (p: nat)
    ensures 0 < p
  {
    if k == 0 then 1 else 256 * Pow256(k - 1)
  }

  /** Value of bytes read least significant first. */
  function LittleEndian(b: seq<uint8>): (v: nat)
    ensures v < Pow256(|b|)
  {
    if b == [] then 0 else b[0] as nat + 256 * LittleEndian(b[1..])
  }

  /** The same value as a sum in which byte k weighs 256^k. */
  function WeightedSum(b: seq<uint8>): nat {
    if b == [] then 0 else WeightedSum(b[..|b| - 1]) + b[|b| - 1] as nat * Pow256(|b| - 1)
  }

  /** The n lowest bytes of w, least significant first. */
  function LittleEndianBytes(w: nat, n: nat): (b: seq<uint8>)
    ensures |b| == n
  {
    if n == 0 then [] else [(w % 256) as uint8] + LittleEndianBytes(w / 256, n - 1)
  }

  /** Appending a byte adds it with the weight of its position. */
  lemma {:induction false} LittleEndianSnoc(b: seq<uint8>, x: uint8)
    ensures LittleEndian(b + [x]) == LittleEndian(b) + x as nat * Pow256(|b|)
  {
    if b == [] {
      assert ([] + [x])[1..] == [];
    } else {
      assert (b + [x])[1..] == b[1..] + [x];
      LittleEndianSnoc(b[1..], x);
      MulShift(x as nat, Pow256(|b| - 1));
    }
  }

  lemma MulShift(x: nat, p: nat)
    ensures 256 * (x * p) == x * (256 * p)
  {
  }

  lemma {:induction false} LittleEndianIsWeightedSum(b: seq<uint8>)
    ensures LittleEndian(b) == WeightedSum(b)
  {
    if b != [] {
      var init := b[..|b| - 1];
      LittleEndianIsWeightedSum(init);
      assert b == init + [b[|b| - 1]];
      LittleEndianSnoc(init, b[|b| - 1]);
    }
  }

  /** Decoding the encoding of a value that fits in n bytes gives back the value. */
  lemma {:induction false} LittleEndianOfBytes(w: nat, n: nat)
    requires w < Pow256(n)
    ensures LittleEndian(LittleEndianBytes(w, n)) == w
  {
    if n > 0 {
      var q, r := w / 256, w % 256;
      assert w == 256 * q + r && q < Pow256(n - 1);
      var b := LittleEndianBytes(w, n);
      assert b[0] as nat == r && b[1..] == LittleEndianBytes(q, n - 1);
      LittleEndianOfBytes(q, n - 1);
      assert LittleEndian(b) == r + 256 * q;
    }
  }

  /** Encoding the value of bytes gives back the bytes. */
  lemma {:induction false} BytesOfLittleEndian(b: seq<uint8>)
    ensures LittleEndianBytes(LittleEndian(b), |b|) == b
  {
    if b != [] {
      var v := LittleEndian(b);
      assert v % 256 == b[0] as nat && v / 256 == LittleEndian(b[1..]);
      BytesOfLittleEndian(b[1..]);
    }
  }

  // ---------------------------------------------------------------- the word sum

  /** Eight bytes span exactly the uint64 range. */
  lemma Pow256Eight()
    ensures Pow256(8) == TwoTo64
  {
    assert Pow256(2) == 0x1_0000;
    assert Pow256(4) == 0x1_0000 * Pow256(2);
    assert Pow256(6) == 0x1_0000 * Pow256(4);
    assert Pow256(8) == 0x1_0000 * Pow256(6);
  }

  /** The k-th little-endian uint64 of `buf`. */
  function WordAt(buf: seq<uint8>, k: nat): (w: uint64)
    requires 8 * k + 8 <= |buf|
    ensures w as nat == LittleEndian(buf[8 * k..8 * k + 8])
    ensures w as nat == WeightedSum(buf[8 * k..8 * k + 8])
  {
    Pow256Eight();
    LittleEndianIsWeightedSum(buf[8 * k..8 * k + 8]);
    LittleEndian(buf[8 * k..8 * k + 8]) as uint64
  }

  /** `buf` read as consecutive little-endian uint64 words (a trailing partial word is dropped). */
  function Words(buf: seq<uint8>): (ws: seq<uint64>)
    ensures |ws| == |buf| / 8
    ensures forall k :: 0 <= k < |ws| ==> ws[k] == WordAt(buf, k)
  {
    seq(|buf| / 8, k requires 0 <= k < |buf| / 8 => WordAt(buf, k))
  }

  /** Decoding a buffer of whole words followed by more bytes decodes the two parts in turn. */
  lemma WordsAppend(a: seq<uint8>, b: seq<uint8>)
    requires |a| % 8 == 0
    ensures Words(a + b) == Words(a) + Words(b)
  {
    var n, m, r := |a| / 8, |b| / 8, |b| % 8;
    assert |a| == 8 * n && |b| == 8 * m + r && r < 8;
    assert |a + b| == 8 * (n + m) + r;
    assert |a + b| / 8 == n + m;
    forall k | 0 <= k < n + m
      ensures Words(a + b)[k] == (Words(a) + Words(b))[k]
    {
      if k < n {
        assert (a + b)[8 * k..8 * k + 8] == a[8 * k..8 * k + 8];
      } else {
        var j := k - n;
        assert 8 * k == |a| + 8 * j && 8 * j + 8 <= |b|;
        SliceAfter(a, b, 8 * j, 8);
      }
    }
  }

  lemma SliceAfter(a: seq<uint8>, b: seq<uint8>, q: nat, len: nat)
    requires q + len <= |b|
    ensures (a + b)[|a| + q..|a| + q + len] == b[q..q + len]
  {
  }

  /** The sum of the words, without wrap-around. */
  function SumWords(ws: seq<uint64>): nat {
    if ws == [] then 0 else SumWords(ws[..|ws| - 1]) + ws[|ws| - 1] as nat
  }

  lemma {:induction false} SumWordsAppend(a: seq<uint64>, b: seq<uint64>)
    ensures SumWords(a + b) == SumWords(a) + SumWords(b)
  {
    if b == [] {
      assert a + b == a;
    } else {
      assert (a + b)[..|a + b| - 1] == a + b[..|b| - 1];
      assert (a + b)[|a + b| - 1] == b[|b| - 1];
      SumWordsAppend(a, b[..|b| - 1]);
    }
  }

  lemma {:induction false} SumWordsOfZeros(ws: seq<uint64>)
    requires forall k :: 0 <= k < |ws| ==> ws[k] == 0
    ensures SumWords(ws) == 0
  {
    if ws != [] {
      SumWordsOfZeros(ws[..|ws| - 1]);
    }
  }

  /** Adding with wrap-around at every step reduces the exact sum modulo 2^64. */
  lemma WrapStep(acc: nat, ws: seq<uint64>, i: nat)
    requires i < |ws| && acc < TwoTo64 && acc == SumWords(ws[..i]) % TwoTo64
    ensures (acc + ws[i] as nat) % TwoTo64 == SumWords(ws[..i + 1]) % TwoTo64
  {
    assert ws[..i + 1][..i] == ws[..i];
    var s := SumWords(ws[..i]);
    assert SumWords(ws[..i + 1]) == s + ws[i] as nat;
    ModShift(s / TwoTo64, acc + ws[i] as nat);
  }

  lemma ModShift(k: int, t: int)
    ensures (k * TwoTo64 + t) % TwoTo64 == t % TwoTo64
  {
    var q, r := t / TwoTo64, t % TwoTo64;
    assert k * TwoTo64 + t == (k + q) * TwoTo64 + r;
  }

  // ---------------------------------------------------------------- %016x

  predicate IsLowerHex(c: char) {
    '0' <= c <= '9' || 'a' <= c <= 'f'
  }

  function HexChar(d: nat): (c: char)
    requires d < 16
    ensures IsLowerHex(c)
  {
    if d < 10 then ('0' as int + d) as char else ('a' as int + d - 10) as char
  }

  function HexDigitValue(c: char): (d: nat)
    requires IsLowerHex(c)
    ensures d < 16
  {
    if c <= '9' then c as int - '0' as int else c as int - 'a' as int + 10
  }

  function Pow16(n: nat): (p: nat)
    ensures 0 < p
  {
    if n == 0 then 1 else 16 * Pow16(n - 1)
  }

  /** The `width` lowest hex digits of v, most significant first, lower case, zero-padded. */
  function HexDigits(v: nat, width: nat): (s: string)
    ensures |s| == width && forall i :: 0 <= i < |s| ==> IsLowerHex(s[i])
  {
    if width == 0 then "" else HexDigits(v / 16, width - 1) + [HexChar(v % 16)]
  }

  /** `fmt.Sprintf("%016x", v)`. */
  function Hex16(v: uint64): (s: string)
    ensures |s| == 16 && forall i :: 0 <= i < 16 ==> IsLowerHex(s[i])
  {
    HexDigits(v as nat, 16)
  }

  /** Value of a string of lower-case hex digits, most significant first. */
  function HexValue(s: string): nat
    requires forall i :: 0 <= i < |s| ==> IsLowerHex(s[i])
  {
    if s == [] then 0 else HexValue(s[..|s| - 1]) * 16 + HexDigitValue(s[|s| - 1])
  }

  lemma {:induction false} HexValueOfDigits(v: nat, width: nat)
    requires v < Pow16(width)
    ensures HexValue(HexDigits(v, width)) == v
  {
    if width > 0 {
      var q, r := v / 16, v % 16;
      assert v == 16 * q + r && q < Pow16(width - 1);
      var s := HexDigits(v, width);
      assert s == HexDigits(q, width - 1) + [HexChar(r)];
      assert s[..width - 1] == HexDigits(q, width - 1) && s[width - 1] == HexChar(r);
      HexValueOfDigits(q, width - 1);
      HexCharValue(r);
      assert HexValue(s) == HexValue(s[..width - 1]) * 16 + HexDigitValue(s[width - 1]);
    }
  }

  lemma HexCharValue(d: nat)
    requires d < 16
    ensures HexDigitValue(HexChar(d)) == d
  {
  }

  lemma ValueHexChar(c: char)
    requires IsLowerHex(c)
    ensures HexChar(HexDigitValue(c)) == c
  {
  }

  lemma {:induction false} Pow16IsPow256(k: nat)
    ensures Pow16(2 * k) == Pow256(k)
  {
    if k > 0 {
      Pow16IsPow256(k - 1);
      assert Pow16(2 * k) == 16 * (16 * Pow16(2 * (k - 1)));
    }
  }

  lemma {:induction false} DigitsOfHexValue(s: string)
    requires forall i :: 0 <= i < |s| ==> IsLowerHex(s[i])
    ensures HexValue(s) < Pow16(|s|)
    ensures HexDigits(HexValue(s), |s|) == s
  {
    if s != [] {
      var n := |s|;
      var init := s[..n - 1];
      DigitsOfHexValue(init);
      var q, r := HexValue(init), HexDigitValue(s[n - 1]);
      var v := HexValue(s);
      assert v == 16 * q + r;
      assert v / 16 == q && v % 16 == r;
      assert v < Pow16(n);
      ValueHexChar(s[n - 1]);
      assert HexDigits(v, n) == HexDigits(q, n - 1) + [HexChar(r)];
      assert s == init + [s[n - 1]];
    }
  }

  /** The 16 hex digits read back as the value they render. */
  lemma Hex16RoundTrip(v: uint64)
    ensures HexValue(Hex16(v)) == v as nat
  {
    Pow16IsPow256(8);
    Pow256Eight();
    HexValueOfDigits(v as nat, 16);
  }

  /** Every string of 16 lower-case hex digits is the rendering of exactly one value. */
  lemma Hex16Onto(s: string)
    requires |s| == 16 && forall i :: 0 <= i < 16 ==> IsLowerHex(s[i])
    ensures HexValue(s) < TwoTo64 && Hex16(HexValue(s) as uint64) == s
  {
    DigitsOfHexValue(s);
    Pow16IsPow256(8);
    Pow256Eight();
    var v := HexValue(s);
    assert v < TwoTo64;
    assert Hex16(v as uint64) == HexDigits(v, 16);
  }

  // ---------------------------------------------------------------- the hash of a buffer

  /** Number of words that `binary.Read` decodes into `nums`. */
  const WordCount: nat := (OSDBChunkSize * 2) / 8

  /**
   * What `OSDBHashFile` computes from the buffer and the source size: `binary.Read` fills
   * the 16384-word array from the first 131072 bytes (failing if there are fewer), the words
   * and the size are summed modulo 2^64, and the sum is rendered as 16 hex digits.
   */
  function HashBuffer(buf: seq<uint8>, fileSize: int): Result<string> {
    if |buf| < 8 * WordCount then Err(DecodeError)
    else Ok(Hex16(ToUint64(SumWords(Words(buf[..8 * WordCount])) + fileSize)))
  }
}
