/** Bytes in little-endian words, and the length varints in front of byte strings. */
module Packing {
  import opened Bits
  import opened Wrappers

  function Zeros(n: nat): (z: seq<u32>)
    ensures |z| == n && forall i :: 0 <= i < n ==> z[i] == 0
  {
    seq(n, _ => 0)
  }

  function ByteAt(raw: seq<u8>, i: nat): u8 {
    if i < |raw| then raw[i] else 0
  }

  function PackWord(raw: seq<u8>, i: nat): u32 {
    ByteAt(raw, 4 * i) + 0x100 * ByteAt(raw, 4 * i + 1) + 0x1_0000 * ByteAt(raw, 4 * i + 2) + 0x100_0000 * ByteAt(raw,
        4 * i + 3)
  }

  function WordSize(n: nat): nat {
    (n + 3) / 4
  }

  /** The bytes laid out in words, zero padded. */
  function Pack(raw: seq<u8>): (words: seq<u32>)
    ensures |words| == WordSize(|raw|)
  {
    seq(WordSize(|raw|), i requires 0 <= i => PackWord(raw, i))
  }

  function BytesOfWords(words: seq<u32>): (raw: seq<u8>)
    ensures |raw| == 4 * |words|
  {
    seq(4 * |words|, k requires 0 <= k < 4 * |words| => WordBytes(words[k / 4])[k % 4])
  }

  lemma LowByte(b: u8, rest: nat)
    ensures (b + 0x100 * rest) / 0x100 == rest && (b + 0x100 * rest) % 0x100 == b
  {
  }

  lemma Quotients(w: nat)
    ensures w / 0x100 / 0x100 == w / 0x1_0000 && w / 0x1_0000 / 0x100 == w / 0x100_0000
  {
  }

  lemma FourBytes(a: u8, b: u8, c: u8, d: u8)
    ensures WordBytes(a + 0x100 * b + 0x1_0000 * c + 0x100_0000 * d) == [a, b, c, d]
  {
    var w := a + 0x100 * b + 0x1_0000 * c + 0x100_0000 * d;
    LowByte(a, b + 0x100 * (c + 0x100 * d));
    LowByte(b, c + 0x100 * d);
    LowByte(c, d);
    Quotients(w);
  }

  lemma PackWordBytes(raw: seq<u8>, i: nat)
    ensures WordBytes(PackWord(raw, i))
        == [ByteAt(raw, 4 * i), ByteAt(raw, 4 * i + 1), ByteAt(raw, 4 * i + 2), ByteAt(raw, 4 * i + 3)]
  {
    FourBytes(ByteAt(raw, 4 * i), ByteAt(raw, 4 * i + 1), ByteAt(raw, 4 * i + 2), ByteAt(raw, 4 * i + 3));
  }

  /** Packing loses nothing: the bytes come back, followed by zero padding. */
  lemma PackUnpack(raw: seq<u8>)
    ensures |raw| <= |BytesOfWords(Pack(raw))| < |raw| + 4
    ensures BytesOfWords(Pack(raw))[..|raw|] == raw
    ensures forall k :: |raw| <= k < |BytesOfWords(Pack(raw))| ==> BytesOfWords(Pack(raw))[k] == 0
  {
    hide WordBytes, PackWord;
    var out := BytesOfWords(Pack(raw));
    forall k | 0 <= k < |out| ensures out[k] == ByteAt(raw, k) {
      PackWordBytes(raw, k / 4);
      assert k == 4 * (k / 4) + k % 4;
    }
  }

  /** Words are stored from their low byte up. */
  lemma LittleEndian(words: seq<u32>, i: nat)
    requires i < |words|
    ensures var raw := BytesOfWords(words);
            && raw[4 * i] == words[i] % 0x100 && raw[4 * i + 1] == words[i] / 0x100 % 0x100
            && raw[4 * i + 2] == words[i] / 0x1_0000 % 0x100 && raw[4 * i + 3] == words[i] / 0x100_0000 % 0x100
  {
  }

  /** Different words have different bytes. */
  lemma BytesDiffer(a: seq<u32>, b: seq<u32>)
    requires BytesOfWords(a) == BytesOfWords(b)
    ensures a == b
  {
    hide BytesOfWords;
    assert 4 * |a| == 4 * |b|;
    forall i | 0 <= i < |a| ensures a[i] == b[i] {
      LittleEndian(a, i);
      LittleEndian(b, i);
      Quotients(a[i]);
      Quotients(b[i]);
    }
  }

  lemma BytesOfAppend(a: seq<u32>, b: seq<u32>)
    ensures BytesOfWords(a + b) == BytesOfWords(a) + BytesOfWords(b)
  {
    hide WordBytes;
    var n := |a|;
    forall k | 0 <= k < 4 * |a + b| ensures BytesOfWords(a + b)[k] == (BytesOfWords(a) + BytesOfWords(b))[k] {
      if k < 4 * n {
        assert (a + b)[k / 4] == a[k / 4];
      } else {
        assert k / 4 - n == (k - 4 * n) / 4 && k % 4 == (k - 4 * n) % 4;
        assert (a + b)[k / 4] == b[k / 4 - n];
      }
    }
  }

  // ----- varints

  function Varint(n: nat): (b: seq<u8>)
    ensures |b| >= 1
  {
    if n < 0x80 then [n] else [0x80 + n % 0x80] + Varint(n / 0x80)
  }

  /** Value and byte count of the varint at `used`, of at most five bytes counted from `shift`. */
  function ReadVarint(raw: seq<u8>, used: nat, shift: nat): (r: Result<(nat, nat)>)
    ensures r.Ok? ==> used < r.value.1 <= |raw|
    decreases 35 - shift
  {
    if shift >= 32 then Err(InvalidHeader)
    else if used >= |raw| then Err(Truncated)
    else if raw[used] < 0x80 then Ok((Shl(raw[used], shift), used + 1))
    else
      match ReadVarint(raw, used + 1, shift + 7)
      case Err(kind) => Err(kind)
      case Ok((v, end)) => Ok((Shl(raw[used] % 0x80, shift) + v, end))
  }

  lemma {:induction false} ShlAdd(a: nat, b: nat, n: nat)
    ensures Shl(a + b, n) == Shl(a, n) + Shl(b, n)
  {
    if n > 0 { ShlAdd(a, b, n - 1); }
  }

  lemma {:induction false} ShlMore(a: nat, m: nat, n: nat)
    ensures Shl(a, m + n) == Shl(Shl(a, m), n)
    decreases n
  {
    if n > 0 { ShlMore(a, m, n - 1); }
  }

  lemma ShlSeven(a: nat)
    ensures Shl(a, 7) == 0x80 * a
  {
    assert Shl(a, 1) == 2 * a;
    assert Shl(a, 2) == 4 * a;
    assert Shl(a, 3) == 8 * a;
    assert Shl(a, 4) == 16 * a;
    assert Shl(a, 5) == 32 * a;
    assert Shl(a, 6) == 64 * a;
  }

  lemma {:induction false} ShlBelow(a: nat, b: nat, n: nat)
    requires a < b
    ensures Shl(a, n) + Pow2(n) <= Shl(b, n)
    decreases n
  {
    if n > 0 { ShlBelow(a, b, n - 1); }
  }

  /** How many varint bytes remain once `shift` bits are read. */
  function VarintRoom(shift: nat): nat
    requires shift <= 35
  {
    (35 - shift) / 7
  }

  function Pow128(n: nat): nat {
    if n == 0 then 1 else 0x80 * Pow128(n - 1)
  }

  lemma JoinVarint(n: nat, shift: nat)
    ensures Shl(n % 0x80, shift) + Shl(n / 0x80, shift + 7) == Shl(n, shift)
  {
    hide Shl;
    ShlSeven(n / 0x80);
    ShlMore(n / 0x80, 7, shift);
    ShlAdd(n % 0x80, 0x80 * (n / 0x80), shift);
  }

  lemma {:induction false} VarintReads(n: nat, shift: nat, before: seq<u8>, after: seq<u8>)
    requires shift % 7 == 0 && shift < 35 && n < Pow128(VarintRoom(shift))
    ensures ReadVarint(before + Varint(n) + after, |before|, shift) == Ok((Shl(n, shift), |before| + |Varint(n)|))
    decreases n
  {
    hide Shl;
    var raw := before + Varint(n) + after;
    if n >= 0x80 {
      var head := [0x80 + n % 0x80];
      assert VarintRoom(shift) > 1;
      VarintReads(n / 0x80, shift + 7, before + head, after);
      assert raw == (before + head) + Varint(n / 0x80) + after;
      assert raw[|before|] == 0x80 + n % 0x80;
      JoinVarint(n, shift);
    } else {
      assert raw[|before|] == n;
    }
  }

  /** Every length below 2^35 is read back by the five-byte reader. */
  lemma VarintRoundTrip(n: nat, after: seq<u8>)
    requires n < 0x8_0000_0000
    ensures ReadVarint(Varint(n) + after, 0, 0) == Ok((n, |Varint(n)|))
  {
    assert Pow128(5) == 0x8_0000_0000;
    VarintReads(n, 0, [], after);
    assert Shl(n, 0) == n;
    assert [] + Varint(n) + after == Varint(n) + after;
  }

  /** write_varint, as a loop over a byte buffer. */
  method WriteVarint(value: nat) returns (buf: seq<u8>)
    ensures buf == Varint(value)
  {
    buf := [];
    var n := value;
    while n >= 0x80
      invariant buf + Varint(n) == Varint(value)
    {
      assert Varint(n) == [0x80 + n % 0x80] + Varint(n / 0x80);
      buf := buf + [0x80 + n % 0x80];
      n := n / 0x80;
    }
    buf := buf + [n];
  }

  lemma MarkBound(mark: nat, d: nat, shift: nat)
    requires mark < Pow2(shift) && d < 0x80
    ensures mark + Shl(d, shift) < Pow2(shift + 7)
  {
    hide Shl, Pow2;
    ShlBelow(d, 0x80, shift);
    ShlOne(shift);
    ShlOne(shift + 7);
    ShlSeven(1);
    ShlMore(1, 7, shift);
  }

  lemma {:induction false} ShlOne(n: nat)
    ensures Shl(1, n) == Pow2(n)
  {
    if n > 0 { ShlOne(n - 1); }
  }

  lemma NoBits()
    ensures Pow2(0) == 1
  {
  }

  /** The reading loop of string headers and of compressed data. */
  method ParseVarint(raw: seq<u8>) returns (r: Result<(nat, nat)>)
    ensures r == ReadVarint(raw, 0, 0)
  {
    hide Pow2, Or, Shl;
    NoBits();
    var mark: nat, shift, used := 0, 0, 0;
    while shift < 32
      invariant shift <= 35 && shift % 7 == 0 && mark < Pow2(shift)
      invariant ReadVarint(raw, 0, 0) == Prefixed(mark, ReadVarint(raw, used, shift))
      decreases 35 - shift
    {
      if used >= |raw| {
        return Err(Truncated);
      }
      var byte := raw[used];
      used := used + 1;
      OrShl(mark, byte % 0x80, shift);
      MarkBound(mark, byte % 0x80, shift);
      mark := Or(mark, Shl(byte % 0x80, shift));
      if byte < 0x80 {
        return Ok((mark, used));
      }
      shift := shift + 7;
    }
    return Err(InvalidHeader);
  }

  ghost function Prefixed(mark: nat, rest: Result<(nat, nat)>): Result<(nat, nat)> {
    match rest
    case Err(kind) => Err(kind)
    case Ok((v, end)) => Ok((mark + v, end))
  }
}
