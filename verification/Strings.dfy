/** Byte strings: a varint holding four times the length, then the bytes, zero padded to words. */
module Strings {
  import opened Bits
  import opened Wrappers
  import opened Packing
  import opened Buffers

  const MAX_LEN: nat := 0x4000_0000

  function StringRaw(bytes: seq<u8>): (raw: seq<u8>) {
    Varint(4 * |bytes|) + bytes
  }

  function StringWords(bytes: seq<u8>): (words: seq<u32>) {
    Pack(StringRaw(bytes))
  }

  /** Header of a byte string: payload bounds in the byte view of `words`. */
  function StringSpan(words: seq<u32>): Option<(nat, nat)> {
    if words == [] || BytesOfWords(words)[0] % 4 != 0 then None
    else
      match ReadVarint(BytesOfWords(words), 0, 0)
      case Err(_) => None
      case Ok((mark, used)) => Some((used, used + mark / 4))
  }

  /** StringView::new(words).as_bytes() */
  function StringBytes(words: seq<u32>): Option<seq<u8>> {
    match StringSpan(words)
    case None => None
    case Some((start, end)) => if start <= end <= 4 * |words| then Some(BytesOfWords(words)[start..end]) else None
  }

  /** StringView::detect_len */
  function StringLen(words: seq<u32>): Option<nat> {
    match StringSpan(words)
    case None => None
    case Some((_, end)) => Some(WordSize(end))
  }

  /** StringView::detect, as a length. */
  function StringDetect(words: seq<u32>): Option<nat> {
    match StringLen(words)
    case None => None
    case Some(n) => if n <= |words| then Some(n) else None
  }

  method NewStringView(words: seq<u32>) returns (r: Option<seq<u8>>)
    ensures r == StringBytes(words)
  {
    var raw := BytesOfWords(words);
    if |raw| == 0 || raw[0] % 4 != 0 {
      return None;
    }
    var parsed := ParseVarint(raw);
    match parsed {
      case Err(_) => r := None;
      case Ok((mark, used)) =>
        var end := used + mark / 4;
        r := if used <= end <= |raw| then Some(raw[used..end]) else None;
    }
  }

  method DetectLen(words: seq<u32>) returns (r: Option<nat>)
    ensures r == StringLen(words)
  {
    var raw := BytesOfWords(words);
    if |raw| == 0 || raw[0] % 4 != 0 {
      return None;
    }
    var parsed := ParseVarint(raw);
    match parsed {
      case Err(_) => r := None;
      case Ok((mark, used)) => r := Some(WordSize(used + mark / 4));
    }
  }

  lemma MarkFirst(mark: nat)
    requires mark % 4 == 0
    ensures Varint(mark)[0] % 4 == 0
  {
  }

  lemma StringHead(bytes: seq<u8>, suffix: seq<u32>)
    requires |bytes| < MAX_LEN
    ensures |StringWords(bytes)| >= 1
    ensures StringSpan(StringWords(bytes) + suffix) == Some((|Varint(4 * |bytes|)|, |StringRaw(bytes)|))
    ensures BytesOfWords(StringWords(bytes) + suffix)[..|StringRaw(bytes)|] == StringRaw(bytes)
  {
    hide ReadVarint, Pack, BytesOfWords, Varint;
    MarkFirst(4 * |bytes|);
    var raw, words, head := StringRaw(bytes), StringWords(bytes), Varint(4 * |bytes|);
    PackUnpack(raw);
    BytesOfAppend(words, suffix);
    var all := BytesOfWords(words + suffix);
    assert all == BytesOfWords(words) + BytesOfWords(suffix);
    assert all[..|raw|] == raw;
    assert all == head + all[|head|..] by { assert all[..|head|] == raw[..|head|] == head; }
    VarintRoundTrip(4 * |bytes|, all[|head|..]);
    assert all[0] == head[0];
  }

  /** Any byte string below 2^30 bytes reads back, whatever follows it. */
  lemma StringRoundTrip(bytes: seq<u8>, suffix: seq<u32>)
    requires |bytes| < MAX_LEN
    ensures StringBytes(StringWords(bytes) + suffix) == Some(bytes)
    ensures StringDetect(StringWords(bytes) + suffix) == Some(|StringWords(bytes)|)
  {
    hide ReadVarint, StringSpan, BytesOfWords;
    StringHead(bytes, suffix);
    var raw, n := StringRaw(bytes), |Varint(4 * |bytes|)|;
    assert BytesOfWords(StringWords(bytes) + suffix)[n..|raw|]
        == BytesOfWords(StringWords(bytes) + suffix)[..|raw|][n..] == raw[n..] == bytes;
  }

  lemma FirstByte(bytes: seq<u8>)
    ensures StringRaw(bytes) != [] && StringRaw(bytes)[0] % 4 == 0
    ensures StringRaw(bytes)[0] == 0 <==> bytes == []
    ensures bytes == [] ==> StringRaw(bytes) == [0]
  {
    assert StringRaw(bytes)[0] == Varint(4 * |bytes|)[0];
  }

  lemma FirstOfPack(raw: seq<u8>)
    requires raw != []
    ensures |Pack(raw)| >= 1 && Pack(raw)[0] % 4 == raw[0] % 4
    ensures Pack(raw)[0] == 0 ==> raw[0] == 0
    ensures raw == [0] ==> Pack(raw) == [0]
  {
    assert Pack(raw)[0] == PackWord(raw, 0);
  }

  /** The first word of a byte string is never taken for a pointer. */
  lemma StringFirstWord(bytes: seq<u8>)
    requires |bytes| < MAX_LEN
    ensures |StringWords(bytes)| >= 1 && StringWords(bytes)[0] % 4 == 0
    ensures |StringWords(bytes)| == 1 && StringWords(bytes)[0] == 0 <==> bytes == []
  {
    hide StringRaw, Pack;
    FirstByte(bytes);
    FirstOfPack(StringRaw(bytes));
  }

  /** Encodes a byte string; one word stays inline. */
  method SerializeBytes(bytes: seq<u8>, buffer: Buffer) returns (unit: Option<Unit>)
    requires buffer.Valid()
    modifies buffer.Repr()
    ensures buffer.Valid() && fresh(buffer.Repr() - old(buffer.Repr()))
    ensures unit.None? <==> |bytes| >= MAX_LEN
    ensures unit.Some? ==> Delivers(unit.value, StringWords(bytes), old(buffer.View()), buffer.View())
    ensures unit.Some? ==> (unit.value.IsSegment() <==> |StringWords(bytes)| > 1)
  {
    hide Buffer.View;
    if |bytes| >= MAX_LEN {
      return None;
    }
    var header := WriteVarint(4 * |bytes|);
    var raw := header + bytes;
    assert raw == StringRaw(bytes);
    var totalWords := WordSize(|raw|);
    if totalWords == 1 {
      return Some(InlineUnit(Pack(raw)));
    }
    var last := buffer.Len();
    buffer.PutWords(Pack(raw));
    return Some(SegmentUnit(last, buffer.Len()));
  }
}
