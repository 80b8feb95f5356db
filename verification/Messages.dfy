/** Messages: 2-bit field widths packed in the header, then the body cells of present fields in
    order. The first 12 widths sit in the head word, every further 25 in a 64-bit section word
    that also carries, in 14 bits, the number of cells before the section. */
module Messages {
  import opened Bits
  import opened Wrappers
  import opened Cells
  import opened Buffers
  import opened Views

  const MAX_SIZE: nat := 0x4000_0000
  const COUNT_LIMIT: nat := 0x4000

  // ----- the encoding

  function Width(unit: Unit): (w: nat)
    requires unit.Valid()
    ensures w <= 3
  {
    if unit.inlineWords != [] then |unit.inlineWords| else if unit.segment.len != 0 then 1 else 0
  }

  predicate AllValid(fields: seq<Unit>) {
    forall i :: 0 <= i < |fields| ==> fields[i].Valid()
  }

  function BodySize(fields: seq<Unit>): (n: nat)
    requires AllValid(fields)
    ensures n <= 3 * |fields|
  {
    if fields == [] then 0 else Width(fields[0]) + BodySize(fields[1..])
  }

  /** Inline words and segment words, the quantity checked against 2^30. */
  function DataSize(fields: seq<Unit>): nat {
    if fields == [] then 0 else fields[0].Size() + DataSize(fields[1..])
  }

  function PackWidths(fields: seq<Unit>): (v: nat)
    requires AllValid(fields)
  {
    if fields == [] then 0 else Width(fields[0]) + 4 * PackWidths(fields[1..])
  }

  /** All referenced segments lie behind the body. */
  predicate Behind(fields: seq<Unit>, base: nat) {
    forall i :: 0 <= i < |fields| && fields[i].IsSegment() ==> fields[i].segment.pos <= base
  }

  /** The cell of a field whose cell starts `pos` words before the end of the buffer. */
  function FieldCell(unit: Unit, pos: nat): (cell: seq<u32>)
    requires unit.Valid() && (unit.IsSegment() ==> unit.segment.pos <= pos)
    ensures |cell| == Width(unit)
  {
    if unit.inlineWords != [] then unit.inlineWords
    else if unit.segment.len != 0 then [Offset(pos - unit.segment.pos)] else []
  }

  function MessageBody(fields: seq<Unit>, base: nat): (body: seq<u32>)
    requires AllValid(fields) && Behind(fields, base)
    ensures |body| == BodySize(fields)
  {
    if fields == [] then [] else FieldCell(fields[0], base + BodySize(fields)) + MessageBody(fields[1..], base)
  }

  function Sections(n: nat): nat {
    (n + 12) / 25
  }

  function Start(sec: nat): nat {
    12 + sec * 25
  }

  function Min(a: nat, b: nat): nat {
    if a <= b then a else b
  }

  /** The 64-bit word of a section; the cell count is shifted by 50 and loses its upper bits. */
  function Mark(fields: seq<Unit>, sec: nat): (mark: nat)
    requires AllValid(fields) && Start(sec) <= |fields|
    ensures mark < TWO64
  {
    var low := fields[Start(sec)..Min(Start(sec) + 25, |fields|)];
    PackBound(low);
    Pow4Values();
    PackMonotone(low, 25);
    PackWidths(low) + 0x4_0000_0000_0000 * (BodySize(fields[..Start(sec)]) % COUNT_LIMIT)
  }

  lemma {:induction false} PackBound(fields: seq<Unit>)
    requires AllValid(fields)
    ensures PackWidths(fields) < Pow4(|fields|)
  {
    if fields != [] { PackBound(fields[1..]); }
  }

  lemma PackMonotone(fields: seq<Unit>, k: nat)
    requires |fields| <= k
    ensures Pow4(|fields|) <= Pow4(k)
  {
    Pow4Add(|fields|, k - |fields|);
    var p, q := Pow4(|fields|), Pow4(k - |fields|);
    assert p * 1 <= p * q;
  }

  function SectionWords(fields: seq<Unit>, sec: nat, count: nat): (words: seq<u32>)
    requires AllValid(fields) && sec <= count && (sec < count ==> Start(count - 1) <= |fields|)
    ensures |words| == 2 * (count - sec)
    decreases count - sec
  {
    if sec == count then []
    else
      assert Start(sec) <= Start(count - 1);
      var mark := Mark(fields, sec);
      [mark % TWO32, mark / TWO32] + SectionWords(fields, sec + 1, count)
  }

  function Head(fields: seq<Unit>): (head: u32)
    requires AllValid(fields) && Sections(|fields|) <= 0xff
  {
    var low := fields[..Min(12, |fields|)];
    PackBound(low);
    PackMonotone(low, 12);
    Pow4Values();
    Sections(|fields|) + 0x100 * PackWidths(low)
  }

  function MessageHeader(fields: seq<Unit>): (words: seq<u32>)
    requires AllValid(fields) && Sections(|fields|) <= 0xff
    ensures |words| == 1 + 2 * Sections(|fields|)
  {
    [Head(fields)] + SectionWords(fields, 0, Sections(|fields|))
  }

  /** Header and body of a message put in front of `base` words. */
  function MessageWords(fields: seq<Unit>, base: nat): (words: seq<u32>)
    requires AllValid(fields) && Sections(|fields|) <= 0xff && Behind(fields, base)
    ensures |words| == 1 + 2 * Sections(|fields|) + BodySize(fields)
  {
    MessageHeader(fields) + MessageBody(fields, base)
  }

  // ----- reading the header back

  lemma {:induction false} PackDigit(fields: seq<Unit>, i: nat)
    requires AllValid(fields)
    ensures Digit(PackWidths(fields), i) == if i < |fields| then Width(fields[i]) else 0
    decreases i
  {
    if fields == [] {
      ZeroDigit(i);
    } else if i > 0 {
      PackDigit(fields[1..], i - 1);
      assert PackWidths(fields) / 4 == PackWidths(fields[1..]);
    }
  }

  lemma {:induction false} ZeroDigit(i: nat)
    ensures Digit(0, i) == 0
    decreases i
  {
    if i > 0 { ZeroDigit(i - 1); }
  }

  lemma {:induction false} PackSum(fields: seq<Unit>, n: nat)
    requires AllValid(fields) && n <= |fields|
    ensures DigitSum(PackWidths(fields), n) == BodySize(fields[..n])
    decreases n
  {
    if n > 0 {
      PackSum(fields[1..], n - 1);
      assert PackWidths(fields) / 4 == PackWidths(fields[1..]) && PackWidths(fields) % 4 == Width(fields[0]);
      assert fields[..n][1..] == fields[1..][..n - 1];
    }
  }

  lemma {:induction false} BodySplit(fields: seq<Unit>, k: nat)
    requires AllValid(fields) && k <= |fields|
    ensures BodySize(fields) == BodySize(fields[..k]) + BodySize(fields[k..])
  {
    if k > 0 {
      BodySplit(fields[1..], k - 1);
      assert fields[..k][1..] == fields[1..][..k - 1] && fields[1..][k - 1..] == fields[k..];
    } else {
      assert fields[0..] == fields;
    }
  }

  lemma SectionWordAt(fields: seq<Unit>, sec: nat, count: nat, k: nat)
    requires AllValid(fields) && sec <= k < count && Start(count - 1) <= |fields|
    ensures Start(k) <= |fields|
    ensures var words := SectionWords(fields, sec, count);
            words[2 * (k - sec)] + TWO32 * words[2 * (k - sec) + 1] == Mark(fields, k)
    decreases k - sec
  {
    hide Mark;
    assert Start(k) <= Start(count - 1);
    assert Start(sec) <= Start(count - 1);
    if k > sec { SectionWordAt(fields, sec + 1, count, k); }
  }

  /** A field id the message can carry. */
  ghost predicate Encodable(fields: seq<Unit>, base: nat) {
    AllValid(fields) && fields != [] && Sections(|fields|) <= 0xff && Behind(fields, base)
  }

  /** Body position the reader computes for field `id`. */
  function ReadOffset(fields: seq<Unit>, id: nat): nat
    requires AllValid(fields) && id < |fields|
  {
    if id < 12 then BodySize(fields[..id])
    else
      var start := Start((id - 12) / 25);
      BodySize(fields[start..id]) + BodySize(fields[..start]) % COUNT_LIMIT
  }

  lemma HeadWidths(fields: seq<Unit>)
    requires AllValid(fields) && Sections(|fields|) <= 0xff
    ensures Head(fields) / 0x100 == PackWidths(fields[..Min(12, |fields|)])
  {
    hide PackWidths;
  }

  lemma Count32Below(v: nat, id: nat)
    requires v < Pow4(16) && id <= 16
    ensures Count32(And(v, Pow2(id * 2) - 1)) == DigitSum(v, id)
  {
    hide And, PopCount, Digit, DigitSum, Pow4, Pow2, MaskA;
    Pow4Pow2(id);
    MaskValues();
    CountBelow(v, id, 16);
  }

  lemma LowCount(fields: seq<Unit>, low: seq<Unit>, id: nat)
    requires AllValid(fields) && low == fields[..Min(12, |fields|)] && id < |low|
    ensures Count32(And(PackWidths(low), Pow2(id * 2) - 1)) == BodySize(fields[..id])
  {
    hide And, Count32, DigitSum, Pow4, Pow2, PackWidths, BodySize;
    PackBound(low);
    PackMonotone(low, 16);
    Count32Below(PackWidths(low), id);
    PackSum(low, id);
    assert low[..id] == fields[..id];
  }

  lemma LowSlot(fields: seq<Unit>, words: seq<u32>, id: nat)
    requires AllValid(fields) && Sections(|fields|) <= 0xff && IsMessage(words) && words[0] == Head(fields) && id < 12
    ensures FieldSlot(words, id) ==
            if id < |fields| && Width(fields[id]) != 0 then Some((BodySize(fields[..id]), Width(fields[id]))) else None
  {
    hide And, Count32, Digit, DigitSum, Pow4, Pow2, PackWidths, Shr, BodySize, Head, Sections;
    var n := Min(12, |fields|);
    var low := fields[..n];
    var v := words[0] / 0x100;
    HeadWidths(fields);
    PackBound(low);
    PackMonotone(low, 16);
    DigitIsShift(v, id);
    PackDigit(low, id);
    if id < n { LowCount(fields, low, id); }
  }

  lemma SliceOfSlice<T>(s: seq<T>, a: nat, b: nat, k: nat)
    requires a <= b <= |s| && k <= b - a
    ensures s[a..b][..k] == s[a..a + k]
  {
  }

  lemma MarkParts(fields: seq<Unit>, sec: nat, bit: nat)
    requires AllValid(fields) && Start(sec) <= |fields| && bit < 25
    ensures Digit(Mark(fields, sec), bit) == if Start(sec) + bit < |fields| then Width(fields[Start(sec) + bit]) else 0
    ensures Start(sec) + bit <= |fields| ==>
              DigitSum(Mark(fields, sec), bit) == BodySize(fields[Start(sec)..Start(sec) + bit])
    ensures Shr(Mark(fields, sec), 50) == BodySize(fields[..Start(sec)]) % COUNT_LIMIT
  {
    hide Digit, DigitSum, Pow4, Pow2, PackWidths, BodySize, Shl, Shr;
    var low := fields[Start(sec)..Min(Start(sec) + 25, |fields|)];
    var x, c := PackWidths(low), BodySize(fields[..Start(sec)]) % COUNT_LIMIT;
    PackBound(low);
    PackMonotone(low, 25);
    Pow4Values();
    Pow4Pow2(25);
    DigitSplit(x, c, 25, bit);
    PackDigit(low, bit);
    ShlIs(c, 50);
    ShrHigh(x, c, 50);
    if bit <= |low| {
      SumBelow(x, c, bit);
      PackSum(low, bit);
      SliceOfSlice(fields, Start(sec), Min(Start(sec) + 25, |fields|), bit);
    }
  }

  lemma SumBelow(x: nat, c: nat, bit: nat)
    requires bit <= 25
    ensures DigitSum(x + Pow4(25) * c, bit) == DigitSum(x, bit)
  {
    hide DigitSum, Pow4;
    Pow4Add(bit, 25 - bit);
    MulAssoc(Pow4(bit), Pow4(25 - bit), c);
    DigitSumLow(x, Pow4(25 - bit) * c, bit);
  }

  lemma MulAssoc(p: nat, q: nat, c: nat)
    ensures (p * q) * c == p * (q * c)
  {
  }

  lemma SectionsFit(n: nat)
    ensures Sections(n) > 0 ==> Start(Sections(n) - 1) <= n
    ensures n <= Start(Sections(n))
  {
  }

  /** The section word of a stored section reads back as written. */
  lemma SectionRead(fields: seq<Unit>, words: seq<u32>, sec: nat, count: nat)
    requires AllValid(fields) && sec < count && Start(count - 1) <= |fields| && 1 + 2 * count <= |words|
    requires words[1..1 + 2 * count] == SectionWords(fields, 0, count)
    ensures Start(sec) <= |fields| && WordAt64(words, 1 + sec * 2) == Mark(fields, sec)
  {
    hide Mark, SectionWords;
    SectionWordAt(fields, 0, count, sec);
    assert words[1 + sec * 2] == words[1..1 + 2 * count][2 * sec];
    assert words[2 + sec * 2] == words[1..1 + 2 * count][2 * sec + 1];
  }

  /** Width and popcount position of digit `bit` of a section word. */
  lemma SlotOfMark(vec: nat, bit: nat)
    requires vec < TWO64 && bit <= 25
    ensures Shr(vec, bit * 2) % 4 == Digit(vec, bit)
    ensures Count64(And(vec, Pow2(bit * 2) - 1)) == DigitSum(vec, bit)
  {
    hide And, PopCount, Digit, DigitSum, Pow4, Pow2, Shr, MaskA;
    DigitIsShift(vec, bit);
    Pow4Pow2(bit);
    Pow4Values();
    MaskValues();
    CountBelow(vec, bit, 32);
  }

  lemma HighSlot(fields: seq<Unit>, words: seq<u32>, id: nat, sec: nat, bit: nat, count: nat)
    requires AllValid(fields) && bit < 25 && count == Sections(|fields|) <= 0xff && IsMessage(words)
    requires words[0] % 0x100 == count && words[1..1 + 2 * count] == SectionWords(fields, 0, count)
    requires id == Start(sec) + bit
    ensures FieldSlot(words, id) ==
            if id < |fields| && Width(fields[id]) != 0 then Some((ReadOffset(fields, id), Width(fields[id]))) else None
  {
    hide And, Count64, Digit, DigitSum, Pow2, PackWidths, Shr, BodySize, Mark, SectionWords;
    assert (id - 12) / 25 == sec && (id - 12) % 25 == bit;
    SectionsFit(|fields|);
    if sec < count {
      SectionRead(fields, words, sec, count);
      MarkParts(fields, sec, bit);
      SlotOfMark(Mark(fields, sec), bit);
    } else {
      assert Start(count) <= Start(sec);
    }
  }

  /** Every field id of an encoded message: present with its width at the position the counts say,
      or absent. */
  lemma SlotOf(fields: seq<Unit>, base: nat, rest: seq<u32>, id: nat)
    requires Encodable(fields, base)
    ensures IsMessage(MessageWords(fields, base) + rest)
    ensures BodyOffset((MessageWords(fields, base) + rest)[0]) == 1 + 2 * Sections(|fields|)
    ensures FieldSlot(MessageWords(fields, base) + rest, id) ==
            if id < |fields| && Width(fields[id]) != 0 then Some((ReadOffset(fields, id), Width(fields[id]))) else None
  {
    hide FieldSlot, SectionWords, MessageBody, PackWidths, BodySize;
    var words, count := MessageWords(fields, base) + rest, Sections(|fields|);
    var header := MessageHeader(fields);
    assert words == header + (MessageBody(fields, base) + rest);
    assert words[0] == header[0] == Head(fields);
    assert words[1..1 + 2 * count] == header[1..] == SectionWords(fields, 0, count);
    if id < 12 {
      LowSlot(fields, words, id);
    } else {
      var k := id - 12;
      HighSlot(fields, words, id, k / 25, k % 25, count);
    }
  }

  // ----- reading the body back

  lemma DropFirst(first: seq<u32>, rest: seq<u32>, b: nat)
    requires b <= |rest|
    ensures (first + rest)[|first| + b..] == rest[b..]
  {
  }

  lemma BodyStep(fields: seq<Unit>, base: nat, k: nat)
    requires AllValid(fields) && Behind(fields, base) && 1 <= k <= |fields|
    ensures BodySize(fields[..k]) == Width(fields[0]) + BodySize(fields[1..][..k - 1])
    ensures MessageBody(fields, base) == FieldCell(fields[0], base + BodySize(fields)) + MessageBody(fields[1..], base)
    ensures fields[1..][k - 1..] == fields[k..]
  {
    assert fields[..k][1..] == fields[1..][..k - 1];
  }

  lemma NoCells(fields: seq<Unit>)
    ensures AllValid(fields[..0]) && BodySize(fields[..0]) == 0 && fields[0..] == fields
  {
    assert fields[..0] == [];
  }

  lemma {:induction false} BodyTail(fields: seq<Unit>, base: nat, k: nat)
    requires AllValid(fields) && Behind(fields, base) && k <= |fields|
    ensures BodySize(fields[..k]) <= BodySize(fields)
    ensures MessageBody(fields, base)[BodySize(fields[..k])..] == MessageBody(fields[k..], base)
    decreases k
  {
    hide FieldCell, MessageBody, BodySize;
    BodySplit(fields, k);
    if k == 0 {
      NoCells(fields);
      assert MessageBody(fields, base)[0..] == MessageBody(fields, base);
    } else {
      BodyTail(fields[1..], base, k - 1);
      BodyStep(fields, base, k);
      DropFirst(FieldCell(fields[0], base + BodySize(fields)), MessageBody(fields[1..], base),
                BodySize(fields[1..][..k - 1]));
    }
  }

  lemma CellAt(fields: seq<Unit>, base: nat, k: nat)
    requires AllValid(fields) && Behind(fields, base) && k < |fields|
    ensures BodySize(fields[..k]) + Width(fields[k]) <= BodySize(fields)
    ensures MessageBody(fields, base)[BodySize(fields[..k])..][..Width(fields[k])]
        == FieldCell(fields[k], base + BodySize(fields[k..]))
  {
    hide FieldCell;
    BodyTail(fields, base, k);
    BodySplit(fields, k);
    assert fields[k..][0] == fields[k];
  }

  /** What reading a present field must show: its inline words, or a pointer to its segment. */
  ghost predicate ShowsField(field: FieldView, unit: Unit, words: seq<u32>) {
    if unit.inlineWords != [] then
      field.width == |words| <= |field.tail| && field.tail[..field.width] == words
    else
      && field.width == 1 && field.tail != [] && field.tail[0] % 4 == 3
      && field.tail[0] / 4 + |words| <= |field.tail|
      && field.tail[field.tail[0] / 4..][..|words|] == words
  }

  /** The 14-bit count in front of the field's section did not overflow. */
  predicate CountFits(fields: seq<Unit>, id: nat)
    requires AllValid(fields) && id < |fields|
  {
    id >= 12 ==> BodySize(fields[..Start((id - 12) / 25)]) < COUNT_LIMIT
  }

  /** The reader's position of a field is the writer's exactly when the section count fits. */
  lemma OffsetExact(fields: seq<Unit>, id: nat)
    requires AllValid(fields) && id < |fields|
    ensures ReadOffset(fields, id) == BodySize(fields[..id]) <==> CountFits(fields, id)
    ensures ReadOffset(fields, id) <= BodySize(fields[..id])
  {
    hide BodySize;
    if id >= 12 {
      var start := Start((id - 12) / 25);
      BodySplit(fields[..id], start);
      assert fields[..id][..start] == fields[..start] && fields[..id][start..] == fields[start..id];
    }
  }

  /** Segments a 30-bit offset can reach from the message. */
  ghost predicate InReach(fields: seq<Unit>, base: nat)
    requires AllValid(fields)
  {
    forall i :: 0 <= i < |fields| && fields[i].IsSegment() ==>
                  Inside(fields[i].segment, base) && base + BodySize(fields[i..]) - fields[i].segment.pos < MAX_SIZE
  }

  /** Reading a present field leads to its cell, whatever words lie behind the message. */
  lemma FieldReads(fields: seq<Unit>, base: nat, rest: seq<u32>, id: nat)
    requires Encodable(fields, base) && id < |fields| && !fields[id].IsEmpty() && CountFits(fields, id)
    ensures var field, d := FieldIn(MessageWords(fields, base) + rest, id), BodySize(fields[id..]);
            && field.Some? && field.value.width == Width(fields[id]) <= d
            && |field.value.tail| == d + |rest| && field.value.tail[d..] == rest
            && field.value.tail[..field.value.width] == FieldCell(fields[id], base + d)
  {
    hide FieldSlot, BodyOffset, IsMessage, MessageHeader, MessageBody, BodySize, ReadOffset, Offset, FieldCell;
    var words := MessageWords(fields, base) + rest;
    SlotOf(fields, base, rest, id);
    OffsetExact(fields, id);
    CellAt(fields, base, id);
    BodySplit(fields, id);
    var header, body, off := MessageHeader(fields), MessageBody(fields, base), BodySize(fields[..id]);
    var tail := words[|header| + off..];
    assert tail == body[off..] + rest;
    assert tail[..Width(fields[id])] == body[off..][..Width(fields[id])];
  }

  /** A field is present exactly when it has a unit, whatever the counts. */
  lemma FieldPresent(fields: seq<Unit>, base: nat, rest: seq<u32>, id: nat)
    requires Encodable(fields, base)
    ensures FieldIn(MessageWords(fields, base) + rest, id).Some? <==> id < |fields| && !fields[id].IsEmpty()
  {
    hide FieldSlot, BodyOffset, IsMessage, MessageHeader, MessageBody, ReadOffset, BodySize;
    SlotOf(fields, base, rest, id);
    if id < |fields| {
      OffsetExact(fields, id);
      BodySplit(fields, id);
    }
  }

  /** Ids without a unit, or past the last unit, read as absent. */
  lemma FieldAbsent(fields: seq<Unit>, base: nat, rest: seq<u32>, id: nat)
    requires Encodable(fields, base) && (id < |fields| ==> fields[id].IsEmpty())
    ensures FieldIn(MessageWords(fields, base) + rest, id).None?
  {
    hide FieldSlot, BodyOffset, IsMessage, MessageWords, ReadOffset;
    SlotOf(fields, base, rest, id);
  }

  lemma PointerShows(unit: Unit, view: seq<u32>, tail: seq<u32>, d: nat)
    requires unit.IsSegment() && Inside(unit.segment, |view|) && d < MAX_SIZE
    requires |tail| >= |view| && tail[|tail| - |view|..] == view && d == |tail| - unit.segment.pos
    requires tail != [] && tail[0] == Offset(d)
    ensures ShowsField(FieldView(tail, 1), unit, SegmentWords(unit.segment, view))
  {
    OffsetReads(d);
    var seg := unit.segment;
    assert tail[d..] == tail[|tail| - |view|..][|view| - seg.pos..];
    assert tail[d..][..seg.len] == view[|view| - seg.pos..][..seg.len];
  }

  /** Round trip of one field. Ids without a unit, or past the last unit, read as absent. */
  lemma FieldRoundTrip(fields: seq<Unit>, view: seq<u32>, id: nat)
    requires Encodable(fields, |view|) && InReach(fields, |view|)
    ensures id >= |fields| || fields[id].IsEmpty() ==> FieldIn(MessageWords(fields, |view|) + view, id).None?
    ensures id < |fields| && !fields[id].IsEmpty() && CountFits(fields, id) ==>
              var field := FieldIn(MessageWords(fields, |view|) + view, id);
              field.Some? && ShowsField(field.value, fields[id], UnitWords(fields[id], view))
  {
    hide FieldIn, MessageWords, BodySize, ReadOffset, Offset;
    if id >= |fields| || fields[id].IsEmpty() {
      FieldAbsent(fields, |view|, view, id);
    } else if CountFits(fields, id) {
      FieldReads(fields, |view|, view, id);
      var field := FieldIn(MessageWords(fields, |view|) + view, id).value;
      if fields[id].inlineWords == [] {
        assert field.tail[0] == field.tail[..1][0];
        PointerShows(fields[id], view, field.tail, |field.tail| - fields[id].segment.pos);
      }
    }
  }

  /** The reader looks at the cell the writer filled exactly when the section count fits. */
  lemma FieldFoundIff(fields: seq<Unit>, view: seq<u32>, id: nat)
    requires Encodable(fields, |view|) && id < |fields| && !fields[id].IsEmpty()
    ensures var words, at := MessageWords(fields, |view|) + view, 1 + 2 * Sections(|fields|) + BodySize(fields[..id]);
            at <= |words| && (FieldIn(words, id) == Some(FieldView(words[at..], Width(fields[id]))) <==>
                CountFits(fields, id))
  {
    hide FieldSlot, BodyOffset, IsMessage, MessageHeader, MessageBody, BodySize, ReadOffset, Offset;
    SlotOf(fields, |view|, view, id);
    OffsetExact(fields, id);
    BodySplit(fields, id);
    var words := MessageWords(fields, |view|) + view;
    var head, at, read := 1 + 2 * Sections(|fields|), BodySize(fields[..id]), ReadOffset(fields, id);
    assert |words[head + at..]| == |words| - head - at && |words[head + read..]| == |words| - head - read;
  }

  lemma {:induction false} FullBody(n: nat, word: u32)
    ensures AllValid(seq(n, _ => InlineUnit([word, 0, 0])))
    ensures BodySize(seq(n, _ => InlineUnit([word, 0, 0]))) == 3 * n
  {
    var fields := seq(n, _ => InlineUnit([word, 0, 0]));
    if n > 0 {
      FullBody(n - 1, word);
      assert fields[1..] == seq(n - 1, _ => InlineUnit([word, 0, 0]));
      assert Width(fields[0]) == 3;
    }
  }

  const SAFE_FIELDS: nat := 5462

  /** The counts of every message with n fields fit exactly when n <= 5462. Beyond that, a message
      of three-word fields reads its field 5462 from the wrong cell. */
  lemma CountLimitIsSharp(n: nat)
    ensures n <= SAFE_FIELDS <==> forall fields: seq<Unit>, id: nat :: |fields| == n && id < n && AllValid(fields) ==>
        CountFits(fields, id)
  {
    hide BodySize;
    if n <= SAFE_FIELDS {
      forall fields: seq<Unit>, id: nat | |fields| == n && id < n && AllValid(fields) ensures CountFits(fields, id) {
        if id >= 12 { assert BodySize(fields[..Start((id - 12) / 25)]) <= 3 * Start((id - 12) / 25); }
      }
    } else {
      var fields := seq(n, _ => InlineUnit([1, 0, 0]));
      FullBody(n, 1);
      FullBody(SAFE_FIELDS, 1);
      assert Start((SAFE_FIELDS - 12) / 25) == SAFE_FIELDS;
      assert fields[..SAFE_FIELDS] == seq(SAFE_FIELDS, _ => InlineUnit([1, 0, 0]));
      assert !CountFits(fields, SAFE_FIELDS);
    }
  }

  // ----- the inline extent

  lemma DigitSumShifted(v: nat)
    requires v < TWO64
    ensures Count64(v * 0x4000 % TWO64) == DigitSum(v, 25)
  {
    hide And, PopCount, DigitSum;
    Pow4Values();
    MaskValues();
    var x, c := v % Pow4(25), v / Pow4(25);
    DivUnique(v * 0x4000, TWO64, c, x * 0x4000);
    OnesAreDigitSum(x * 0x4000, 32);
    assert Pow4(3) == 0x40;
    Pow4Add(4, 3);
    ZeroDigits(x, 25, 7);
    assert v == x + Pow4(25) * c;
    DigitSumLow(x, c, 25);
  }

  /** Zero digits in front add nothing. */
  lemma {:induction false} ZeroDigits(x: nat, k: nat, n: nat)
    ensures DigitSum(x * Pow4(n), k + n) == DigitSum(x, k)
    decreases n
  {
    if n > 0 {
      hide DigitSum, Digit;
      ZeroDigits(x, k, n - 1);
      MulAssoc(4, x, Pow4(n - 1));
      MulAssoc(x, 4, Pow4(n - 1));
      LowestZero(x * Pow4(n - 1), k + n - 1);
    }
  }

  lemma LowestZero(y: nat, n: nat)
    ensures DigitSum(4 * y, n + 1) == DigitSum(y, n)
  {
    assert 4 * y % 4 == 0 && 4 * y / 4 == y;
  }

  lemma HeadCount(fields: seq<Unit>)
    requires AllValid(fields) && Sections(|fields|) == 0
    ensures Count32(Head(fields)) == BodySize(fields)
  {
    hide And, PopCount, DigitSum, PackWidths, MaskA, BodySize;
    var v := PackWidths(fields);
    assert fields[..|fields|] == fields;
    PackBound(fields);
    PackMonotone(fields, 12);
    Pow4Values();
    MaskValues();
    OnesAreDigitSum(Head(fields), 16);
    ZeroDigits(v, 12, 4);
    assert Head(fields) == v * Pow4(4);
    PackSum(fields, |fields|);
    DigitSumTop(v, |fields|, 12);
  }

  lemma LastSectionCount(fields: seq<Unit>, sec: nat)
    requires AllValid(fields) && Start(sec) <= |fields| <= Start(sec) + 25
    ensures DigitSum(Mark(fields, sec), 25) == BodySize(fields[Start(sec)..])
    ensures Shr(Mark(fields, sec), 50) == BodySize(fields[..Start(sec)]) % COUNT_LIMIT
  {
    hide Digit, DigitSum, Pow4, Pow2, PackWidths, BodySize;
    var low := fields[Start(sec)..];
    assert low == fields[Start(sec)..Min(Start(sec) + 25, |fields|)];
    var x, c := PackWidths(low), BodySize(fields[..Start(sec)]) % COUNT_LIMIT;
    MarkParts(fields, sec, 0);
    PackBound(low);
    Pow4Values();
    DigitSumLow(x, c, 25);
    DigitSumTop(x, |low|, 25) by { PackMonotone(low, 25); }
    PackSum(low, |low|);
    assert low[..|low|] == low;
  }

  lemma HeaderFront(fields: seq<Unit>, base: nat, rest: seq<u32>)
    requires Encodable(fields, base)
    ensures var words, count := MessageWords(fields, base) + rest, Sections(|fields|);
            && |words| >= 1 + 2 * count + BodySize(fields) && words[0] == Head(fields)
            && words[1..1 + 2 * count] == SectionWords(fields, 0, count)
  {
    hide SectionWords, MessageBody, BodySize, Head;
    var words, header := MessageWords(fields, base) + rest, MessageHeader(fields);
    assert words == header + (MessageBody(fields, base) + rest);
    assert words[0] == header[0] == Head(fields);
    assert words[1..1 + 2 * Sections(|fields|)] == header[1..];
  }

  lemma HeadExtent(fields: seq<Unit>, words: seq<u32>)
    requires AllValid(fields) && Sections(|fields|) == 0
    requires |words| >= 1 + BodySize(fields) && words[0] == Head(fields)
    ensures MessageLen(words) == Some(1 + BodySize(fields))
  {
    hide Count32, BodySize, Head;
    HeadSections(fields);
    HeadCount(fields);
  }

  /** What the reader adds up when there are sections: the last section word holds both counts. */
  lemma LastMark(words: seq<u32>, count: nat, mark: nat)
    requires 0 < count <= 0xff && 1 + 2 * count <= |words| && words[0] % 0x100 == count
    requires WordAt64(words, 1 + (count - 1) * 2) == mark
    ensures var tail := 1 + 2 * count + Count64(mark * 0x4000 % TWO64) + Shr(mark, 50);
            MessageLen(words) == if tail <= |words| then Some(tail) else None
  {
    hide Count64, Shr, Count32, WordAt64;
  }

  lemma SectionExtent(fields: seq<Unit>, words: seq<u32>, count: nat)
    requires AllValid(fields) && 0 < count <= 0xff && Start(count - 1) <= |fields| <= Start(count)
    requires |words| >= 1 + 2 * count + BodySize(fields) && words[0] % 0x100 == count
    requires words[1..1 + 2 * count] == SectionWords(fields, 0, count)
    ensures (MessageLen(words) == Some(1 + 2 * count + BodySize(fields)))
              <==> (BodySize(fields[..Start(count - 1)]) < COUNT_LIMIT)
  {
    hide Count64, SectionWords, BodySize, Mark, Shr, DigitSum, MessageLen, WordAt64;
    SectionRead(fields, words, count - 1, count);
    LastMark(words, count, Mark(fields, count - 1));
    DigitSumShifted(Mark(fields, count - 1));
    LastSectionCount(fields, count - 1);
    BodySplit(fields, Start(count - 1));
  }

  /** Header plus body, unless the count of the last section overflowed. */
  lemma ExtentExact(fields: seq<Unit>, base: nat, rest: seq<u32>)
    requires Encodable(fields, base)
    ensures (MessageLen(MessageWords(fields, base) + rest) == Some(|MessageWords(fields, base)|))
              <==> (Sections(|fields|) > 0 ==> BodySize(fields[..Start(Sections(|fields|) - 1)]) < COUNT_LIMIT)
  {
    hide Count32, MessageWords, BodySize, Head, MessageLen;
    var words := MessageWords(fields, base) + rest;
    HeaderFront(fields, base, rest);
    if Sections(|fields|) == 0 {
      HeadExtent(fields, words);
    } else {
      HeadSections(fields);
      SectionsFit(|fields|);
      SectionExtent(fields, words, Sections(|fields|));
    }
  }

  lemma HeadSections(fields: seq<Unit>)
    requires AllValid(fields) && Sections(|fields|) <= 0xff
    ensures Head(fields) % 0x100 == Sections(|fields|)
  {
  }
}
