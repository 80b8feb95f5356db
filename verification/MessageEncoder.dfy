/** serialize_message_at: the imperative encoder, against the layout of `Messages`. */
module MessageEncoder {
  import opened Bits
  import opened Wrappers
  import opened Cells
  import opened Buffers
  import opened Messages

  /** The fields up to the last nonempty one. */
  ghost function Used(fields: seq<Unit>): (used: seq<Unit>)
    ensures used <= fields
    ensures forall i :: |used| <= i < |fields| ==> fields[i].IsEmpty()
    ensures used != [] ==> !used[|used| - 1].IsEmpty()
  {
    if fields == [] then []
    else if !fields[|fields| - 1].IsEmpty() then fields
    else Used(fields[..|fields| - 1])
  }

  method UsedLen(fields: seq<Unit>) returns (n: nat)
    ensures n == |Used(fields)| <= |fields|
  {
    n := |fields|;
    assert fields[..n] == fields;
    while n > 0 && fields[n - 1].IsEmpty()
      invariant n <= |fields| && Used(fields[..n]) == Used(fields)
    {
      assert fields[..n][..n - 1] == fields[..n - 1];
      n := n - 1;
    }
    if n > 0 { assert fields[..n][n - 1] == fields[n - 1]; }
  }

  lemma FourTimes(w: nat, p: nat)
    ensures w * (4 * p) == 4 * (w * p)
  {
  }

  lemma {:induction false} PackAppend(fields: seq<Unit>, i: nat)
    requires AllValid(fields) && i < |fields|
    ensures PackWidths(fields[..i + 1]) == PackWidths(fields[..i]) + Width(fields[i]) * Pow4(i)
    decreases i
  {
    hide Width;
    if i == 0 {
      assert fields[..1][1..] == [];
    } else {
      PackAppend(fields[1..], i - 1);
      assert fields[..i + 1][1..] == fields[1..][..i] && fields[..i][1..] == fields[1..][..i - 1];
      FourTimes(Width(fields[i]), Pow4(i - 1));
    }
  }

  lemma BodyAppend(fields: seq<Unit>, i: nat)
    requires AllValid(fields) && i < |fields|
    ensures BodySize(fields[..i + 1]) == BodySize(fields[..i]) + Width(fields[i])
    ensures BodySize(fields[i..]) == Width(fields[i]) + BodySize(fields[i + 1..])
  {
    hide Width;
    BodySplit(fields[..i + 1], i);
    assert fields[..i + 1][..i] == fields[..i] && fields[..i + 1][i..] == [fields[i]];
    assert [fields[i]][1..] == [];
    assert fields[i..][1..] == fields[i + 1..];
  }

  /** The body written so far, and where the next cell starts. */
  ghost predicate Written(fields: seq<Unit>, base: nat, i: nat, body: seq<u32>, pos: int, cnt: nat) {
    && AllValid(fields) && Behind(fields, base) && i <= |fields|
    && Behind(fields[i..], base)
    && MessageBody(fields, base) == body + MessageBody(fields[i..], base)
    && cnt == BodySize(fields[..i]) && pos == base + BodySize(fields[i..])
  }

  lemma WrittenStep(fields: seq<Unit>, base: nat, i: nat, body: seq<u32>, pos: nat, cnt: nat)
    requires i < |fields| && Written(fields, base, i, body, pos, cnt)
    ensures AllValid(fields) && fields[i].Valid() && (fields[i].IsSegment() ==> fields[i].segment.pos <= pos)
    ensures Written(fields, base, i + 1, body + FieldCell(fields[i], pos), pos - Width(fields[i]),
        cnt + Width(fields[i]))
  {
    hide Width, FieldCell, BodySize;
    BodyAppend(fields, i);
    WrittenCell(fields, base, i);
  }

  lemma WrittenCell(fields: seq<Unit>, base: nat, i: nat)
    requires AllValid(fields) && Behind(fields, base) && i < |fields|
    ensures AllValid(fields[i..]) && Behind(fields[i..], base) && AllValid(fields[i + 1..])
        && Behind(fields[i + 1..], base)
    ensures MessageBody(fields[i..], base)
        == FieldCell(fields[i], base + BodySize(fields[i..])) + MessageBody(fields[i + 1..], base)
  {
    assert fields[i..][1..] == fields[i + 1..];
  }

  /** Appends the cell of one field: its inline words, a pointer, or nothing. */
  method AppendCell(field: Unit, body: seq<u32>, pos: nat, cnt: nat) returns (body': seq<u32>, pos': int, cnt': nat)
    requires field.Valid() && (field.IsSegment() ==> field.segment.pos <= pos)
    ensures body' == body + FieldCell(field, pos) && pos' == pos - Width(field) && cnt' == cnt + Width(field)
  {
    body', pos', cnt' := body, pos, cnt;
    if field.inlineWords != [] {
      cnt' := cnt + |field.inlineWords|;
      body' := body + field.inlineWords;
      pos' := pos - |field.inlineWords|;
    } else if field.segment.len != 0 {
      cnt' := cnt + 1;
      body' := body + [Offset(pos - field.segment.pos)];
      pos' := pos - 1;
    }
  }

  lemma HeadStep(fields: seq<Unit>, i: nat, section: nat)
    requires AllValid(fields) && i < |fields| && section <= 0xff
    ensures Or(section + 0x100 * PackWidths(fields[..i]), Shl(Width(fields[i]), 8 + i * 2))
              == section + 0x100 * PackWidths(fields[..i + 1])
  {
    hide Or, Width, PackWidths, Shl, Pow4, Pow2;
    PackAppend(fields, i);
    PackBound(fields[..i]);
    Pow4Values();
    Pow4Add(4, i);
    Pow4Pow2(4 + i);
    ShlIs(Width(fields[i]), 8 + i * 2);
    OrShl(section + 0x100 * PackWidths(fields[..i]), Width(fields[i]), 8 + i * 2);
    TimesAByte(Width(fields[i]), Pow4(i));
  }

  lemma TimesAByte(w: nat, p: nat)
    ensures w * (0x100 * p) == 0x100 * (w * p)
  {
  }

  lemma DigitBelow(w: nat, j: nat, k: nat)
    requires w < 4 && j < k
    ensures w * Pow4(j) < Pow4(k) && Pow4(j) < Pow4(k)
  {
    Pow4Add(j + 1, k - j - 1);
    ScaleUp(w, Pow4(j), Pow4(k - j - 1));
  }

  lemma ScaleUp(w: nat, p: nat, q: nat)
    requires w < 4 && p >= 1 && q >= 1
    ensures w * p < 4 * p <= 4 * p * q
  {
  }

  lemma MarkStep(low: seq<Unit>, j: nat, count: nat)
    requires AllValid(low) && j < |low| <= 25
    ensures Or(PackWidths(low[..j]) + Shl(count, 50), Shl(Width(low[j]), j * 2))
              == PackWidths(low[..j + 1]) + Shl(count, 50)
  {
    hide Or, PackWidths, Pow2, Pow4, Width, Shl;
    PackAppend(low, j);
    PackBound(low[..j]);
    Pow4Pow2(j); Pow4Pow2(25);
    DigitBelow(Width(low[j]), j, 25);
    ShlIs(Width(low[j]), j * 2);
    ShlZero(50);
    OrSplit(PackWidths(low[..j]), count, Shl(Width(low[j]), j * 2), 0, 50);
    OrShl(PackWidths(low[..j]), Width(low[j]), j * 2);
    OrRightZero(count);
  }

  lemma OrRightZero(a: nat)
    ensures Or(a, 0) == a
  {
  }

  lemma ShiftedCount(cnt: nat)
    ensures Shl(cnt, 50) % TWO64 == Shl(cnt % COUNT_LIMIT, 50) == 0x4_0000_0000_0000 * (cnt % COUNT_LIMIT)
  {
    hide Pow2, Shl;
    Pow4Pow2(25);
    Pow4Values();
    ShlIs(cnt, 50);
    ShlIs(cnt % COUNT_LIMIT, 50);
    var q, r := cnt / COUNT_LIMIT, cnt % COUNT_LIMIT;
    DivUnique(cnt * 0x4_0000_0000_0000, TWO64, q, r * 0x4_0000_0000_0000);
  }

  method EncodeHead(fields: seq<Unit>, base: nat, section: nat) returns (head: u32, body: seq<u32>, pos: int, cnt: nat)
    requires AllValid(fields) && Behind(fields, base) && section == Sections(|fields|) <= 0xff
    ensures head == Head(fields)
    ensures Written(fields, base, Min(12, |fields|), body, pos, cnt)
  {
    hide Or, Shl, PackWidths, Width, FieldCell, Written, BodySize;
    var h: nat := section;
    body, pos, cnt := [], base + SumWidths(fields), 0;
    WrittenStart(fields, base);
    NoWidths(fields);
    for i := 0 to Min(12, |fields|)
      invariant h == section + 0x100 * PackWidths(fields[..i])
      invariant pos >= 0 && Written(fields, base, i, body, pos, cnt)
    {
      HeadStep(fields, i, section);
      WrittenStep(fields, base, i, body, pos, cnt);
      h := Or(h, Shl(Width(fields[i]), 8 + i * 2));
      body, pos, cnt := AppendCell(fields[i], body, pos, cnt);
      WrittenPos(fields, base, i + 1, body, pos, cnt);
    }
    HeadIs(fields);
    head := h;
  }

  lemma HeadIs(fields: seq<Unit>)
    requires AllValid(fields) && Sections(|fields|) <= 0xff
    ensures Head(fields) == Sections(|fields|) + 0x100 * PackWidths(fields[..Min(12, |fields|)])
  {
  }

  lemma WrittenPos(fields: seq<Unit>, base: nat, i: nat, body: seq<u32>, pos: int, cnt: nat)
    requires Written(fields, base, i, body, pos, cnt)
    ensures pos >= base
  {
  }

  lemma WrittenStart(fields: seq<Unit>, base: nat)
    requires AllValid(fields) && Behind(fields, base)
    ensures Written(fields, base, 0, [], base + BodySize(fields), 0)
  {
    assert fields[0..] == fields && fields[..0] == [];
  }

  lemma NoWidths(fields: seq<Unit>)
    ensures PackWidths(fields[..0]) == 0
  {
  }

  lemma NoFields(fields: seq<Unit>, start: nat)
    requires start <= |fields|
    ensures AllValid(fields[start..start]) && PackWidths(fields[start..start]) == 0
  {
    assert fields[start..start] == [];
  }

  function SumWidths(fields: seq<Unit>): (n: nat)
    requires AllValid(fields)
    ensures n == BodySize(fields)
  {
    BodySize(fields)
  }

  lemma ValidSlice(fields: seq<Unit>, start: nat, end: nat)
    requires AllValid(fields) && start <= end <= |fields|
    ensures AllValid(fields[start..end])
  {
  }

  /** One field of a section: its width goes to `mark`, its cell to the body. */
  method EncodeField(fields: seq<Unit>, base: nat, start: nat, i: nat, mark: nat, ghost count: nat,
                     body: seq<u32>, pos: nat, cnt: nat)
    returns (mark': nat, body': seq<u32>, pos': nat, cnt': nat)
    requires AllValid(fields) && start <= i < |fields| && i - start < 25
    requires AllValid(fields[start..i]) && mark == PackWidths(fields[start..i]) + Shl(count, 50)
    requires Written(fields, base, i, body, pos, cnt)
    ensures AllValid(fields[start..i + 1]) && mark' == PackWidths(fields[start..i + 1]) + Shl(count, 50)
    ensures Written(fields, base, i + 1, body', pos', cnt')
  {
    hide Or, Shl, PackWidths, Width, FieldCell, Written, BodySize;
    var low := fields[start..i + 1];
    ValidSlice(fields, start, i + 1);
    SliceOfSlice(fields, start, i + 1, i - start);
    assert low[i - start] == fields[i] && low[..i + 1 - start] == low;
    MarkStep(low, i - start, count);
    WrittenStep(fields, base, i, body, pos, cnt);
    mark' := Or(mark, Shl(Width(fields[i]), (i - start) * 2));
    var p;
    body', p, cnt' := AppendCell(fields[i], body, pos, cnt);
    WrittenPos(fields, base, i + 1, body', p, cnt');
    pos' := p;
  }

  /** The fields of one section on top of the shifted cell count. */
  method EncodeFields(fields: seq<Unit>, base: nat, start: nat, end: nat, shifted: nat, ghost count: nat,
                      body: seq<u32>, pos: nat, cnt: nat)
    returns (mark: nat, body': seq<u32>, pos': nat, cnt': nat)
    requires AllValid(fields) && start <= end <= |fields| && end - start <= 25
        && Written(fields, base, start, body, pos, cnt)
    requires shifted == Shl(count, 50)
    ensures AllValid(fields[start..end]) && mark == PackWidths(fields[start..end]) + shifted
    ensures Written(fields, base, end, body', pos', cnt')
  {
    hide Shl, PackWidths, Written, AllValid;
    NoFields(fields, start);
    mark, body', pos', cnt' := shifted, body, pos, cnt;
    for i := start to end
      invariant AllValid(fields[start..i]) && mark == PackWidths(fields[start..i]) + shifted
      invariant Written(fields, base, i, body', pos', cnt')
    {
      mark, body', pos', cnt' := EncodeField(fields, base, start, i, mark, count, body', pos', cnt');
    }
  }

  method EncodeSection(fields: seq<Unit>, base: nat, sec: nat, body: seq<u32>, pos: nat, cnt: nat)
    returns (mark: nat, body': seq<u32>, pos': nat, cnt': nat)
    requires Start(sec) <= |fields| && Written(fields, base, Start(sec), body, pos, cnt)
    ensures AllValid(fields) && mark == Mark(fields, sec)
    ensures Written(fields, base, Min(Start(sec) + 25, |fields|), body', pos', cnt')
  {
    WrittenValid(fields, base, Start(sec), body, pos, cnt);
    hide Shl, PackWidths, Written, BodySize, Mark;
    ShiftedCount(cnt);
    MarkIs(fields, sec);
    mark, body', pos', cnt' := EncodeFields(fields, base, Start(sec), Min(Start(sec) + 25, |fields|),
                                            Shl(cnt, 50) % TWO64, cnt % COUNT_LIMIT, body, pos, cnt);
  }

  lemma MarkIs(fields: seq<Unit>, sec: nat)
    requires AllValid(fields) && Start(sec) <= |fields|
    ensures Mark(fields, sec) == PackWidths(fields[Start(sec)..Min(Start(sec) + 25, |fields|)])
                                   + 0x4_0000_0000_0000 * (BodySize(fields[..Start(sec)]) % COUNT_LIMIT)
  {
  }

  lemma WrittenValid(fields: seq<Unit>, base: nat, i: nat, body: seq<u32>, pos: int, cnt: nat)
    requires Written(fields, base, i, body, pos, cnt)
    ensures AllValid(fields) && Behind(fields, base) && i <= |fields| && cnt == BodySize(fields[..i]) && pos >= base
  {
  }

  method EncodeSections(fields: seq<Unit>, base: nat, section: nat, body: seq<u32>, pos: nat, cnt: nat)
    returns (words: seq<u32>, body': seq<u32>)
    requires AllValid(fields) && Behind(fields, base) && section == Sections(|fields|)
    requires Written(fields, base, Min(12, |fields|), body, pos, cnt)
    ensures words == SectionWords(fields, 0, section) && body' == MessageBody(fields, base)
  {
    hide Mark, Written, BodySize, SectionWords;
    SectionsFit(|fields|);
    var p, c := pos, cnt;
    words, body' := [], body;
    SectionsStart(fields, section);
    for sec := 0 to section
      invariant |words| == 2 * sec && words + SectionWords(fields, sec, section) == SectionWords(fields, 0, section)
      invariant p >= 0 && Written(fields, base, Min(Start(sec), |fields|), body', p, c)
    {
      assert Start(sec) <= Start(section - 1);
      SectionStep(fields, sec, section);
      var mark;
      mark, body', p, c := EncodeSection(fields, base, sec, body', p, c);
      WrittenValid(fields, base, Min(Start(sec) + 25, |fields|), body', p, c);
      assert words + ([mark % TWO32, mark / TWO32] + SectionWords(fields, sec + 1, section))
          == (words + [mark % TWO32, mark / TWO32]) + SectionWords(fields, sec + 1, section);
      words := words + [mark % TWO32, mark / TWO32];
    }
    SectionsEnd(fields, section, words);
    WrittenDone(fields, base, body', p, c);
  }

  lemma SectionsStart(fields: seq<Unit>, count: nat)
    requires AllValid(fields) && (0 < count ==> Start(count - 1) <= |fields|)
    ensures [] + SectionWords(fields, 0, count) == SectionWords(fields, 0, count)
  {
  }

  lemma SectionStep(fields: seq<Unit>, sec: nat, count: nat)
    requires AllValid(fields) && sec < count && Start(count - 1) <= |fields| && Start(sec) <= |fields|
    ensures SectionWords(fields, sec, count)
              == [Mark(fields, sec) % TWO32, Mark(fields, sec) / TWO32] + SectionWords(fields, sec + 1, count)
  {
  }

  lemma SectionsEnd(fields: seq<Unit>, count: nat, words: seq<u32>)
    requires AllValid(fields) && (0 < count ==> Start(count - 1) <= |fields|)
    requires words + SectionWords(fields, count, count) == SectionWords(fields, 0, count)
    ensures words == SectionWords(fields, 0, count)
  {
    assert SectionWords(fields, count, count) == [];
  }

  lemma WrittenDone(fields: seq<Unit>, base: nat, body: seq<u32>, pos: int, cnt: nat)
    requires Written(fields, base, |fields|, body, pos, cnt)
    ensures body == MessageBody(fields, base)
  {
    assert fields[|fields|..] == [];
  }

  method TotalSize(fields: seq<Unit>) returns (size: nat)
    ensures size == DataSize(fields)
  {
    size := 0;
    var i := |fields|;
    while i > 0
      invariant 0 <= i <= |fields| && size == DataSize(fields[i..])
    {
      i := i - 1;
      assert fields[i..][1..] == fields[i + 1..];
      size := size + fields[i].Size();
    }
    assert fields[0..] == fields;
  }

  /** Encodes message fields. Without any nonempty field the message is a single zero word. */
  method SerializeMessageAt(fields: seq<Unit>, buffer: Buffer, last: nat) returns (unit: Option<Unit>)
    requires buffer.Valid() && last <= |buffer.View()| && AllValid(fields) && Behind(fields, |buffer.View()|)
    modifies buffer.Repr()
    ensures buffer.Valid() && fresh(buffer.Repr() - old(buffer.Repr()))
    ensures fields == [] ==> unit.None?
    ensures fields != [] && Used(fields) == [] ==>
              unit == Some(SegmentUnit(|old(buffer.View())|, |old(buffer.View())| + 1))
                  && buffer.View() == [0] + old(buffer.View())
    ensures Used(fields) != [] ==>
        (unit.Some? <==> DataSize(Used(fields)) < MAX_SIZE && Sections(|Used(fields)|) <= 0xff)
    ensures Used(fields) != [] && unit.Some? ==>
              && Encodable(Used(fields), |old(buffer.View())|)
              && buffer.View() == MessageWords(Used(fields), |old(buffer.View())|) + old(buffer.View())
              && unit.value == SegmentUnit(last, |buffer.View()|)
  {
    hide MessageBody, SectionWords, Head, BodySize, DataSize, Written, Buffer.View;
    if fields == [] {
      return None;
    }
    var usedLen := UsedLen(fields);
    if usedLen == 0 {
      var now := buffer.Len();
      buffer.Put(0);
      return Some(SegmentUnit(now, buffer.Len()));
    }
    var used := fields[..usedLen];
    assert used == Used(fields);
    var size := TotalSize(used);
    if size >= MAX_SIZE {
      return None;
    }
    var section := Sections(usedLen);
    if section > 0xff {
      return None;
    }
    var base := buffer.Len();
    var head, body0, pos, cnt := EncodeHead(used, base, section);
    WrittenValid(used, base, Min(12, |used|), body0, pos, cnt);
    var sections, body := EncodeSections(used, base, section, body0, pos, cnt);
    buffer.PutWords([head] + sections + body);
    unit := Some(SegmentUnit(last, buffer.Len()));
  }
}
