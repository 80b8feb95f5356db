/** Array and map encoders. Each comes in two forms: one rebuilds the container from copies of its
    units, the other compacts the units' segments in place. */
module Containers {
  import opened Bits
  import opened Wrappers
  import opened Packing
  import opened Cells
  import opened Buffers
  import opened Compaction

  const MAX_SIZE: nat := 0x4000_0000

  // ----- the encodings

  ghost predicate Readable(units: seq<Unit>, view: seq<u32>) {
    forall i :: 0 <= i < |units| && units[i].IsSegment() ==> Inside(units[i].segment, |view|)
  }

  ghost function WordsOf(units: seq<Unit>, view: seq<u32>): (ws: seq<seq<u32>>)
    requires Readable(units, view)
    ensures |ws| == |units|
    ensures forall i :: 0 <= i < |units| ==> ws[i] == UnitWords(units[i], view)
  {
    seq(|units|, i requires 0 <= i < |units| => UnitWords(units[i], view))
  }

  function Sizes(units: seq<Unit>): (l: seq<nat>)
    ensures |l| == |units|
  {
    seq(|units|, i requires 0 <= i < |units| => units[i].Size())
  }

  ghost function ArrayWords(ws: seq<seq<u32>>): (words: seq<u32>)
    requires Cost(Lens(ws), BestWidth(Lens(ws))) < MAX_SIZE
    ensures |words| == 1 + Cost(Lens(ws), BestWidth(Lens(ws)))
  {
    var width := BestWidth(Lens(ws));
    BodyCost(ws, width);
    CountBound(ws, width);
    [|ws| * 4 + width] + Body(ItemsOf(ws, width))
  }

  lemma {:induction false} CountBound(ws: seq<seq<u32>>, width: nat)
    requires width >= 1
    ensures |ws| <= Cost(Lens(ws), width)
  {
    if ws != [] {
      CountBound(ws[1..], width);
      assert Lens(ws)[1..] == Lens(ws[1..]);
    }
  }

  /** What both array encoders leave behind. */
  ghost predicate ArrayEncoded(elements: seq<Unit>, before: seq<u32>, last: nat, unit: Unit, after: seq<u32>) {
    && Readable(elements, before) && last <= |before|
    && Cost(Sizes(elements), BestWidth(Sizes(elements))) < MAX_SIZE
    && Lens(WordsOf(elements, before)) == Sizes(elements)
    && after == ArrayWords(WordsOf(elements, before)) + before[|before| - last..]
    && unit == SegmentUnit(last, |after|)
  }

  lemma SizesAreLens(units: seq<Unit>, view: seq<u32>)
    requires Readable(units, view)
    ensures Lens(WordsOf(units, view)) == Sizes(units)
  {
  }

  lemma ArrayAssembled(ws: seq<seq<u32>>, width: nat, cells: seq<u32>, payloads: seq<u32>, rest: seq<u32>)
    requires width == BestWidth(Lens(ws)) && Cost(Lens(ws), width) < MAX_SIZE && |ws| < MAX_SIZE
    requires Body(ItemsOf(ws, width)) == cells + payloads
    ensures [|ws| * 4 + width] + (cells + (payloads + rest)) == ArrayWords(ws) + rest
  {
    hide Cost, Body;
  }

  /** The words are in place, so the array is encoded. */
  lemma ArrayFinished(elements: seq<Unit>, before: seq<u32>, last: nat, width: nat, cells: seq<u32>, payloads: seq<u32>,
                      after: seq<u32>)
    requires Readable(elements, before) && last <= |before|
    requires width == BestWidth(Sizes(elements)) && Cost(Sizes(elements), width) < MAX_SIZE
    requires Body(ItemsOf(WordsOf(elements, before), width)) == cells + payloads && |elements| < MAX_SIZE
    requires after == [|elements| * 4 + width] + (cells + (payloads + before[|before| - last..]))
    ensures ArrayEncoded(elements, before, last, SegmentUnit(last, |after|), after)
  {
    hide Cost, BestWidth, Body, ArrayWords, Sizes, ItemsOf;
    SizesAreLens(elements, before);
    ArrayAssembled(WordsOf(elements, before), width, cells, payloads, before[|before| - last..]);
  }

  method ReadUnit(unit: Unit, buffer: Buffer) returns (words: Option<seq<u32>>)
    requires buffer.Valid()
    ensures words.Some? <==> (unit.IsSegment() ==> Inside(unit.segment, |buffer.View()|))
    ensures words.Some? ==> words.value == UnitWords(unit, buffer.View())
  {
    if unit.inlineWords != [] {
      return Some(unit.inlineWords);
    }
    if unit.segment.len == 0 {
      return Some([]);
    }
    if unit.segment.pos > buffer.Len() || unit.segment.len > unit.segment.pos {
      return None;
    }
    var start := buffer.Len() - unit.segment.pos;
    return Some(buffer.data[buffer.off..][start..start + unit.segment.len]);
  }

  method ReadUnits(units: seq<Unit>, buffer: Buffer) returns (read: Option<seq<seq<u32>>>)
    requires buffer.Valid()
    ensures read.Some? <==> Readable(units, buffer.View())
    ensures read.Some? ==> read.value == WordsOf(units, buffer.View())
  {
    hide Buffer.View;
    var words := [];
    for index := 0 to |units|
      invariant |words| == index
      invariant forall i :: 0 <= i < index && units[i].IsSegment() ==> Inside(units[i].segment, |buffer.View()|)
      invariant forall i :: 0 <= i < index ==> words[i] == UnitWords(units[i], buffer.View())
    {
      var one := ReadUnit(units[index], buffer);
      if one.None? {
        return None;
      }
      words := words + [one.value];
    }
    assert words == WordsOf(units, buffer.View());
    read := Some(words);
  }

  /** One round of a rebuild: the next item's cell, and its payload if it does not fit. */
  method AppendItem(item: Item, distance: nat, cells: seq<u32>, payloads: seq<u32>)
    returns (cells': seq<u32>, payloads': seq<u32>)
    requires item.width >= 1
    ensures cells' == cells + Cell(item.words, item.width, distance)
    ensures payloads' == payloads + Spilled(item)
  {
    if |item.words| <= item.width {
      cells', payloads' := cells + (item.words + Zeros(item.width - |item.words|)), payloads;
    } else {
      cells', payloads' := cells + ([Offset(distance)] + Zeros(item.width - 1)), payloads + item.words;
    }
  }

  /** The rebuild after k items. */
  ghost predicate Rebuilt(items: seq<Item>, k: nat, cells: seq<u32>, payloads: seq<u32>) {
    && Wide(items) && k <= |items| && Wide(items[k..])
    && CellsOf(items, 0) == cells + CellsOf(items[k..], |payloads|)
    && Payload(items) == payloads + Payload(items[k..])
    && |cells| == CellsLen(items[..k])
  }

  lemma RebuildStart(items: seq<Item>)
    requires Wide(items)
    ensures Rebuilt(items, 0, [], [])
  {
    NothingBefore(items);
  }

  lemma Assoc<T>(a: seq<T>, b: seq<T>, c: seq<T>)
    ensures a + (b + c) == (a + b) + c
  {
  }

  lemma WideTail(items: seq<Item>, k: nat)
    requires Wide(items) && k <= |items|
    ensures Wide(items[k..])
    ensures k < |items| ==> items[k].width >= 1
  {
  }

  lemma RebuildCells(items: seq<Item>, k: nat, cells: seq<u32>, skip: nat)
    requires Wide(items) && k < |items| && Wide(items[k..]) && Wide(items[k + 1..])
    requires CellsOf(items, 0) == cells + CellsOf(items[k..], skip)
    ensures CellsOf(items, 0) == (cells + Cell(items[k].words, items[k].width, CellsLen(items[k..]) + skip))
                                   + CellsOf(items[k + 1..], skip + |Spilled(items[k])|)
  {
    hide CellsOf, CellsLen, Cell, Spilled;
    CellsFrom(items, k, skip);
    Assoc(cells, Cell(items[k].words, items[k].width, CellsLen(items[k..]) + skip),
          CellsOf(items[k + 1..], skip + |Spilled(items[k])|));
  }

  lemma RebuildPayload(items: seq<Item>, k: nat, payloads: seq<u32>)
    requires k < |items| && Payload(items) == payloads + Payload(items[k..])
    ensures Payload(items) == (payloads + Spilled(items[k])) + Payload(items[k + 1..])
  {
    hide Payload, Spilled;
    PayloadFrom(items, k);
    Assoc(payloads, Spilled(items[k]), Payload(items[k + 1..]));
  }

  lemma RebuildStep(items: seq<Item>, k: nat, cells: seq<u32>, payloads: seq<u32>)
    requires k < |items| && Rebuilt(items, k, cells, payloads)
    ensures items[k].width >= 1 && CellsLen(items) - |cells| + |payloads| >= 0
    ensures Rebuilt(items, k + 1,
        cells + Cell(items[k].words, items[k].width,
            CellsLen(items) - |cells| + |payloads|), payloads + Spilled(items[k]))
  {
    hide CellsOf, CellsLen, Payload, Cell, Spilled, Wide;
    PayloadSplit(items, k);
    CellsPrefix(items, k);
    WideTail(items, k + 1);
    WideTail(items, k);
    RebuildCells(items, k, cells, |payloads|);
    RebuildPayload(items, k, payloads);
    assert CellsLen(items) - |cells| + |payloads| == CellsLen(items[k..]) + |payloads|;
  }

  lemma RebuildDone(items: seq<Item>, cells: seq<u32>, payloads: seq<u32>)
    requires Rebuilt(items, |items|, cells, payloads)
    ensures Body(items) == cells + payloads
  {
    assert items[|items|..] == [];
  }

  // ----- arrays

  /** Encodes an array from copies of its units; they may lie anywhere in the buffer. */
  method SerializeArrayAt(elements: seq<Unit>, buffer: Buffer, last: nat) returns (unit: Option<Unit>)
    requires buffer.Valid()
    modifies buffer.Repr()
    ensures buffer.Valid() && fresh(buffer.Repr() - old(buffer.Repr()))
    ensures elements == [] ==> unit == Some(InlineUnit([1])) && buffer.View() == old(buffer.View())
    ensures elements != [] ==>
              (unit.Some? <==> Readable(elements, old(buffer.View())) && last <= |old(buffer.View())|
                               && Cost(Sizes(elements), BestWidth(Sizes(elements))) < MAX_SIZE)
    ensures elements != [] && unit.Some? ==> ArrayEncoded(elements, old(buffer.View()), last, unit.value, buffer.View())
  {
    hide Cost, BestWidth, CellsOf, CellsLen, Payload, Body, ArrayWords, Sizes, ItemsOf, Buffer.View;
    if elements == [] {
      return Some(InlineUnit([1]));
    }
    var size, width := BestSize(Sizes(elements));
    if size >= MAX_SIZE {
      return None;
    }
    ghost var view := buffer.View();
    var copies := ReadUnits(elements, buffer);
    if copies.None? {
      return None;
    }
    if last > buffer.Len() {
      return None;
    }
    SizesAreLens(elements, view);
    var encoded := RebuildEncodeArray(elements, copies.value, width, buffer, last);
    unit := Some(encoded);
  }

  /** Replaces everything written since `last` by the payloads and the cells. */
  method PutParts(buffer: Buffer, last: nat, cells: seq<u32>, payloads: seq<u32>)
    requires buffer.Valid() && last <= |buffer.View()|
    modifies buffer.Repr()
    ensures buffer.Valid() && fresh(buffer.Repr() - old(buffer.Repr()))
    ensures buffer.View() == cells + (payloads + old(buffer.View())[|old(buffer.View())| - last..])
  {
    hide Buffer.View;
    buffer.Shrink(buffer.Len() - last);
    buffer.PutWords(payloads);
    buffer.PutWords(cells);
  }

  /** The rebuilding path, once every element has been copied. */
  method RebuildEncodeArray(elements: seq<Unit>, ws: seq<seq<u32>>, width: nat, buffer: Buffer,
                            last: nat) returns (unit: Unit)
    requires buffer.Valid() && last <= |buffer.View()|
    requires Readable(elements, buffer.View()) && ws == WordsOf(elements, buffer.View()) && Lens(ws) == Sizes(elements)
    requires width == BestWidth(Sizes(elements)) && Cost(Sizes(elements), width) < MAX_SIZE
    modifies buffer.Repr()
    ensures buffer.Valid() && fresh(buffer.Repr() - old(buffer.Repr()))
    ensures ArrayEncoded(elements, old(buffer.View()), last, unit, buffer.View())
  {
    hide Cost, BestWidth, Body, ArrayEncoded, Sizes, ItemsOf, Readable, Buffer.View;
    ghost var view := buffer.View();
    var cells, payloads := RebuildArray(ws, width);
    PutParts(buffer, last, cells, payloads);
    buffer.Put(|ws| * 4 + width);
    unit := SegmentUnit(last, buffer.Len());
    ArrayFinished(elements, view, last, width, cells, payloads, buffer.View());
  }

  method RebuildArray(ws: seq<seq<u32>>, width: nat) returns (cells: seq<u32>, payloads: seq<u32>)
    requires width == BestWidth(Lens(ws)) && Cost(Lens(ws), width) < MAX_SIZE
    ensures Body(ItemsOf(ws, width)) == cells + payloads && |ws| < MAX_SIZE
  {
    hide Cost, BestWidth, CellsOf, CellsLen, Payload, Rebuilt;
    ghost var items := ItemsOf(ws, width);
    BodyCost(ws, width);
    CountBound(ws, width);
    cells, payloads := [], [];
    RebuildStart(items);
    var cellsLen := |ws| * width;
    var cellStart := 0;
    for index := 0 to |ws|
      invariant |cells| == cellStart && Rebuilt(items, index, cells, payloads)
    {
      RebuildStep(items, index, cells, payloads);
      var payloadStart := cellsLen + |payloads|;
      cells, payloads := AppendItem(Item(ws[index], width), payloadStart - cellStart, cells, payloads);
      cellStart := cellStart + width;
    }
    RebuildDone(items, cells, payloads);
  }

  /** Encodes an array by compacting its segments in place, unless a folded value needs repacking. */
  method SerializeArrayAtMut(elements: array<Unit>, buffer: Buffer, last: nat) returns (unit: Option<Unit>)
    requires buffer.Valid() && InOrder(elements[..], |buffer.View()|, last)
    modifies buffer.Repr(), elements
    ensures buffer.Valid() && fresh(buffer.Repr() - old(buffer.Repr()))
    ensures elements.Length == 0 ==> unit == Some(InlineUnit([1])) && buffer.View() == old(buffer.View())
    ensures elements.Length != 0 ==>
              (unit.Some? <==>
                  last <= |old(buffer.View())|
                      && Cost(Sizes(old(elements[..])), BestWidth(Sizes(old(elements[..])))) < MAX_SIZE)
    ensures elements.Length != 0 && unit.Some? ==>
              ArrayEncoded(old(elements[..]), old(buffer.View()), last, unit.value, buffer.View())
  {
    hide Cost, BestWidth, CellsOf, CellsLen, Payload, Body, ArrayWords, InOrder, StandFor, AnyWider, Sizes, Buffer.View;
    if elements.Length == 0 {
      return Some(InlineUnit([1]));
    }
    ghost var units0, view0 := elements[..], buffer.View();
    ArrayReadable(units0, view0, last);
    var size, width := BestSize(Sizes(elements[..]));
    if size >= MAX_SIZE {
      return None;
    }
    if AnyWider(elements[..], width) {
      unit := SerializeArrayAt(elements[..], buffer, last);
      return;
    }
    if last > buffer.Len() {
      return None;
    }
    NoneWider(units0, width);
    var encoded := CompactEncode(elements, buffer, last, width);
    unit := Some(encoded);
  }

  /** The in-place path: compact the payloads, prepend the cells, prepend the header. */
  method CompactEncode(elements: array<Unit>, buffer: Buffer, last: nat, width: nat) returns (unit: Unit)
    requires buffer.Valid() && InOrder(elements[..], |buffer.View()|, last) && last <= |buffer.View()|
    requires width == BestWidth(Sizes(elements[..])) && Cost(Sizes(elements[..]), width) < MAX_SIZE
    requires forall i :: 0 <= i < elements.Length ==> |elements[i].inlineWords| <= width
    modifies buffer.Repr(), elements
    ensures buffer.Valid() && fresh(buffer.Repr() - old(buffer.Repr()))
    ensures ArrayEncoded(old(elements[..]), old(buffer.View()), last, unit, buffer.View())
  {
    hide Cost, BestWidth, Body, ArrayEncoded, InOrder, StandFor, Sizes, Readable, ItemsOf, Lens, UnitWords, WordsOf,
         Wide, Buffer.View;
    ghost var units0, view0 := elements[..], buffer.View();
    ArrayStands(units0, view0, last, width);
    SizesAreLens(units0, view0);
    ghost var items := ItemsOf(WordsOf(units0, view0), width);
    CountBound(WordsOf(units0, view0), width);
    CompactArray(elements, buffer, last, width, items);
    buffer.Put(elements.Length * 4 + width);
    unit := SegmentUnit(last, buffer.Len());
    ArrayCompacted(units0, view0, last, width, buffer.View());
  }

  /** The cells, payload and header are in place, so the array is encoded. */
  lemma ArrayCompacted(units: seq<Unit>, view: seq<u32>, last: nat, width: nat, after: seq<u32>)
    requires last <= |view| && Readable(units, view) && width == BestWidth(Sizes(units))
        && Cost(Sizes(units), width) < MAX_SIZE
    requires |units| < MAX_SIZE && Wide(ItemsOf(WordsOf(units, view), width))
    requires after == [|units| * 4 + width] + (Body(ItemsOf(WordsOf(units, view), width)) + view[|view| - last..])
    ensures ArrayEncoded(units, view, last, SegmentUnit(last, |after|), after)
  {
    hide Cost, BestWidth, Body, ArrayEncoded, Sizes, Readable, ItemsOf, Lens, UnitWords, Wide;
    var body, rest := Body(ItemsOf(WordsOf(units, view), width)), view[|view| - last..];
    assert body + rest == body + ([] + rest);
    assert body == body + [];
    ArrayFinished(units, view, last, width, body, [], after);
  }

  /** A folded inline value does not fit cells of this width. */
  predicate AnyWider(units: seq<Unit>, width: nat) {
    exists i :: 0 <= i < |units| && |units[i].inlineWords| > width
  }

  lemma NoneWider(units: seq<Unit>, width: nat)
    requires !AnyWider(units, width)
    ensures forall i :: 0 <= i < |units| ==> |units[i].inlineWords| <= width
  {
  }

  lemma ArrayReadable(units: seq<Unit>, view: seq<u32>, last: nat)
    requires InOrder(units, |view|, last)
    ensures Readable(units, view)
  {
  }

  lemma ArrayStands(units: seq<Unit>, view: seq<u32>, last: nat, width: nat)
    requires InOrder(units, |view|, last) && last <= |view| && 1 <= width <= 3
    requires forall i :: 0 <= i < |units| ==> |units[i].inlineWords| <= width
    ensures Readable(units, view) && StandFor(units, ItemsOf(WordsOf(units, view), width), view, last)
    ensures OfWidth(ItemsOf(WordsOf(units, view), width), width)
  {
  }

  method PickArray(elements: array<Unit>, buffer: Buffer, last: nat, width: nat,
                   ghost items: seq<Item>) returns (tail: nat)
    requires buffer.Valid() && StandFor(elements[..], items, buffer.View(), last)
    requires OfWidth(items, width)
    modifies buffer.data, elements
    ensures buffer.Valid()
    ensures Picked(old(elements[..]), elements[..], items, old(buffer.View()), buffer.View(), tail, 0, last)
  {
    hide CellsOf, CellsLen, Payload, Buffer.View;
    ghost var units0, view0 := elements[..], buffer.View();
    tail := buffer.Len() - last;
    PickStart(units0, items, view0, last);
    var m := elements.Length;
    while m > 0
      invariant 0 <= m <= elements.Length && buffer.Valid()
      invariant Picked(units0, elements[..], items, view0, buffer.View(), tail, m, last)
    {
      m := m - 1;
      ghost var units, view, tail0 := elements[..], buffer.View(), tail;
      NextUntouched(units0, units, items, view0, view, tail, m, last);
      var picked;
      picked, tail := PickUnit(elements[m], buffer, tail, width);
      elements[m] := picked;
      assert elements[..] == units[m := picked];
      PickStep(units0, units, items, view0, view, tail0, m, last, picked, buffer.View(), tail);
    }
  }

  method MarkArray(elements: array<Unit>, buffer: Buffer, width: nat, ghost items: seq<Item>, ghost rest: seq<u32>)
    requires buffer.Valid() && elements.Length == |items| && Wide(items)
    requires OfWidth(items, width) && NoneEmpty(items)
    requires buffer.View() == Payload(items) + rest
    requires AllPlaced(elements[..], items, |rest|)
    modifies buffer.Repr()
    ensures buffer.Valid() && fresh(buffer.Repr() - old(buffer.Repr()))
    ensures buffer.View() == Body(items) + rest
  {
    hide CellsOf, CellsLen, Payload, Marked, Placed, CellFor, Buffer.View;
    ghost var units := elements[..];
    MarkStart(items, buffer.View(), rest);
    var m := elements.Length;
    while m > 0
      invariant 0 <= m <= elements.Length && buffer.Valid() && fresh(buffer.Repr() - old(buffer.Repr()))
      invariant elements[..] == units && Marked(items, buffer.View(), m, rest)
    {
      m := m - 1;
      assert Placed(units[m], items, m, |rest|);
      assert units[m] == elements[m];
      MarkStep(items, buffer.View(), m, rest, units[m]);
      MarkUnit(elements[m], buffer, width);
    }
    MarkDone(items, buffer.View(), rest);
  }

  ghost predicate AllPlaced(units: seq<Unit>, items: seq<Item>, last: nat) {
    |units| == |items| && forall j {:trigger Placed(units[j], items, j, last)} :: 0 <= j < |items| ==>
        Placed(units[j], items, j, last)
  }

  ghost predicate OfWidth(items: seq<Item>, width: nat) {
    forall i :: 0 <= i < |items| ==> items[i].width == width
  }

  ghost predicate NoneEmpty(items: seq<Item>) {
    forall i :: 0 <= i < |items| ==> items[i].words != []
  }

  method CompactArray(elements: array<Unit>, buffer: Buffer, last: nat, width: nat, ghost items: seq<Item>)
    requires buffer.Valid() && StandFor(elements[..], items, buffer.View(), last)
    requires OfWidth(items, width)
    modifies buffer.Repr(), elements
    ensures buffer.Valid() && fresh(buffer.Repr() - old(buffer.Repr()))
    ensures buffer.View() == Body(items) + old(buffer.View())[|old(buffer.View())| - last..]
  {
    hide CellsOf, CellsLen, Payload, Placed, StandFor, Picked, Body, Wide, AllPlaced, NoneEmpty, OfWidth, Buffer.View;
    ghost var units0, view0 := elements[..], buffer.View();
    var tail := PickArray(elements, buffer, last, width, items);
    PickDone(units0, elements[..], items, view0, buffer.View(), tail, last);
    buffer.Shrink(tail);
    MarkArray(elements, buffer, width, items, view0[|view0| - last..]);
  }

  lemma PickStart(units: seq<Unit>, items: seq<Item>, view: seq<u32>, last: nat)
    requires StandFor(units, items, view, last)
    ensures Picked(units, units, items, view, view, |view| - last, |items|, last)
  {
    assert items[|items|..] == [];
  }

  lemma PickDone(units0: seq<Unit>, units: seq<Unit>, items: seq<Item>, view0: seq<u32>, view: seq<u32>, tail: nat,
                 last: nat)
    requires StandFor(units0, items, view0, last) && Picked(units0, units, items, view0, view, tail, 0, last)
    ensures Wide(items) && |units| == |items| && last <= |view0| && tail <= |view|
    ensures NoneEmpty(items) && AllPlaced(units, items, last)
    ensures view[tail..] == Payload(items) + view0[|view0| - last..]
  {
    assert items[0..] == items;
  }

  lemma NoCells(skip: nat)
    ensures CellsOf([], skip) == []
  {
  }

  lemma MarkStart(items: seq<Item>, view: seq<u32>, rest: seq<u32>)
    requires Wide(items) && view == Payload(items) + rest
    ensures Marked(items, view, |items|, rest)
  {
    hide CellsOf, Payload;
    NoCells(|Payload(items[..|items|])|);
    assert items[|items|..] == [];
    assert [] + Payload(items) + rest == view;
  }

  lemma MarkDone(items: seq<Item>, view: seq<u32>, rest: seq<u32>)
    requires Marked(items, view, 0, rest)
    ensures view == Body(items) + rest
  {
    NothingBefore(items);
  }
}
