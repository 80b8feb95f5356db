/** Compacting payloads in place: the segments written since `last` slide towards the end of
    their region, one unit at a time from the back, then the cells are prepended. */
module Compaction {
  import opened Bits
  import opened Packing
  import opened Cells
  import opened Buffers

  /** Nonempty units whose segments are disjoint, in unit order, and written since `last`. */
  ghost predicate InOrder(units: seq<Unit>, viewLen: nat, last: nat) {
    && (forall i :: 0 <= i < |units| ==> units[i].Valid() && !units[i].IsEmpty())
    && (forall i :: 0 <= i < |units| && units[i].IsSegment() ==>
          Inside(units[i].segment, viewLen) && last + units[i].segment.len <= units[i].segment.pos)
    && (forall i, j :: 0 <= i < j < |units| && units[i].IsSegment() && units[j].IsSegment() ==>
          units[j].segment.pos <= units[i].segment.pos - units[i].segment.len)
  }

  /** The items the units stand for. */
  ghost predicate StandFor(units: seq<Unit>, items: seq<Item>, view: seq<u32>, last: nat) {
    && last <= |view| && |units| == |items|
    && InOrder(units, |view|, last)
    && Wide(items)
    && forall i :: 0 <= i < |units| ==>
                     && items[i].words == UnitWords(units[i], view)
                     && |units[i].inlineWords| <= items[i].width
  }

  /** Where unit j ends up: inline, or at the front of the payload from item j on. */
  ghost predicate Placed(unit: Unit, items: seq<Item>, j: nat, last: nat)
    requires j < |items|
  {
    if |items[j].words| <= items[j].width then unit.inlineWords == items[j].words
    else unit == Unit([], Segment(last + |Payload(items[j..])|, |items[j].words|))
  }

  /** Units from k on are placed and their payload ends at the region's end; the rest is as before. */
  ghost predicate Picked(units0: seq<Unit>, units: seq<Unit>, items: seq<Item>, view0: seq<u32>, view: seq<u32>,
                         tail: nat, k: nat, last: nat)
  {
    && |units| == |units0| == |items| && k <= |items|
    && last <= |view0| == |view|
    && tail + |Payload(items[k..])| == |view0| - last
    && view[..tail] == view0[..tail]
    && view[tail..] == Payload(items[k..]) + view0[|view0| - last..]
    && units[..k] == units0[..k]
    && forall j {:trigger Placed(units[j], items, j, last)} :: k <= j < |items| ==> Placed(units[j], items, j, last)
  }

  lemma {:induction false} RoomBehind(units: seq<Unit>, items: seq<Item>, view: seq<u32>, last: nat, k: nat, from: nat)
    requires StandFor(units, items, view, last) && k <= |units| && from + last <= |view|
    requires forall j :: k <= j < |units| && units[j].IsSegment() ==> from <= |view| - units[j].segment.pos
    ensures from + |Payload(items[k..])| + last <= |view|
    decreases |units| - k
  {
    if k < |units| {
      PayloadFrom(items, k);
      if units[k].IsSegment() {
        RoomBehind(units, items, view, last, k + 1, |view| - units[k].segment.pos + units[k].segment.len);
      } else {
        RoomBehind(units, items, view, last, k + 1, from);
      }
    }
  }

  /** The segment of the next unit still lies in front of the compacted payload, untouched. */
  lemma NextUntouched(units0: seq<Unit>, units: seq<Unit>, items: seq<Item>, view0: seq<u32>, view: seq<u32>,
                      tail: nat, k: nat, last: nat)
    requires StandFor(units0, items, view0, last) && k < |items|
    requires Picked(units0, units, items, view0, view, tail, k + 1, last)
    ensures units[k] == units0[k]
    ensures units0[k].IsSegment() ==>
              && |view| - units0[k].segment.pos + units0[k].segment.len <= tail <= |view|
              && SegmentWords(units0[k].segment, view) == items[k].words
  {
    hide Payload;
    assert units[..k + 1][k] == units0[..k + 1][k];
    if units0[k].IsSegment() {
      var end := |view| - units0[k].segment.pos + units0[k].segment.len;
      RoomBehind(units0, items, view0, last, k + 1, end);
      SameSlice(view, view0, tail, end - units0[k].segment.len, end);
    }
  }

  lemma SameSlice<T>(a: seq<T>, b: seq<T>, tail: nat, start: nat, end: nat)
    requires start <= end <= tail <= |a| && tail <= |b| && a[..tail] == b[..tail]
    ensures a[start..end] == b[start..end]
  {
    forall i | 0 <= i < end - start ensures a[start..end][i] == b[start..end][i] {
      assert a[..tail][start + i] == a[start + i];
      assert b[..tail][start + i] == b[start + i];
    }
  }

  /** What picking unit k did to the buffer. */
  ghost predicate PickEffect(unit: Unit, unit': Unit, words: seq<u32>, width: nat, view: seq<u32>, view': seq<u32>,
                             tail: nat, tail': nat)
  {
    && tail <= |view| == |view'|
    && if |words| <= width then
         unit'.inlineWords == words && tail' == tail && view' == view
       else
         && tail' + |words| == tail
         && unit' == Unit([], Segment(|view| - tail', |words|))
         && view' == view[..tail'] + words + view[tail..]
  }

  lemma PickStep(units0: seq<Unit>, units: seq<Unit>, items: seq<Item>, view0: seq<u32>, view: seq<u32>, tail: nat,
                 k: nat, last: nat, unit': Unit, view': seq<u32>, tail': nat)
    requires k < |items| && Picked(units0, units, items, view0, view, tail, k + 1, last)
    requires PickEffect(units[k], unit', items[k].words, items[k].width, view, view', tail, tail')
    ensures Picked(units0, units[k := unit'], items, view0, view', tail', k, last)
  {
    hide Payload;
    PayloadFrom(items, k);
    var units' := units[k := unit'];
    assert units[..k] == units[..k + 1][..k] == units0[..k + 1][..k] == units0[..k];
    if |items[k].words| > items[k].width {
      var w := items[k].words;
      assert view'[..tail'] == view[..tail'] == view[..tail][..tail'] == view0[..tail][..tail'] == view0[..tail'];
      assert view'[tail'..] == w + view[tail..];
    }
    forall j | k <= j < |items| ensures Placed(units'[j], items, j, last) {
      if j > k { assert Placed(units[j], items, j, last); }
    }
  }

  /** Moves one unit's payload to the back of the free space, or takes it inline. */
  method PickUnit(unit: Unit, buffer: Buffer, tail: nat, width: nat) returns (unit': Unit, tail': nat)
    requires buffer.Valid() && unit.Valid() && !unit.IsEmpty() && 1 <= width <= 3 && |unit.inlineWords| <= width
    requires tail <= |buffer.View()|
    requires unit.IsSegment() ==>
               Inside(unit.segment, |buffer.View()|) && |buffer.View()| - unit.segment.pos + unit.segment.len <= tail
    modifies buffer.data
    ensures buffer.Valid()
    ensures PickEffect(unit, unit', old(UnitWords(unit, buffer.View())), width, old(buffer.View()), buffer.View(), tail,
        tail')
  {
    hide Buffer.View, PickEffect;
    ghost var view := buffer.View();
    if unit.inlineWords != [] {
      PickInline(unit, unit, view, tail, width);
      return unit, tail;
    }
    var seg := unit.segment;
    var start := buffer.Len() - seg.pos;
    var end := start + seg.len;
    if seg.len <= width {
      var words := buffer.Words(start, end);
      PickInline(unit, unit.(inlineWords := words), view, tail, width);
      return unit.(inlineWords := words), tail;
    }
    tail' := tail - seg.len;
    unit' := unit;
    if tail > end {
      buffer.CopyWithin(start, end, tail');
      unit' := unit.(segment := seg.(pos := seg.pos - (tail' - start)));
    } else {
      StaysInPlace(view, start, end);
    }
    PickSpilled(unit, unit', view, buffer.View(), start, tail, tail', width);
  }

  lemma PickInline(unit: Unit, unit': Unit, view: seq<u32>, tail: nat, width: nat)
    requires unit.Valid() && (unit.IsSegment() ==> Inside(unit.segment, |view|)) && tail <= |view|
    requires |UnitWords(unit, view)| <= width && unit'.inlineWords == UnitWords(unit, view)
    ensures PickEffect(unit, unit', UnitWords(unit, view), width, view, view, tail, tail)
  {
  }

  lemma StaysInPlace(view: seq<u32>, start: nat, end: nat)
    requires start <= end <= |view|
    ensures view == view[..start] + view[start..end] + view[end..]
  {
  }

  lemma PickSpilled(unit: Unit, unit': Unit, view: seq<u32>, view': seq<u32>, start: nat, tail: nat, tail': nat,
                    width: nat)
    requires unit.inlineWords == [] && unit.segment.len > width && Inside(unit.segment, |view|)
    requires start == |view| - unit.segment.pos && tail' + unit.segment.len == tail <= |view| == |view'|
    requires unit' == unit.(segment := Segment(unit.segment.pos - (tail' - start), unit.segment.len))
    requires view' == view[..tail'] + view[start..start + unit.segment.len] + view[tail..]
    ensures PickEffect(unit, unit', UnitWords(unit, view), width, view, view', tail, tail')
  {
  }

  // ----- cells

  ghost predicate Marked(items: seq<Item>, view: seq<u32>, k: nat, rest: seq<u32>) {
    && Wide(items) && k <= |items| && Wide(items[k..])
    && view == CellsOf(items[k..], |Payload(items[..k])|) + Payload(items) + rest
  }

  function CellFor(unit: Unit, width: nat, newLen: nat): seq<u32>
    requires width >= 1 && |unit.inlineWords| <= width
    requires unit.inlineWords == [] ==> unit.segment.pos <= newLen
  {
    if unit.inlineWords != [] then unit.inlineWords + Zeros(width - |unit.inlineWords|)
    else [Offset(newLen - unit.segment.pos)] + Zeros(width - 1)
  }

  /** The cell written for a placed unit is the cell of its item. */
  lemma MarkStep(items: seq<Item>, view: seq<u32>, k: nat, rest: seq<u32>, unit: Unit)
    requires k < |items| && Marked(items, view, k + 1, rest) && items[k].words != []
    requires Placed(unit, items, k, |rest|)
    ensures |unit.inlineWords| <= items[k].width
    ensures unit.inlineWords == [] ==> unit.segment.pos <= |view| + items[k].width
    ensures Marked(items, CellFor(unit, items[k].width, |view| + items[k].width) + view, k, rest)
  {
    hide CellsOf, CellsLen, Payload, Offset;
    PayloadSplit(items, k);
    PayloadTo(items, k);
    PayloadFrom(items, k);
    PayloadSplit(items, k + 1);
    CellsFrom(items, k, |Payload(items[..k])|);
    var w := items[k].width;
    assert CellFor(unit, w, |view| + w) == Cell(items[k].words, w, CellsLen(items[k..]) + |Payload(items[..k])|);
  }

  method MarkUnit(unit: Unit, buffer: Buffer, width: nat)
    requires buffer.Valid() && 1 <= width && |unit.inlineWords| <= width
    requires unit.inlineWords == [] ==> unit.segment.pos <= |buffer.View()| + width
    modifies buffer.Repr()
    ensures buffer.Valid() && fresh(buffer.Repr() - old(buffer.Repr()))
    ensures buffer.View() == CellFor(unit, width, |old(buffer.View())| + width) + old(buffer.View())
  {
    hide Buffer.View;
    var expandedLen := buffer.Len() + width;
    if unit.inlineWords != [] {
      buffer.PutWords(unit.inlineWords + Zeros(width - |unit.inlineWords|));
    } else {
      buffer.PutWords([Offset(expandedLen - unit.segment.pos)] + Zeros(width - 1));
    }
  }
}
