/** Map encoders: the perfect-hash index, then key and value cells in position order. */
module MapContainers {
  import opened Bits
  import opened Wrappers
  import opened Packing
  import opened Cells
  import opened Buffers
  import opened Compaction
  import opened Containers

  // ----- the encoding

  /** Keys and values in the order of their cells. */
  function Interleave<T>(ks: seq<T>, vs: seq<T>): (r: seq<T>)
    requires |ks| == |vs|
    ensures |r| == 2 * |ks|
    ensures forall i :: 0 <= i < |ks| ==> r[2 * i] == ks[i] && r[2 * i + 1] == vs[i]
  {
    seq(2 * |ks|, j requires 0 <= j < 2 * |ks| => if j % 2 == 0 then ks[j / 2] else vs[j / 2])
  }

  function PairItems(ks: seq<seq<u32>>, vs: seq<seq<u32>>, kw: nat, vw: nat): (items: seq<Item>)
    requires |ks| == |vs|
    ensures |items| == 2 * |ks|
    ensures forall i :: 0 <= i < |ks| ==> items[2 * i] == Item(ks[i], kw) && items[2 * i + 1] == Item(vs[i], vw)
  {
    Interleave(ItemsOf(ks, kw), ItemsOf(vs, vw))
  }

  lemma PairWide(ks: seq<seq<u32>>, vs: seq<seq<u32>>, kw: nat, vw: nat)
    requires |ks| == |vs| && 1 <= kw <= 3 && 1 <= vw <= 3
    ensures Wide(PairItems(ks, vs, kw, vw))
  {
    var items := PairItems(ks, vs, kw, vw);
    forall j | 0 <= j < |items| ensures 1 <= items[j].width <= 3 {
      assert items[j] == if j % 2 == 0 then Item(ks[j / 2], kw) else Item(vs[j / 2], vw);
    }
  }

  lemma PairTail(ks: seq<seq<u32>>, vs: seq<seq<u32>>, kw: nat, vw: nat)
    requires |ks| == |vs| && ks != []
    ensures PairItems(ks, vs, kw, vw) == [Item(ks[0], kw), Item(vs[0], vw)] + PairItems(ks[1..], vs[1..], kw, vw)
  {
    hide Interleave;
    var a, b := ItemsOf(ks, kw), ItemsOf(vs, vw);
    InterleaveTail(a, b);
    assert a[1..] == ItemsOf(ks[1..], kw) && b[1..] == ItemsOf(vs[1..], vw);
  }

  lemma InterleaveTail<T>(a: seq<T>, b: seq<T>)
    requires |a| == |b| && a != []
    ensures Interleave(a, b) == [a[0], b[0]] + Interleave(a[1..], b[1..])
  {
    hide Interleave;
    var x, y := Interleave(a, b), Interleave(a[1..], b[1..]);
    var r := [a[0], b[0]] + y;
    forall i | 0 <= i < |a| ensures x[2 * i] == r[2 * i] && x[2 * i + 1] == r[2 * i + 1] {
      if i > 0 { assert r[2 * i] == y[2 * (i - 1)] && r[2 * i + 1] == y[2 * (i - 1) + 1]; }
    }
    forall j | 0 <= j < 2 * |a| ensures x[j] == r[j] {
      var i := j / 2;
      assert j == 2 * i || j == 2 * i + 1;
    }
  }

  lemma TwoItems(a: Item, b: Item, rest: seq<Item>)
    ensures CellsLen([a, b] + rest) == a.width + b.width + CellsLen(rest)
    ensures |Payload([a, b] + rest)| == |Spilled(a)| + |Spilled(b)| + |Payload(rest)|
  {
    var items := [a, b] + rest;
    assert items[1..] == [b] + rest && items[1..][1..] == rest;
  }

  lemma {:induction false} PairCost(ks: seq<seq<u32>>, vs: seq<seq<u32>>, kw: nat, vw: nat)
    requires |ks| == |vs| && 1 <= kw <= 3 && 1 <= vw <= 3
    ensures Wide(PairItems(ks, vs, kw, vw))
    ensures CellsLen(PairItems(ks, vs, kw, vw)) == |ks| * (kw + vw)
    ensures CellsLen(PairItems(ks, vs, kw, vw)) + |Payload(PairItems(ks, vs, kw, vw))|
        == Cost(Lens(ks), kw) + Cost(Lens(vs), vw)
  {
    hide Interleave, PairItems, CellsLen, Payload, Cost, Spilled;
    PairWide(ks, vs, kw, vw);
    if ks == [] {
      NoPairs(ks, vs, kw, vw);
    } else {
      PairCost(ks[1..], vs[1..], kw, vw);
      PairTail(ks, vs, kw, vw);
      TwoItems(Item(ks[0], kw), Item(vs[0], vw), PairItems(ks[1..], vs[1..], kw, vw));
      PairSum(ks, vs, kw, vw);
      assert |ks| * (kw + vw) == (kw + vw) + (|ks| - 1) * (kw + vw);
    }
  }

  lemma NoPairs(ks: seq<seq<u32>>, vs: seq<seq<u32>>, kw: nat, vw: nat)
    requires ks == vs == []
    ensures CellsLen(PairItems(ks, vs, kw, vw)) == |Payload(PairItems(ks, vs, kw, vw))| == Cost(Lens(ks), kw)
        == Cost(Lens(vs), vw) == 0
  {
  }

  lemma PairSum(ks: seq<seq<u32>>, vs: seq<seq<u32>>, kw: nat, vw: nat)
    requires |ks| == |vs| && ks != []
    ensures Cost(Lens(ks), kw) == kw + |Spilled(Item(ks[0], kw))| + Cost(Lens(ks[1..]), kw)
    ensures Cost(Lens(vs), vw) == vw + |Spilled(Item(vs[0], vw))| + Cost(Lens(vs[1..]), vw)
  {
    assert Lens(ks)[1..] == Lens(ks[1..]) && Lens(vs)[1..] == Lens(vs[1..]);
  }

  /** The header word with the cell widths in its top four bits. */
  function WidthBits(word: u32, kw: nat, vw: nat): u32
    requires 1 <= kw <= 3 && 1 <= vw <= 3
  {
    Pow4Values();
    OrBelow(word, kw * 0x4000_0000 + vw * 0x1000_0000, 16);
    Or(word, kw * 0x4000_0000 + vw * 0x1000_0000)
  }

  function IndexWords(index: seq<u8>, kw: nat, vw: nat): (words: seq<u32>)
    requires |index| >= 4 && 1 <= kw <= 3 && 1 <= vw <= 3
    ensures |words| == WordSize(|index|)
  {
    var words := Pack(index);
    words[0 := WidthBits(words[0], kw, vw)]
  }

  predicate MapFits(index: seq<u8>, kl: seq<nat>, vl: seq<nat>) {
    WordSize(|index|) + Cost(kl, BestWidth(kl)) + Cost(vl, BestWidth(vl)) < MAX_SIZE
  }

  ghost function MapWords(index: seq<u8>, ks: seq<seq<u32>>, vs: seq<seq<u32>>): (words: seq<u32>)
    requires |index| >= 4 && |ks| == |vs|
    ensures |words| == WordSize(|index|) + Cost(Lens(ks), BestWidth(Lens(ks))) + Cost(Lens(vs), BestWidth(Lens(vs)))
  {
    var kw, vw := BestWidth(Lens(ks)), BestWidth(Lens(vs));
    PairCost(ks, vs, kw, vw);
    IndexWords(index, kw, vw) + Body(PairItems(ks, vs, kw, vw))
  }

  /** What every map encoder leaves behind. */
  ghost predicate MapEncoded(index: seq<u8>, keys: seq<Unit>, values: seq<Unit>, before: seq<u32>, last: nat,
                             unit: Unit, after: seq<u32>) {
    && |index| >= 4 && |keys| == |values|
    && Readable(keys, before) && Readable(values, before) && last <= |before|
    && after == MapWords(index, WordsOf(keys, before), WordsOf(values, before)) + before[|before| - last..]
    && unit == SegmentUnit(last, |after|)
  }

  // An empty map is one inline word: no entries, both widths 1.
  const EMPTY_MAP: seq<u32> := [0x5000_0000]

  method PutMapIndex(index: seq<u8>, kw: nat, vw: nat, buffer: Buffer)
    requires buffer.Valid() && |index| >= 4 && 1 <= kw <= 3 && 1 <= vw <= 3
    modifies buffer.Repr()
    ensures buffer.Valid() && fresh(buffer.Repr() - old(buffer.Repr()))
    ensures buffer.View() == IndexWords(index, kw, vw) + old(buffer.View())
  {
    buffer.PutWords(Pack(index));
    ghost var view := buffer.View();
    buffer.data[buffer.off] := WidthBits(buffer.data[buffer.off], kw, vw);
    assert buffer.View() == view[0 := WidthBits(view[0], kw, vw)];
  }

  // ----- rebuilding

  lemma MapAssembled(index: seq<u8>, ks: seq<seq<u32>>, vs: seq<seq<u32>>, cells: seq<u32>, payloads: seq<u32>,
                     rest: seq<u32>)
    requires |index| >= 4 && |ks| == |vs|
    requires var kw, vw := BestWidth(Lens(ks)), BestWidth(Lens(vs));
             Wide(PairItems(ks, vs, kw, vw)) && Body(PairItems(ks, vs, kw, vw)) == cells + payloads
    ensures IndexWords(index, BestWidth(Lens(ks)), BestWidth(Lens(vs))) + (cells + (payloads + rest))
        == MapWords(index, ks, vs) + rest
  {
    hide Cost, Body, IndexWords, BestWidth, PairItems, Wide, Lens;
    Regroup(IndexWords(index, BestWidth(Lens(ks)), BestWidth(Lens(vs))), cells, payloads, rest);
  }

  lemma Regroup<T>(a: seq<T>, b: seq<T>, c: seq<T>, d: seq<T>)
    ensures a + (b + (c + d)) == (a + (b + c)) + d
  {
  }

  /** The words are in place, so the map is encoded. */
  lemma MapFinished(index: seq<u8>, keys: seq<Unit>, values: seq<Unit>, before: seq<u32>, last: nat, kw: nat, vw: nat,
                    after: seq<u32>)
    requires |index| >= 4 && |keys| == |values| && last <= |before|
    requires Readable(keys, before) && Readable(values, before)
    requires kw == BestWidth(Sizes(keys)) && vw == BestWidth(Sizes(values))
    requires var items := PairItems(WordsOf(keys, before), WordsOf(values, before), kw, vw);
             Wide(items) && after == IndexWords(index, kw, vw) + (Body(items) + before[|before| - last..])
    ensures MapEncoded(index, keys, values, before, last, SegmentUnit(last, |after|), after)
  {
    hide Cost, BestWidth, Body, MapWords, IndexWords, Sizes, PairItems, Wide;
    var ks, vs := WordsOf(keys, before), WordsOf(values, before);
    SizesAreLens(keys, before);
    SizesAreLens(values, before);
    MapAssembled(index, ks, vs, Body(PairItems(ks, vs, kw, vw)), [], before[|before| - last..]);
    assert Body(PairItems(ks, vs, kw, vw)) + ([] + before[|before| - last..])
        == Body(PairItems(ks, vs, kw, vw)) + before[|before| - last..];
  }

  method RebuildMap(ks: seq<seq<u32>>, vs: seq<seq<u32>>, kw: nat, vw: nat)
    returns (cells: seq<u32>, payloads: seq<u32>)
    requires |ks| == |vs| && 1 <= kw <= 3 && 1 <= vw <= 3
    ensures Wide(PairItems(ks, vs, kw, vw)) && Body(PairItems(ks, vs, kw, vw)) == cells + payloads
  {
    hide CellsOf, CellsLen, Payload, Rebuilt, Body, Cost, Interleave, PairItems, Cell, Spilled;
    ghost var items := PairItems(ks, vs, kw, vw);
    PairCost(ks, vs, kw, vw);
    cells, payloads := [], [];
    RebuildStart(items);
    var pairWidth := kw + vw;
    var cellsLen := |ks| * pairWidth;
    var cellStart := 0;
    for i := 0 to |ks|
      invariant |cells| == cellStart && Rebuilt(items, 2 * i, cells, payloads)
    {
      assert items[2 * i] == Item(ks[i], kw) && items[2 * i + 1] == Item(vs[i], vw);
      RebuildStep(items, 2 * i, cells, payloads);
      cells, payloads := AppendItem(Item(ks[i], kw), cellsLen + |payloads| - cellStart, cells, payloads);
      RebuildStep(items, 2 * i + 1, cells, payloads);
      cells, payloads := AppendItem(Item(vs[i], vw), cellsLen + |payloads| - (cellStart + kw), cells, payloads);
      cellStart := cellStart + pairWidth;
    }
    RebuildDone(items, cells, payloads);
  }

  /** Encodes a map from copies of its units, given in position order. */
  method SerializeMapAt(index: seq<u8>, keys: seq<Unit>, values: seq<Unit>, buffer: Buffer,
                        last: nat) returns (unit: Option<Unit>)
    requires buffer.Valid() && |index| >= 4
    modifies buffer.Repr()
    ensures buffer.Valid() && fresh(buffer.Repr() - old(buffer.Repr()))
    ensures |keys| != |values| ==> unit.None?
    ensures |keys| == |values| == 0 ==> unit == Some(InlineUnit(EMPTY_MAP)) && buffer.View() == old(buffer.View())
    ensures |keys| == |values| != 0 ==>
              (unit.Some? <==> Readable(keys, old(buffer.View())) && Readable(values, old(buffer.View()))
                               && last <= |old(buffer.View())| && MapFits(index, Sizes(keys), Sizes(values)))
    ensures unit.Some? && keys != [] ==>
        MapEncoded(index, keys, values, old(buffer.View()), last, unit.value, buffer.View())
  {
    hide Cost, BestWidth, CellsOf, CellsLen, Payload, Body, MapWords, IndexWords, Sizes, PairItems, Buffer.View;
    if |keys| != |values| {
      return None;
    }
    if keys == [] {
      return Some(InlineUnit(EMPTY_MAP));
    }
    var keySize, keyWidth := BestSize(Sizes(keys));
    var valueSize, valueWidth := BestSize(Sizes(values));
    if WordSize(|index|) + keySize + valueSize >= MAX_SIZE {
      return None;
    }
    ghost var view := buffer.View();
    var ks := ReadUnits(keys, buffer);
    var vs := ReadUnits(values, buffer);
    if ks.None? || vs.None? {
      return None;
    }
    SizesAreLens(keys, view);
    SizesAreLens(values, view);
    if last > buffer.Len() {
      return None;
    }
    var encoded := RebuildEncode(index, ks.value, vs.value, keyWidth, valueWidth, buffer, last);
    unit := Some(encoded);
  }

  /** The rebuilding path, once every unit has been copied. */
  method RebuildEncode(index: seq<u8>, ks: seq<seq<u32>>, vs: seq<seq<u32>>, kw: nat, vw: nat, buffer: Buffer,
                       last: nat) returns (unit: Unit)
    requires buffer.Valid() && |index| >= 4 && |ks| == |vs| && last <= |buffer.View()|
    requires kw == BestWidth(Lens(ks)) && vw == BestWidth(Lens(vs))
    modifies buffer.Repr()
    ensures buffer.Valid() && fresh(buffer.Repr() - old(buffer.Repr()))
    ensures buffer.View() == MapWords(index, ks, vs) + old(buffer.View())[|old(buffer.View())| - last..]
    ensures unit == SegmentUnit(last, |buffer.View()|)
  {
    hide Cost, BestWidth, Payload, Body, MapWords, IndexWords, PairItems, Wide, Lens, Buffer.View;
    ghost var view := buffer.View();
    var cells, payloads := RebuildMap(ks, vs, kw, vw);
    PutParts(buffer, last, cells, payloads);
    PutMapIndex(index, kw, vw, buffer);
    unit := SegmentUnit(last, buffer.Len());
    MapAssembled(index, ks, vs, cells, payloads, view[|view| - last..]);
  }

  // ----- compacting in place

  /** Both units of pair i are picked, the value first. */
  method PickPair(key: Unit, value: Unit, buffer: Buffer, tail: nat, kw: nat, vw: nat, i: nat, last: nat,
                  ghost units0: seq<Unit>, ghost units: seq<Unit>, ghost items: seq<Item>, ghost view0: seq<u32>)
    returns (key': Unit, value': Unit, tail': nat)
    requires buffer.Valid() && StandFor(units0, items, view0, last) && 2 * i + 1 < |items|
    requires items[2 * i].width == kw && items[2 * i + 1].width == vw
    requires |units| == |items| && Picked(units0, units, items, view0, buffer.View(), tail, 2 * i + 2, last)
    requires key == units[2 * i] && value == units[2 * i + 1]
    modifies buffer.data
    ensures buffer.Valid()
    ensures Picked(units0, units[2 * i + 1 := value'][2 * i := key'], items, view0, buffer.View(), tail', 2 * i, last)
  {
    hide Payload, Placed, Wide, InOrder, Picked, StandFor, Buffer.View;
    NextFits(units0, units, items, view0, buffer.View(), tail, 2 * i + 1, last);
    value', tail' := PickUnit(value, buffer, tail, vw);
    PickStep(units0, units, items, view0, old(buffer.View()), tail, 2 * i + 1, last, value', buffer.View(), tail');
    ghost var units1, view1, tail1 := units[2 * i + 1 := value'], buffer.View(), tail';
    NextFits(units0, units1, items, view0, view1, tail1, 2 * i, last);
    key', tail' := PickUnit(key, buffer, tail', kw);
    PickStep(units0, units1, items, view0, view1, tail1, 2 * i, last, key', buffer.View(), tail');
  }

  /** The next unit meets the requirements of PickUnit. */
  lemma NextFits(units0: seq<Unit>, units: seq<Unit>, items: seq<Item>, view0: seq<u32>, view: seq<u32>, tail: nat,
                 k: nat, last: nat)
    requires StandFor(units0, items, view0, last) && k < |items| == |units|
    requires Picked(units0, units, items, view0, view, tail, k + 1, last)
    ensures units[k].Valid() && !units[k].IsEmpty() && 1 <= items[k].width <= 3
        && |units[k].inlineWords| <= items[k].width
    ensures tail <= |view|
    ensures units[k].IsSegment() ==>
        Inside(units[k].segment, |view|) && |view| - units[k].segment.pos + units[k].segment.len <= tail
    ensures UnitWords(units[k], view) == items[k].words
  {
    NextUntouched(units0, units, items, view0, view, tail, k, last);
  }

  method MarkPair(key: Unit, value: Unit, buffer: Buffer, kw: nat, vw: nat, i: nat, ghost items: seq<Item>,
                  ghost rest: seq<u32>)
    requires buffer.Valid() && 2 * i + 1 < |items| && Marked(items, buffer.View(), 2 * i + 2, rest)
    requires items[2 * i].width == kw && items[2 * i + 1].width == vw
    requires items[2 * i].words != [] && items[2 * i + 1].words != [] && Wide(items)
    requires Placed(key, items, 2 * i, |rest|) && Placed(value, items, 2 * i + 1, |rest|)
    modifies buffer.Repr()
    ensures buffer.Valid() && fresh(buffer.Repr() - old(buffer.Repr()))
    ensures Marked(items, buffer.View(), 2 * i, rest)
  {
    hide Placed, Marked, CellFor, Buffer.View;
    MarkStep(items, buffer.View(), 2 * i + 1, rest, value);
    MarkUnit(value, buffer, vw);
    MarkStep(items, buffer.View(), 2 * i, rest, key);
    MarkUnit(key, buffer, kw);
  }

  lemma InterleaveUpdate<T>(ks: seq<T>, vs: seq<T>, i: nat, k: T, v: T)
    requires |ks| == |vs| && i < |ks|
    ensures Interleave(ks[i := k], vs[i := v]) == Interleave(ks, vs)[2 * i + 1 := v][2 * i := k]
  {
  }

  method PickMap(keys: array<Unit>, values: array<Unit>, buffer: Buffer, last: nat, kw: nat, vw: nat,
                 ghost items: seq<Item>)
    returns (tail: nat)
    requires buffer.Valid() && keys != values && keys.Length == values.Length
    requires StandFor(Interleave(keys[..], values[..]), items, buffer.View(), last)
    requires forall i :: 0 <= i < keys.Length ==> items[2 * i].width == kw && items[2 * i + 1].width == vw
    modifies buffer.data, keys, values
    ensures buffer.Valid()
    ensures Picked(old(Interleave(keys[..], values[..])), Interleave(keys[..], values[..]), items,
        old(buffer.View()), buffer.View(), tail, 0, last)
  {
    hide Payload, Placed, StandFor, Picked, Interleave, Buffer.View;
    ghost var units0, view0 := Interleave(keys[..], values[..]), buffer.View();
    StandsLong(units0, items, view0, last);
    tail := buffer.Len() - last;
    PickStart(units0, items, view0, last);
    var i := keys.Length;
    while i > 0
      invariant 0 <= i <= keys.Length && buffer.Valid()
      invariant Picked(units0, Interleave(keys[..], values[..]), items, view0, buffer.View(), tail, 2 * i, last)
    {
      i := i - 1;
      ghost var ks, vs := keys[..], values[..];
      var k, v;
      k, v, tail := PickPair(keys[i], values[i], buffer, tail, kw, vw, i, last, units0, Interleave(ks, vs), items,
          view0);
      keys[i] := k;
      values[i] := v;
      InterleaveUpdate(ks, vs, i, k, v);
      assert keys[..] == ks[i := k] && values[..] == vs[i := v];
    }
  }

  lemma StandsLong(units: seq<Unit>, items: seq<Item>, view: seq<u32>, last: nat)
    requires StandFor(units, items, view, last)
    ensures |items| == |units| && last <= |view|
  {
  }

  method MarkMap(keys: array<Unit>, values: array<Unit>, buffer: Buffer, kw: nat, vw: nat, ghost items: seq<Item>,
                 ghost rest: seq<u32>)
    requires buffer.Valid() && keys.Length == values.Length && |items| == 2 * keys.Length && Wide(items)
    requires forall i :: 0 <= i < keys.Length ==> items[2 * i].width == kw && items[2 * i + 1].width == vw
    requires forall i :: 0 <= i < |items| ==> items[i].words != []
    requires buffer.View() == Payload(items) + rest
    requires forall i :: 0 <= i < keys.Length ==>
        Placed(keys[i], items, 2 * i, |rest|) && Placed(values[i], items, 2 * i + 1, |rest|)
    modifies buffer.Repr()
    ensures buffer.Valid() && fresh(buffer.Repr() - old(buffer.Repr()))
    ensures buffer.View() == Body(items) + rest
  {
    hide CellsOf, CellsLen, Payload, Marked, Placed, Buffer.View;
    ghost var ks, vs := keys[..], values[..];
    assert forall j :: 0 <= j < keys.Length ==>
        Placed(ks[j], items, 2 * j, |rest|) && Placed(vs[j], items, 2 * j + 1, |rest|);
    MarkStart(items, buffer.View(), rest);
    var i := keys.Length;
    while i > 0
      invariant 0 <= i <= keys.Length && buffer.Valid() && fresh(buffer.Repr() - old(buffer.Repr()))
      invariant keys[..] == ks && values[..] == vs && Marked(items, buffer.View(), 2 * i, rest)
    {
      i := i - 1;
      assert ks[i] == keys[i] && vs[i] == values[i];
      MarkPair(keys[i], values[i], buffer, kw, vw, i, items, rest);
    }
    MarkDone(items, buffer.View(), rest);
  }

  lemma PlacedPairs(ks: seq<Unit>, vs: seq<Unit>, items: seq<Item>, last: nat)
    requires |ks| == |vs| && |items| == 2 * |ks|
    requires forall j {:trigger Placed(Interleave(ks, vs)[j], items, j, last)} :: 0 <= j < |items| ==>
        Placed(Interleave(ks, vs)[j], items, j, last)
    ensures forall i :: 0 <= i < |ks| ==> Placed(ks[i], items, 2 * i, last) && Placed(vs[i], items, 2 * i + 1, last)
  {
    forall i | 0 <= i < |ks| ensures Placed(ks[i], items, 2 * i, last) && Placed(vs[i], items, 2 * i + 1, last) {
      assert Placed(Interleave(ks, vs)[2 * i], items, 2 * i, last);
      assert Placed(Interleave(ks, vs)[2 * i + 1], items, 2 * i + 1, last);
    }
  }

  method CompactMap(keys: array<Unit>, values: array<Unit>, buffer: Buffer, last: nat, kw: nat, vw: nat,
                    ghost items: seq<Item>)
    requires buffer.Valid() && keys != values && keys.Length == values.Length
    requires StandFor(Interleave(keys[..], values[..]), items, buffer.View(), last)
    requires forall i :: 0 <= i < keys.Length ==> items[2 * i].width == kw && items[2 * i + 1].width == vw
    modifies buffer.Repr(), keys, values
    ensures buffer.Valid() && fresh(buffer.Repr() - old(buffer.Repr()))
    ensures Wide(items) && buffer.View() == Body(items) + old(buffer.View())[|old(buffer.View())| - last..]
  {
    hide CellsOf, CellsLen, Payload, Placed, StandFor, Picked, Interleave, Body, Buffer.View;
    ghost var units0, view0 := Interleave(keys[..], values[..]), buffer.View();
    var tail := PickMap(keys, values, buffer, last, kw, vw, items);
    PickDone(units0, Interleave(keys[..], values[..]), items, view0, buffer.View(), tail, last);
    PlacedPairs(keys[..], values[..], items, last);
    buffer.Shrink(tail);
    ghost var rest := view0[|view0| - last..];
    assert forall i :: 0 <= i < keys.Length ==>
        Placed(keys[..][i], items, 2 * i, |rest|) && Placed(values[..][i], items, 2 * i + 1, |rest|);
    MarkMap(keys, values, buffer, kw, vw, items, rest);
  }

  lemma MapStands(keys: seq<Unit>, values: seq<Unit>, view: seq<u32>, last: nat, kw: nat, vw: nat)
    requires |keys| == |values| && last <= |view| && InOrder(Interleave(keys, values), |view|, last)
    requires 1 <= kw <= 3 && 1 <= vw <= 3
    requires forall i :: 0 <= i < |keys| ==> |keys[i].inlineWords| <= kw && |values[i].inlineWords| <= vw
    ensures Readable(keys, view) && Readable(values, view)
    ensures StandFor(Interleave(keys, values), PairItems(WordsOf(keys, view), WordsOf(values, view), kw, vw), view,
        last)
  {
    hide CellsLen, Payload, Cost, InOrder;
    MapReadable(keys, values, view, last);
    var units, items := Interleave(keys, values), PairItems(WordsOf(keys, view), WordsOf(values, view), kw, vw);
    PairCost(WordsOf(keys, view), WordsOf(values, view), kw, vw);
    forall j | 0 <= j < |units|
        ensures items[j].words == UnitWords(units[j], view) && |units[j].inlineWords| <= items[j].width {
      var i := j / 2;
      assert j == 2 * i || j == 2 * i + 1;
    }
  }

  lemma MapReadable(keys: seq<Unit>, values: seq<Unit>, view: seq<u32>, last: nat)
    requires |keys| == |values| && InOrder(Interleave(keys, values), |view|, last)
    ensures Readable(keys, view) && Readable(values, view)
  {
    var units := Interleave(keys, values);
    forall i | 0 <= i < |keys|
      ensures keys[i].IsSegment() ==> Inside(keys[i].segment, |view|)
      ensures values[i].IsSegment() ==> Inside(values[i].segment, |view|)
    {
      assert units[2 * i] == keys[i] && units[2 * i + 1] == values[i];
    }
  }

  /** Encodes a map by compacting its segments in place, unless a folded value needs repacking. */
  method SerializeMapAtMut(index: seq<u8>, keys: array<Unit>, values: array<Unit>, buffer: Buffer,
                           last: nat) returns (unit: Option<Unit>)
    requires buffer.Valid() && |index| >= 4 && keys != values
    requires keys.Length == values.Length ==> InOrder(Interleave(keys[..], values[..]), |buffer.View()|, last)
    modifies buffer.Repr(), keys, values
    ensures buffer.Valid() && fresh(buffer.Repr() - old(buffer.Repr()))
    ensures keys.Length != values.Length ==> unit.None?
    ensures keys.Length == values.Length == 0 ==>
        unit == Some(InlineUnit(EMPTY_MAP)) && buffer.View() == old(buffer.View())
    ensures keys.Length == values.Length != 0 ==>
              (unit.Some? <==> last <= |old(buffer.View())| && MapFits(index, Sizes(old(keys[..])),
                  Sizes(old(values[..]))))
    ensures unit.Some? && keys.Length != 0 ==>
              MapEncoded(index, old(keys[..]), old(values[..]), old(buffer.View()), last, unit.value, buffer.View())
  {
    hide Cost, BestWidth, CellsOf, CellsLen, Payload, Body, MapWords, IndexWords, Sizes, PairItems, Interleave, InOrder,
         StandFor, AnyWider, Buffer.View;
    if keys.Length != values.Length {
      return None;
    }
    if keys.Length == 0 {
      return Some(InlineUnit(EMPTY_MAP));
    }
    ghost var ks0, vs0, view0 := keys[..], values[..], buffer.View();
    MapReadable(ks0, vs0, view0, last);
    var keySize, keyWidth := BestSize(Sizes(keys[..]));
    var valueSize, valueWidth := BestSize(Sizes(values[..]));
    if WordSize(|index|) + keySize + valueSize >= MAX_SIZE {
      return None;
    }
    if AnyWider(keys[..], keyWidth) || AnyWider(values[..], valueWidth) {
      unit := SerializeMapAt(index, keys[..], values[..], buffer, last);
      return;
    }
    if last > buffer.Len() {
      return None;
    }
    NoneWider(ks0, keyWidth);
    NoneWider(vs0, valueWidth);
    var encoded := CompactEncodeMap(index, keys, values, buffer, last, keyWidth, valueWidth);
    unit := Some(encoded);
  }

  /** The in-place path for keys and values. */
  method CompactEncodeMap(index: seq<u8>, keys: array<Unit>, values: array<Unit>, buffer: Buffer, last: nat, kw: nat,
                          vw: nat)
    returns (unit: Unit)
    requires buffer.Valid() && |index| >= 4 && keys != values && keys.Length == values.Length
    requires InOrder(Interleave(keys[..], values[..]), |buffer.View()|, last) && last <= |buffer.View()|
    requires kw == BestWidth(Sizes(keys[..])) && vw == BestWidth(Sizes(values[..]))
    requires forall i :: 0 <= i < keys.Length ==> |keys[i].inlineWords| <= kw && |values[i].inlineWords| <= vw
    modifies buffer.Repr(), keys, values
    ensures buffer.Valid() && fresh(buffer.Repr() - old(buffer.Repr()))
    ensures MapEncoded(index, old(keys[..]), old(values[..]), old(buffer.View()), last, unit, buffer.View())
  {
    hide BestWidth, Body, IndexWords, Sizes, PairItems, Interleave, InOrder, StandFor, MapEncoded, Readable,
         Buffer.View;
    ghost var ks0, vs0, view0 := keys[..], values[..], buffer.View();
    MapStands(ks0, vs0, view0, last, kw, vw);
    CompactMap(keys, values, buffer, last, kw, vw, PairItems(WordsOf(ks0, view0), WordsOf(vs0, view0), kw, vw));
    PutMapIndex(index, kw, vw, buffer);
    unit := SegmentUnit(last, buffer.Len());
    MapFinished(index, ks0, vs0, view0, last, kw, vw, buffer.View());
  }

  // ----- the same on an array of pairs

  function Keys(pairs: seq<(Unit, Unit)>): (ks: seq<Unit>)
    ensures |ks| == |pairs|
    ensures forall i :: 0 <= i < |pairs| ==> ks[i] == pairs[i].0
  {
    seq(|pairs|, i requires 0 <= i < |pairs| => pairs[i].0)
  }

  function Values(pairs: seq<(Unit, Unit)>): (vs: seq<Unit>)
    ensures |vs| == |pairs|
    ensures forall i :: 0 <= i < |pairs| ==> vs[i] == pairs[i].1
  {
    seq(|pairs|, i requires 0 <= i < |pairs| => pairs[i].1)
  }

  ghost function Flat(pairs: seq<(Unit, Unit)>): (units: seq<Unit>)
    ensures |units| == 2 * |pairs|
  {
    Interleave(Keys(pairs), Values(pairs))
  }

  lemma FlatIs(pairs: seq<(Unit, Unit)>)
    ensures Flat(pairs) == Interleave(Keys(pairs), Values(pairs))
  {
  }

  lemma FlatUpdate(pairs: seq<(Unit, Unit)>, i: nat, k: Unit, v: Unit)
    requires i < |pairs|
    ensures Flat(pairs[i := (k, v)]) == Flat(pairs)[2 * i + 1 := v][2 * i := k]
    ensures Flat(pairs)[2 * i] == pairs[i].0 && Flat(pairs)[2 * i + 1] == pairs[i].1
  {
    hide Interleave;
    InterleaveUpdate(Keys(pairs), Values(pairs), i, k, v);
    assert Keys(pairs[i := (k, v)]) == Keys(pairs)[i := k];
    assert Values(pairs[i := (k, v)]) == Values(pairs)[i := v];
  }

  method PickPairs(pairs: array<(Unit, Unit)>, buffer: Buffer, last: nat, kw: nat, vw: nat, ghost items: seq<Item>)
    returns (tail: nat)
    requires buffer.Valid() && StandFor(Flat(pairs[..]), items, buffer.View(), last)
    requires forall i :: 0 <= i < pairs.Length ==> items[2 * i].width == kw && items[2 * i + 1].width == vw
    modifies buffer.data, pairs
    ensures buffer.Valid()
    ensures Picked(old(Flat(pairs[..])), Flat(pairs[..]), items, old(buffer.View()), buffer.View(), tail, 0, last)
  {
    hide Payload, Placed, StandFor, Picked, Flat, Buffer.View;
    ghost var units0, view0 := Flat(pairs[..]), buffer.View();
    StandsLong(units0, items, view0, last);
    tail := buffer.Len() - last;
    PickStart(units0, items, view0, last);
    var i := pairs.Length;
    while i > 0
      invariant 0 <= i <= pairs.Length && buffer.Valid()
      invariant Picked(units0, Flat(pairs[..]), items, view0, buffer.View(), tail, 2 * i, last)
    {
      i := i - 1;
      ghost var ps := pairs[..];
      var (key, value) := pairs[i];
      FlatUpdate(ps, i, key, value);
      var k, v;
      k, v, tail := PickPair(key, value, buffer, tail, kw, vw, i, last, units0, Flat(ps), items, view0);
      pairs[i] := (k, v);
      FlatUpdate(ps, i, k, v);
      assert pairs[..] == ps[i := (k, v)];
    }
  }

  method MarkPairs(pairs: array<(Unit, Unit)>, buffer: Buffer, kw: nat, vw: nat, ghost items: seq<Item>,
                   ghost rest: seq<u32>)
    requires buffer.Valid() && |items| == 2 * pairs.Length && Wide(items)
    requires forall i :: 0 <= i < pairs.Length ==> items[2 * i].width == kw && items[2 * i + 1].width == vw
    requires forall i :: 0 <= i < |items| ==> items[i].words != []
    requires buffer.View() == Payload(items) + rest
    requires forall i :: 0 <= i < pairs.Length ==>
        Placed(pairs[i].0, items, 2 * i, |rest|) && Placed(pairs[i].1, items, 2 * i + 1, |rest|)
    modifies buffer.Repr()
    ensures buffer.Valid() && fresh(buffer.Repr() - old(buffer.Repr()))
    ensures buffer.View() == Body(items) + rest
  {
    hide CellsOf, CellsLen, Payload, Marked, Placed, Buffer.View;
    ghost var ps := pairs[..];
    assert forall j :: 0 <= j < pairs.Length ==>
        Placed(ps[j].0, items, 2 * j, |rest|) && Placed(ps[j].1, items, 2 * j + 1, |rest|);
    MarkStart(items, buffer.View(), rest);
    var i := pairs.Length;
    while i > 0
      invariant 0 <= i <= pairs.Length && buffer.Valid() && fresh(buffer.Repr() - old(buffer.Repr()))
      invariant pairs[..] == ps && Marked(items, buffer.View(), 2 * i, rest)
    {
      i := i - 1;
      assert ps[i] == pairs[i];
      var (key, value) := pairs[i];
      MarkPair(key, value, buffer, kw, vw, i, items, rest);
    }
    MarkDone(items, buffer.View(), rest);
  }

  lemma PlacedUnits(ps: seq<(Unit, Unit)>, items: seq<Item>, last: nat)
    requires |items| == 2 * |ps|
    requires forall i :: 0 <= i < |ps| ==>
        Placed(Keys(ps)[i], items, 2 * i, last) && Placed(Values(ps)[i], items, 2 * i + 1, last)
    ensures forall i :: 0 <= i < |ps| ==> Placed(ps[i].0, items, 2 * i, last) && Placed(ps[i].1, items, 2 * i + 1, last)
  {
    hide Placed;
    forall i | 0 <= i < |ps| ensures Placed(ps[i].0, items, 2 * i, last) && Placed(ps[i].1, items, 2 * i + 1, last) {
      assert Keys(ps)[i] == ps[i].0 && Values(ps)[i] == ps[i].1;
    }
  }

  method CompactPairs(pairs: array<(Unit, Unit)>, buffer: Buffer, last: nat, kw: nat, vw: nat, ghost items: seq<Item>)
    requires buffer.Valid() && StandFor(Flat(pairs[..]), items, buffer.View(), last)
    requires forall i :: 0 <= i < pairs.Length ==> items[2 * i].width == kw && items[2 * i + 1].width == vw
    modifies buffer.Repr(), pairs
    ensures buffer.Valid() && fresh(buffer.Repr() - old(buffer.Repr()))
    ensures Wide(items) && buffer.View() == Body(items) + old(buffer.View())[|old(buffer.View())| - last..]
  {
    hide CellsOf, CellsLen, Payload, Placed, StandFor, Picked, Interleave, Body, Flat, Keys, Values, Wide, Buffer.View;
    ghost var units0, view0 := Flat(pairs[..]), buffer.View();
    var tail := PickPairs(pairs, buffer, last, kw, vw, items);
    PickDone(units0, Flat(pairs[..]), items, view0, buffer.View(), tail, last);
    FlatIs(pairs[..]);
    ghost var ps := pairs[..];
    PlacedPairs(Keys(ps), Values(ps), items, last);
    PlacedUnits(ps, items, last);
    buffer.Shrink(tail);
    MarkPairs(pairs, buffer, kw, vw, items, view0[|view0| - last..]);
  }

  method SerializeMapPairsAtMut(index: seq<u8>, pairs: array<(Unit, Unit)>, buffer: Buffer,
                                last: nat) returns (unit: Option<Unit>)
    requires buffer.Valid() && |index| >= 4
    requires InOrder(Flat(pairs[..]), |buffer.View()|, last)
    modifies buffer.Repr(), pairs
    ensures buffer.Valid() && fresh(buffer.Repr() - old(buffer.Repr()))
    ensures pairs.Length == 0 ==> unit == Some(InlineUnit(EMPTY_MAP)) && buffer.View() == old(buffer.View())
    ensures pairs.Length != 0 ==>
              (unit.Some? <==> last <= |old(buffer.View())| && MapFits(index, Sizes(Keys(old(pairs[..]))),
                  Sizes(Values(old(pairs[..])))))
    ensures unit.Some? && pairs.Length != 0 ==>
              MapEncoded(index, Keys(old(pairs[..])), Values(old(pairs[..])), old(buffer.View()), last, unit.value,
                  buffer.View())
  {
    hide Cost, BestWidth, CellsOf, CellsLen, Payload, Body, MapWords, IndexWords, Sizes, PairItems, Interleave, InOrder,
         StandFor, AnyWider, Buffer.View;
    if pairs.Length == 0 {
      return Some(InlineUnit(EMPTY_MAP));
    }
    var keys, values := Keys(pairs[..]), Values(pairs[..]);
    ghost var view0 := buffer.View();
    MapReadable(keys, values, view0, last);
    var keySize, keyWidth := BestSize(Sizes(keys));
    var valueSize, valueWidth := BestSize(Sizes(values));
    if WordSize(|index|) + keySize + valueSize >= MAX_SIZE {
      return None;
    }
    if AnyWider(keys, keyWidth) || AnyWider(values, valueWidth) {
      unit := SerializeMapAt(index, keys, values, buffer, last);
      return;
    }
    if last > buffer.Len() {
      return None;
    }
    NoneWider(keys, keyWidth);
    NoneWider(values, valueWidth);
    var encoded := CompactEncodePairs(index, pairs, buffer, last, keyWidth, valueWidth);
    unit := Some(encoded);
  }

  /** The in-place path for pairs. */
  method CompactEncodePairs(index: seq<u8>, pairs: array<(Unit, Unit)>, buffer: Buffer, last: nat, kw: nat, vw: nat)
    returns (unit: Unit)
    requires buffer.Valid() && |index| >= 4
    requires InOrder(Flat(pairs[..]), |buffer.View()|, last) && last <= |buffer.View()|
    requires kw == BestWidth(Sizes(Keys(pairs[..]))) && vw == BestWidth(Sizes(Values(pairs[..])))
    requires forall i :: 0 <= i < pairs.Length ==>
        |Keys(pairs[..])[i].inlineWords| <= kw && |Values(pairs[..])[i].inlineWords| <= vw
    modifies buffer.Repr(), pairs
    ensures buffer.Valid() && fresh(buffer.Repr() - old(buffer.Repr()))
    ensures MapEncoded(index, Keys(old(pairs[..])), Values(old(pairs[..])), old(buffer.View()), last, unit,
        buffer.View())
  {
    hide BestWidth, Body, IndexWords, Sizes, PairItems, Interleave, InOrder, StandFor, MapEncoded, Readable,
         Buffer.View;
    ghost var ks0, vs0, view0 := Keys(pairs[..]), Values(pairs[..]), buffer.View();
    MapStands(ks0, vs0, view0, last, kw, vw);
    FlatIs(pairs[..]);
    hide Flat;
    CompactPairs(pairs, buffer, last, kw, vw, PairItems(WordsOf(ks0, view0), WordsOf(vs0, view0), kw, vw));
    PutMapIndex(index, kw, vw, buffer);
    unit := SegmentUnit(last, buffer.Len());
    MapFinished(index, ks0, vs0, view0, last, kw, vw, buffer.View());
  }
}
