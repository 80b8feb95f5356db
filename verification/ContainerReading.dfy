/** Arrays and maps read back through the views, whatever words follow them. */
module ContainerReading {
  import opened Bits
  import opened Wrappers
  import opened Packing
  import opened Cells
  import opened PerfectHash
  import opened Peeling
  import opened Views
  import C = Containers
  import opened MapContainers

  /** The field shows an item of these words: in its cell, or behind a pointer. */
  ghost predicate ShowsItem(field: FieldView, words: seq<u32>) {
    field.width >= 1 && Shows(field.tail, Item(words, field.width))
  }

  // ----- arrays

  lemma {:induction false} UniformPrefix(ws: seq<seq<u32>>, width: nat, i: nat)
    requires i <= |ws|
    ensures CellsLen(ItemsOf(ws, width)[..i]) == i * width
  {
    if i > 0 {
      UniformPrefix(ws[1..], width, i - 1);
      assert ItemsOf(ws, width)[..i][1..] == ItemsOf(ws[1..], width)[..i - 1];
      assert i * width == width + (i - 1) * width;
    } else {
      assert ItemsOf(ws, width)[..0] == [];
    }
  }

  predicate ArrayFits(ws: seq<seq<u32>>) {
    ws != [] && Cost(Lens(ws), BestWidth(Lens(ws))) < C.MAX_SIZE
  }

  lemma ArrayHead(ws: seq<seq<u32>>, suffix: seq<u32>)
    requires ArrayFits(ws)
    ensures var words := C.ArrayWords(ws) + suffix;
            && words[0] / 4 == |ws| && words[0] % 4 == BestWidth(Lens(ws))
            && |words| - 1 >= |ws| * BestWidth(Lens(ws))
            && Wide(ItemsOf(ws, BestWidth(Lens(ws))))
            && words[1..] == Body(ItemsOf(ws, BestWidth(Lens(ws)))) + suffix
            && |Body(ItemsOf(ws, BestWidth(Lens(ws))))| < C.MAX_SIZE
  {
    hide Cost, BestWidth, Body;
    BodyCost(ws, BestWidth(Lens(ws)));
  }

  /** Every element's cell or resolved pointer yields its unit's words. */
  lemma ArrayReads(ws: seq<seq<u32>>, suffix: seq<u32>)
    requires ArrayFits(ws)
    ensures var view := NewArray(C.ArrayWords(ws) + suffix);
            && view.Some? && view.value.len == |ws| && view.value.width == BestWidth(Lens(ws))
            && forall i :: 0 <= i < |ws| ==>
                 var field := view.value.Field(i);
                 field.Some? && field.value.width == view.value.width && ShowsItem(field.value, ws[i])
  {
    hide Cost, BestWidth, Body, CellsLen;
    ArrayHead(ws, suffix);
    var width := BestWidth(Lens(ws));
    var items := ItemsOf(ws, width);
    var words := C.ArrayWords(ws) + suffix;
    forall i | 0 <= i < |ws|
      ensures var field := ArrayView(words[1..], |ws|, width).Field(i);
              field.Some? && field.value.width == width && ShowsItem(field.value, ws[i])
    {
      BodyShows(items, suffix, i);
      UniformPrefix(ws, width, i);
    }
  }

  /** Arrays of L-word elements, L in 1..3, have width L, as scalar arrays require. */
  lemma ScalarArrayWidth(ws: seq<seq<u32>>, len: nat, suffix: seq<u32>)
    requires ArrayFits(ws) && 1 <= len <= 3 && forall i :: 0 <= i < |ws| ==> |ws[i]| == len
    ensures NewArray(C.ArrayWords(ws) + suffix).Some? && NewArray(C.ArrayWords(ws) + suffix).value.width == len
  {
    UniformWidth(Lens(ws), len);
    ArrayReads(ws, suffix);
  }

  // ----- maps

  lemma {:induction false} PairPrefix(ks: seq<seq<u32>>, vs: seq<seq<u32>>, kw: nat, vw: nat, i: nat)
    requires |ks| == |vs| && i < |ks|
    ensures CellsLen(PairItems(ks, vs, kw, vw)[..2 * i]) == i * (kw + vw)
    ensures CellsLen(PairItems(ks, vs, kw, vw)[..2 * i + 1]) == i * (kw + vw) + kw
    decreases i
  {
    hide CellsLen, Interleave, PairItems;
    var items := PairItems(ks, vs, kw, vw);
    if i == 0 {
      NothingBefore(items);
    } else {
      PairPrefix(ks, vs, kw, vw, i - 1);
      CellsPrefix(items, 2 * (i - 1) + 1);
      assert items[2 * (i - 1) + 1] == Item(vs[i - 1], vw);
      Distribute(i, kw + vw);
    }
    assert items[2 * i] == Item(ks[i], kw);
    CellsPrefix(items, 2 * i);
  }

  lemma Distribute(i: nat, w: nat)
    requires i >= 1
    ensures i * w == (i - 1) * w + w
  {
  }

  lemma IndexHead(index: seq<u8>, n: nat, kw: nat, vw: nat)
    requires |index| >= 4 && 1 <= kw <= 3 && 1 <= vw <= 3 && LeNat(index[..4]) == n < MAX_KEYS
    ensures IndexWords(index, kw, vw)[0] == n + 0x1000_0000 * (4 * kw + vw)
  {
    hide Or, LeNat;
    LeFour(index[0], index[1], index[2], index[3]);
    assert index[..4] == [index[0], index[1], index[2], index[3]];
    assert PackWord(index, 0) == n;
    assert Pow2(8) == 256;
    assert Pow4(14) == 0x1000_0000 by { Pow4Values(); Pow4Add(2, 12); assert Pow4(2) == 16; }
    Pow4Pow2(14);
    OrDisjoint(n, 4 * kw + vw, 28);
  }

  /** The bytes of a map carry its index, whatever the width bits and the words behind. */
  lemma MapCarriesIndex(index: seq<u8>, n: nat, kw: nat, vw: nat, rest: seq<u32>)
    requires |index| >= 4 && 1 <= kw <= 3 && 1 <= vw <= 3 && LeNat(index[..4]) == n < MAX_KEYS
    ensures Carries(BytesOfWords(IndexWords(index, kw, vw) + rest), index)
  {
    hide LeNat, WordBytes, BytesOfWords, IndexWords;
    var words, packed := IndexWords(index, kw, vw), Pack(index);
    IndexHead(index, n, kw, vw);
    PackUnpack(index);
    SplitFirst(index, kw, vw);
    var tail := packed[1..];
    BytesOfAppend([packed[0]], tail);
    BytesOfAppend([words[0]], tail);
    BytesOfAppend(words, rest);
    OneWord(packed[0]);
    OneWord(words[0]);
    var data := BytesOfWords(words + rest);
    assert data == WordBytes(words[0]) + BytesOfWords(tail) + BytesOfWords(rest);
    assert BytesOfWords(packed) == WordBytes(packed[0]) + BytesOfWords(tail);
    assert BytesOfWords(tail)[..|index| - 4] == BytesOfWords(packed)[..|index|][4..] == index[4..];
    assert data[4..|index|] == BytesOfWords(tail)[..|index| - 4];
    WordOfBytes(words[0]);
    assert data[..4] == WordBytes(words[0]);
  }

  lemma SplitFirst(index: seq<u8>, kw: nat, vw: nat)
    requires |index| >= 4 && 1 <= kw <= 3 && 1 <= vw <= 3
    ensures Pack(index) == [Pack(index)[0]] + Pack(index)[1..]
    ensures IndexWords(index, kw, vw) == [IndexWords(index, kw, vw)[0]] + Pack(index)[1..]
  {
  }

  lemma OneWord(w: u32)
    ensures BytesOfWords([w]) == WordBytes(w)
  {
  }

  ghost predicate MapSized(index: seq<u8>, ks: seq<seq<u32>>, vs: seq<seq<u32>>) {
    && |ks| == |vs| && |index| >= 4
    && WordSize(|index|) + Cost(Lens(ks), BestWidth(Lens(ks))) + Cost(Lens(vs), BestWidth(Lens(vs))) < C.MAX_SIZE
  }

  lemma MapFront(index: seq<u8>, ks: seq<seq<u32>>, vs: seq<seq<u32>>, suffix: seq<u32>)
    requires |index| >= 4 && |ks| == |vs|
    ensures var kw, vw := BestWidth(Lens(ks)), BestWidth(Lens(vs));
            && Wide(PairItems(ks, vs, kw, vw))
            && MapWords(index, ks, vs) + suffix
                == IndexWords(index, kw, vw) + (Body(PairItems(ks, vs, kw, vw)) + suffix)
  {
    hide Cost, BestWidth, Body, IndexWords, PairItems;
    PairCost(ks, vs, BestWidth(Lens(ks)), BestWidth(Lens(vs)));
  }

  lemma MapHead(index: seq<u8>, ks: seq<seq<u32>>, vs: seq<seq<u32>>, suffix: seq<u32>)
    requires MapSized(index, ks, vs) && LeNat(index[..4]) == |ks| < MAX_KEYS
    ensures var words, kw, vw := MapWords(index, ks, vs) + suffix, BestWidth(Lens(ks)), BestWidth(Lens(vs));
            && words[0] / 0x4000_0000 % 4 == kw && words[0] / 0x1000_0000 % 4 == vw
            && Carries(BytesOfWords(words), index)
            && Wide(PairItems(ks, vs, kw, vw))
            && WordSize(|index|) + |ks| * (kw + vw) <= |words|
            && words[WordSize(|index|)..] == Body(PairItems(ks, vs, kw, vw)) + suffix
            && |Body(PairItems(ks, vs, kw, vw))| < C.MAX_SIZE
  {
    hide Cost, BestWidth, Body, LeNat, BytesOfWords, IndexWords, PairItems, Carries, MapWords;
    var kw, vw := BestWidth(Lens(ks)), BestWidth(Lens(vs));
    PairCost(ks, vs, kw, vw);
    IndexHead(index, |ks|, kw, vw);
    var body := Body(PairItems(ks, vs, kw, vw));
    MapCarriesIndex(index, |ks|, kw, vw, body + suffix);
    MapFront(index, ks, vs, suffix);
  }

  /** The view over an encoded map, whatever words follow: every stored pair shows its key and its
      value, and the index finds the position of every key. */
  ghost predicate MapShows(view: MapView, hash: Hash, index: seq<u8>, ks: seq<seq<u32>>, vs: seq<seq<u32>>,
                           keyBytes: seq<seq<u8>>, positions: seq<nat>)
    requires |ks| == |vs| == |keyBytes| == |positions|
  {
    && view.index.len == |ks|
    && view.keyWidth == BestWidth(Lens(ks)) && view.valueWidth == BestWidth(Lens(vs))
    && view.totalWords == WordSize(|index|) + |ks| * (view.keyWidth + view.valueWidth)
    && (forall i :: 0 <= i < |ks| ==>
          && view.Key(i).Some? && view.Key(i).value.width == view.keyWidth && ShowsItem(view.Key(i).value, ks[i])
          && view.Value(i).Some? && view.Value(i).value.width == view.valueWidth
          && ShowsItem(view.Value(i).value, vs[i]))
    && (forall i :: 0 <= i < |ks| ==> Locate(view.index, hash, keyBytes[i]) == Some(positions[i]))
  }

  lemma PairShows(ks: seq<seq<u32>>, vs: seq<seq<u32>>, kw: nat, vw: nat, suffix: seq<u32>, view: MapView, i: nat)
    requires |ks| == |vs| && i < |ks| && Wide(PairItems(ks, vs, kw, vw))
        && |Body(PairItems(ks, vs, kw, vw))| < C.MAX_SIZE
    requires view.body == Body(PairItems(ks, vs, kw, vw)) + suffix
    requires view.index.len == |ks| && view.keyWidth == kw && view.valueWidth == vw
    ensures view.Key(i).Some? && view.Key(i).value.width == kw && kw >= 1 && ShowsItem(view.Key(i).value, ks[i])
    ensures view.Value(i).Some? && view.Value(i).value.width == vw && vw >= 1 && ShowsItem(view.Value(i).value, vs[i])
  {
    hide Body, CellsLen, Interleave, PairItems;
    var items := PairItems(ks, vs, kw, vw);
    PairPrefix(ks, vs, kw, vw, i);
    BodyShows(items, suffix, 2 * i);
    BodyShows(items, suffix, 2 * i + 1);
    assert items[2 * i] == Item(ks[i], kw) && items[2 * i + 1] == Item(vs[i], vw);
    var start := i * (kw + vw);
    assert view.body[start..][kw..] == view.body[start + kw..];
  }

  lemma MapIndex(hash: Hash, index: seq<u8>, ks: seq<seq<u32>>, vs: seq<seq<u32>>, keyBytes: seq<seq<u8>>,
                 positions: seq<nat>, suffix: seq<u32>)
    requires MapSized(index, ks, vs) && |ks| == |keyBytes| && IndexFor(hash, keyBytes, index, positions)
    ensures LeNat(index[..4]) == |ks| < MAX_KEYS
    ensures |positions| == |keyBytes|
        && Locates(BytesOfWords(MapWords(index, ks, vs) + suffix), hash, keyBytes, positions, |index|)
  {
    hide Cost, BestWidth, Body, LeNat, BytesOfWords, PairItems, Carries, Locates, MapWords, Lens, Distinct, InRange;
    MapHead(index, ks, vs, suffix);
  }

  lemma MapParsed(words: seq<u32>, kw: nat, vw: nat, size: nat, cells: nat)
    requires words != [] && kw >= 1 && vw >= 1
    requires words[0] / 0x4000_0000 % 4 == kw && words[0] / 0x1000_0000 % 4 == vw
    requires var view := NewView(BytesOfWords(words));
             view.Some? && view.value.len * (kw + vw) == cells && |view.value.data| == size
    requires WordSize(size) + cells <= |words|
    ensures NewMap(words)
              == Some(MapView(NewView(BytesOfWords(words)).value, words[WordSize(size)..], kw, vw,
                  WordSize(size) + cells))
  {
    hide NewView, BytesOfWords, WordSize;
  }

  /** Where the view over an encoded map finds its cells. */
  lemma MapBody(hash: Hash, index: seq<u8>, ks: seq<seq<u32>>, vs: seq<seq<u32>>, keyBytes: seq<seq<u8>>,
                positions: seq<nat>, suffix: seq<u32>)
    requires MapSized(index, ks, vs) && |ks| == |keyBytes| && IndexFor(hash, keyBytes, index, positions)
    ensures |positions| == |keyBytes|
    ensures var words, kw, vw := MapWords(index, ks, vs) + suffix, BestWidth(Lens(ks)), BestWidth(Lens(vs));
            && Locates(BytesOfWords(words), hash, keyBytes, positions, |index|)
            && Wide(PairItems(ks, vs, kw, vw)) && |Body(PairItems(ks, vs, kw, vw))| < C.MAX_SIZE
            && NewMap(words)
                == Some(MapView(NewView(BytesOfWords(words)).value, Body(PairItems(ks, vs, kw, vw)) + suffix, kw, vw,
                                             WordSize(|index|) + CellsLen(PairItems(ks, vs, kw, vw))))
  {
    hide Cost, Body, CellsLen, LeNat, BytesOfWords, PairItems, Locate, NewView, NewMap, Lens, IndexFor, Wide, WordSize,
         MapWords;
    MapIndex(hash, index, ks, vs, keyBytes, positions, suffix);
    MapHead(index, ks, vs, suffix);
    var kw, vw := BestWidth(Lens(ks)), BestWidth(Lens(vs));
    PairCost(ks, vs, kw, vw);
    MapParsed(MapWords(index, ks, vs) + suffix, kw, vw, |index|, CellsLen(PairItems(ks, vs, kw, vw)));
  }

  lemma MapReads(hash: Hash, index: seq<u8>, ks: seq<seq<u32>>, vs: seq<seq<u32>>, keyBytes: seq<seq<u8>>,
                 positions: seq<nat>, suffix: seq<u32>)
    requires MapSized(index, ks, vs) && |ks| == |keyBytes| && IndexFor(hash, keyBytes, index, positions)
    ensures var view := NewMap(MapWords(index, ks, vs) + suffix);
            view.Some? && MapShows(view.value, hash, index, ks, vs, keyBytes, positions)
  {
    hide Cost, BestWidth, Body, CellsLen, LeNat, BytesOfWords, PairItems, Carries, Locate, NewView, ShowsItem, MapWords,
         NewMap;
    MapBody(hash, index, ks, vs, keyBytes, positions, suffix);
    var kw, vw := BestWidth(Lens(ks)), BestWidth(Lens(vs));
    PairCost(ks, vs, kw, vw);
    var view := NewMap(MapWords(index, ks, vs) + suffix).value;
    forall i | 0 <= i < |ks|
      ensures view.Key(i).Some? && view.Key(i).value.width == kw && ShowsItem(view.Key(i).value, ks[i])
      ensures view.Value(i).Some? && view.Value(i).value.width == vw && ShowsItem(view.Value(i).value, vs[i])
    {
      PairShows(ks, vs, kw, vw, suffix, view, i);
    }
  }
}
