/** Containers whose items carry spare words behind their values. Detection stops behind the value of
    the last payload, so the detected part, the core, is the container without the spare words of its
    last payload; everything still reads in the core, whatever words follow it. */
module Cores {
  import opened Bits
  import opened Wrappers
  import opened Packing
  import opened Cells
  import opened PerfectHash
  import opened Peeling
  import opened Views
  import C = Containers
  import opened MapContainers
  import opened ContainerReading
  import opened Extents
  import opened Messages
  import opened Records
  import opened Schemas
  import opened TreeReading

  /** The field starts with these words: a scalar fills its cell, anything else lies in the cell or
      behind a pointer. */
  ghost predicate StartsWith(field: FieldView, words: seq<u32>, scalar: bool) {
    if scalar then field.RawWords() == Some(words)
    else ObjectStart(field).Some? && words <= field.tail[ObjectStart(field).value..]
  }

  /** Where those words end, from the field on. */
  function Reach(field: FieldView, words: seq<u32>, scalar: bool): nat {
    (if scalar || ObjectStart(field).None? then 0 else ObjectStart(field).value) + |words|
  }

  /** The cell shows an item: whole and zero padded, or as a pointer to words that start with the core
      of the item. */
  ghost predicate ShowsCore(field: FieldView, words: seq<u32>, core: seq<u32>) {
    && 1 <= field.width <= |field.tail|
    && if |words| <= field.width then field.tail[..field.width] == words + Zeros(field.width - |words|)
       else
         && field.tail[0] % 4 == 3
         && field.tail[0] / 4 + |core| <= |field.tail|
         && field.tail[field.tail[0] / 4..][..|core|] == core
  }

  /** What a detector must report of such a field: an end in the cell, or the end of the core. */
  ghost predicate DetectsCore(end: Option<nat>, field: FieldView, words: seq<u32>, core: seq<u32>)
    requires ShowsCore(field, words, core)
  {
    end.Some? && if |words| <= field.width then end.value <= field.width else end.value == field.tail[0] / 4 + |core|
  }

  lemma ShowsWhole(field: FieldView, words: seq<u32>)
    ensures ShowsCore(field, words, words) <==> ShowsItem(field, words)
  {
    if field.width >= 1 && |words| > field.width && |field.tail| >= 1 && field.tail[0] / 4 + |words| <= |field.tail| {
      assert field.tail[field.tail[0] / 4..][..|words|] == field.tail[field.tail[0] / 4..field.tail[0] / 4 + |words|];
    }
  }

  /** A cell that shows a scalar of its width, or an object, starts with its core. */
  lemma CoreStarts(field: FieldView, words: seq<u32>, core: seq<u32>, scalar: bool)
    requires ShowsCore(field, words, core) && field.width <= 3 && core <= words && core != []
    requires if scalar then |words| == field.width && core == words else NotAPointer(words)
    ensures StartsWith(field, core, scalar) && DetectsCore(Some(Reach(field, core, scalar)), field, words, core)
  {
    if |words| <= field.width {
      assert core == words[..|core|] == field.tail[..field.width][..|core|] == field.tail[..|core|];
      assert field.tail[0] == field.tail[..field.width][0] == words[0];
      assert field.tail[0..] == field.tail;
      if scalar { assert words + Zeros(0) == words; }
    }
  }

  ghost predicate CoresOf(es: seq<seq<u32>>, cores: seq<seq<u32>>) {
    |es| == |cores| && forall i {:trigger es[i]} {:trigger cores[i]} :: 0 <= i < |es| ==>
        cores[i] <= es[i] && (es[i] != [] ==> cores[i] != [])
  }

  ghost predicate CoresIn(items: seq<Item>, cores: seq<seq<u32>>) {
    && |items| == |cores|
    && forall i {:trigger items[i]} {:trigger cores[i]} :: 0 <= i < |items| ==>
         cores[i] <= items[i].words && (items[i].words != [] ==> cores[i] != [])
  }

  /** Payload length of the first n items without the spare words of the last spilled one. */
  function CoreLen(items: seq<Item>, cores: seq<seq<u32>>, n: nat): nat
    requires n <= |items| == |cores|
  {
    if n == 0 then 0
    else if Spilled(items[n - 1]) == [] then CoreLen(items, cores, n - 1)
    else |Payload(items[..n - 1])| + |cores[n - 1]|
  }

  lemma {:induction false} CoreBound(items: seq<Item>, cores: seq<seq<u32>>, n: nat)
    requires CoresIn(items, cores) && n <= |items|
    ensures CoreLen(items, cores, n) <= |Payload(items[..n])|
    ensures (forall i :: 0 <= i < n ==> cores[i] == items[i].words) ==>
        CoreLen(items, cores, n) == |Payload(items[..n])|
  {
    hide Payload;
    if n > 0 {
      CoreBound(items, cores, n - 1);
      PayloadTo(items, n - 1);
    } else {
      NothingBefore(items);
    }
  }

  lemma {:induction false} CoreCovers(items: seq<Item>, cores: seq<seq<u32>>, n: nat, i: nat)
    requires CoresIn(items, cores) && i < n <= |items| && Spilled(items[i]) != []
    ensures |Payload(items[..i])| + |cores[i]| <= CoreLen(items, cores, n)
    decreases n
  {
    hide Payload;
    if i < n - 1 {
      CoreCovers(items, cores, n - 1, i);
      if Spilled(items[n - 1]) != [] { CoreBound(items, cores, n - 1); }
    }
  }

  /** Ends of items whose detection finds their cores. */
  ghost predicate CoreEnds(ends: nat --> Option<nat>, items: seq<Item>, cores: seq<seq<u32>>, limit: nat)
    requires |items| == |cores|
  {
    forall k: nat :: k < |items| ==>
                  && ends.requires(k) && ends(k).Some?
                  && if Spilled(items[k]) == [] then ends(k).value <= limit
                      else ends(k).value == limit + |Payload(items[..k])| + |cores[k]|
  }

  lemma {:induction false} ScanCore(ends: nat --> Option<nat>, items: seq<Item>, cores: seq<seq<u32>>, n: nat,
                                    limit: nat)
    requires CoresIn(items, cores) && n <= |items| && CoreEnds(ends, items, cores, limit)
    ensures ScanBack(ends, n, limit) == Some(limit + CoreLen(items, cores, n))
  {
    hide Payload;
    if n > 0 && Spilled(items[n - 1]) == [] { ScanCore(ends, items, cores, n - 1, limit); }
  }

  // ----- cells and payload

  /** Body of the items without the spare words of the last payload. */
  function CoreBody(items: seq<Item>, cores: seq<seq<u32>>): (body: seq<u32>)
    requires Wide(items) && CoresIn(items, cores)
    ensures |body| == CellsLen(items) + CoreLen(items, cores, |items|)
    ensures body <= Body(items)
    ensures (forall i :: 0 <= i < |items| ==> cores[i] == items[i].words) ==> body == Body(items)
  {
    CoreBound(items, cores, |items|);
    assert items[..|items|] == items;
    Body(items)[..CellsLen(items) + CoreLen(items, cores, |items|)]
  }

  lemma InlineCell(items: seq<Item>, cores: seq<seq<u32>>, rest: seq<u32>, k: nat)
    requires Wide(items) && CoresIn(items, cores) && k < |items| && |Body(items)| < C.MAX_SIZE
    requires |items[k].words| <= items[k].width
    ensures CellsLen(items[..k]) + items[k].width <= CellsLen(items)
    ensures (CoreBody(items, cores) + rest)[CellsLen(items[..k])..][..items[k].width]
              == items[k].words + Zeros(items[k].width - |items[k].words|)
  {
    hide Body, CellsLen, Payload, CoreLen, CoreBody;
    var a, w := CellsLen(items[..k]), items[k].width;
    BodyAt(items, [], k);
    BodyShows(items, [], k);
    assert Body(items) + [] == Body(items);
    assert Body(items)[a..][..w] == Body(items)[a..a + w];
    PrefixSlice(CoreBody(items, cores), Body(items), rest, a, a + w);
  }

  lemma PrefixSlice(core: seq<u32>, all: seq<u32>, rest: seq<u32>, a: nat, b: nat)
    requires core <= all && a <= b <= |core|
    ensures (core + rest)[a..][..b - a] == all[a..b]
  {
  }

  lemma SliceIn(all: seq<u32>, a: nat, off: nat, n: nat, m: nat)
    requires a + off + n <= |all| && m <= n
    ensures all[a..][off..off + n][..m] == all[a + off..a + off + m]
  {
  }

  lemma SpilledCell(items: seq<Item>, cores: seq<seq<u32>>, rest: seq<u32>, k: nat)
    requires Wide(items) && CoresIn(items, cores) && k < |items| && |Body(items)| < C.MAX_SIZE
    requires |items[k].words| > items[k].width
    ensures CellsLen(items[..k]) + items[k].width <= CellsLen(items)
    ensures var tail := (CoreBody(items, cores) + rest)[CellsLen(items[..k])..];
            && tail[0] % 4 == 3
            && CellsLen(items[..k]) + tail[0] / 4 == CellsLen(items) + |Payload(items[..k])|
            && tail[0] / 4 + |cores[k]| <= |tail|
            && tail[tail[0] / 4..][..|cores[k]|] == cores[k]
  {
    hide Body, CellsLen, Payload, CoreLen, CoreBody;
    var all, core, a := Body(items), CoreBody(items, cores), CellsLen(items[..k]);
    BodyAt(items, [], k);
    BodyShows(items, [], k);
    CoreCovers(items, cores, |items|, k);
    assert all + [] == all;
    var off, words := all[a] / 4, items[k].words;
    assert all[a..][0] == all[a] == core[a] == (core + rest)[a..][0];
    PrefixSlice(core, all, rest, a + off, a + off + |cores[k]|);
    assert (core + rest)[a..][off..] == (core + rest)[a + off..];
    SliceIn(all, a, off, |words|, |cores[k]|);
  }

  /** Cell k of a core shows its item, and where a spilled item lies. */
  lemma CoreCell(items: seq<Item>, cores: seq<seq<u32>>, rest: seq<u32>, k: nat)
    requires Wide(items) && CoresIn(items, cores) && k < |items| && |Body(items)| < C.MAX_SIZE
    ensures CellsLen(items[..k]) + items[k].width <= CellsLen(items)
    ensures var field := FieldView((CoreBody(items, cores) + rest)[CellsLen(items[..k])..], items[k].width);
            && ShowsCore(field, items[k].words, cores[k])
            && (Spilled(items[k]) != [] ==>
                  CellsLen(items[..k]) + field.tail[0] / 4 == CellsLen(items) + |Payload(items[..k])|)
  {
    hide Body, CellsLen, Payload, CoreLen, CoreBody;
    if |items[k].words| <= items[k].width {
      InlineCell(items, cores, rest, k);
    } else {
      SpilledCell(items, cores, rest, k);
    }
  }

  /** The end of one item, seen from the words its cells and payload lie in. */
  lemma CoreEnd(items: seq<Item>, cores: seq<seq<u32>>, rest: seq<u32>, words: seq<u32>, k: nat, field: FieldView,
                detected: Option<nat>)
    requires Wide(items) && CoresIn(items, cores) && k < |items| && |Body(items)| < C.MAX_SIZE
    requires CellsLen(items[..k]) <= |CoreBody(items, cores) + rest| <= |words|
    requires field == FieldView((CoreBody(items, cores) + rest)[CellsLen(items[..k])..], items[k].width)
    requires ShowsCore(field, items[k].words, cores[k]) && DetectsCore(detected, field, items[k].words, cores[k])
    ensures var end, limit := EndIn(words, field, detected), |words| - |CoreBody(items, cores) + rest| +
        CellsLen(items);
            end.Some? && if Spilled(items[k]) == [] then end.value <= limit
                         else end.value == limit + |Payload(items[..k])| + |cores[k]|
  {
    hide Body, CellsLen, Payload, CoreLen, CoreBody;
    CoreCell(items, cores, rest, k);
  }

  // ----- arrays

  lemma ItemCores(es: seq<seq<u32>>, cores: seq<seq<u32>>, width: nat)
    requires CoresOf(es, cores)
    ensures CoresIn(ItemsOf(es, width), cores)
  {
  }

  /** An encoded array without the spare words of its last payload. */
  ghost function ArrayCore(es: seq<seq<u32>>, cores: seq<seq<u32>>): (words: seq<u32>)
    requires ArrayFits(es) && CoresOf(es, cores)
    ensures words <= C.ArrayWords(es) && words != []
    ensures cores == es ==> words == C.ArrayWords(es)
  {
    hide Cost, BestWidth, Body, CoreBody;
    ArrayHead(es, []);
    var width := BestWidth(Lens(es));
    ItemCores(es, cores, width);
    [C.ArrayWords(es)[0]] + CoreBody(ItemsOf(es, width), cores)
  }

  lemma ArrayCoreHead(es: seq<seq<u32>>, cores: seq<seq<u32>>, rest: seq<u32>)
    requires ArrayFits(es) && CoresOf(es, cores)
    ensures var words, width := ArrayCore(es, cores) + rest, BestWidth(Lens(es));
            && NewArray(words) == Some(ArrayView(words[1..], |es|, width))
            && Wide(ItemsOf(es, width)) && CoresIn(ItemsOf(es, width), cores) && |Body(ItemsOf(es, width))| < C.MAX_SIZE
            && words[1..] == CoreBody(ItemsOf(es, width), cores) + rest
            && CellsLen(ItemsOf(es, width)) == |es| * width
  {
    hide Cost, BestWidth, Body, CoreBody, C.ArrayWords, CoresIn;
    var width := BestWidth(Lens(es));
    ArrayHead(es, []);
    assert C.ArrayWords(es) + [] == C.ArrayWords(es);
    ItemCores(es, cores, width);
    UniformPrefix(es, width, |es|);
    assert ItemsOf(es, width)[..|es|] == ItemsOf(es, width);
  }

  /** What the elements must be for their cells to be read: scalars as wide as the cells, or objects. */
  ghost predicate Cellable(es: seq<seq<u32>>, cores: seq<seq<u32>>, width: nat, scalar: bool)
    requires |es| == |cores|
  {
    forall i {:trigger es[i]} :: 0 <= i < |es| ==>
        if scalar then |es[i]| == width && cores[i] == es[i] else NotAPointer(es[i])
  }

  lemma ArrayCoreShown(es: seq<seq<u32>>, cores: seq<seq<u32>>, rest: seq<u32>, i: nat)
    requires ArrayFits(es) && CoresOf(es, cores) && i < |es|
    ensures var words, items := ArrayCore(es, cores) + rest, ItemsOf(es, BestWidth(Lens(es)));
            && NewArray(words).Some? && NewArray(words).value.len == |es|
            && NewArray(words).value.width == BestWidth(Lens(es)) == ArrayCell(words, i).width
            && CellsLen(items[..i]) <= |words[1..]|
            && ArrayCell(words, i) == FieldView(words[1..][CellsLen(items[..i])..], items[i].width)
            && ShowsCore(ArrayCell(words, i), es[i], cores[i])
  {
    hide Cost, BestWidth, Body, CoreBody, C.ArrayWords, CoresIn, ArrayCore, Payload, CellsLen, ShowsCore;
    var width := BestWidth(Lens(es));
    var items := ItemsOf(es, width);
    ArrayCoreHead(es, cores, rest);
    assert items[i] == Item(es[i], width);
    UniformPrefix(es, width, i);
    CoreCell(items, cores, rest, i);
  }

  lemma ArrayCoreCell(es: seq<seq<u32>>, cores: seq<seq<u32>>, rest: seq<u32>, scalar: bool, i: nat)
    requires ArrayFits(es) && CoresOf(es, cores) && Cellable(es, cores, BestWidth(Lens(es)), scalar) && i < |es|
    ensures var words := ArrayCore(es, cores) + rest;
            && NewArray(words).Some? && NewArray(words).value.len == |es|
            && StartsWith(ArrayCell(words, i), cores[i], scalar)
  {
    hide Cost, BestWidth, C.ArrayWords, ArrayCore, CellsLen, ShowsCore, StartsWith, NewArray;
    ArrayCoreShown(es, cores, rest, i);
    assert es[i] != [] && cores[i] == cores[i];
    CoreStarts(ArrayCell(ArrayCore(es, cores) + rest, i), es[i], cores[i], scalar);
  }

  /** Of cells that show item i, the detector finds its core. */
  ghost predicate DetectsAt(detect: Detector, width: nat, words: seq<u32>, core: seq<u32>) {
    forall field: FieldView :: detect.requires(field) && ShowsCore(field, words, core) && field.width == width ==>
      DetectsCore(detect(field), field, words, core)
  }

  lemma ArrayCoreEnd(es: seq<seq<u32>>, cores: seq<seq<u32>>, rest: seq<u32>, detect: Detector, k: nat)
    requires ArrayFits(es) && CoresOf(es, cores) && Covers(detect, ArrayCore(es, cores) + rest) && k < |es|
    requires DetectsAt(detect, BestWidth(Lens(es)), es[k], cores[k])
    ensures var words, limit := ArrayCore(es, cores) + rest, 1 + |es| * BestWidth(Lens(es));
            && NewArray(words).Some? && NewArray(words).value.len == |es|
            && var items, end := ItemsOf(es, BestWidth(Lens(es))), ArrayEnds(words, detect)(k);
               end.Some? && if Spilled(items[k]) == [] then end.value <= limit
                   else end.value == limit + |Payload(items[..k])| + |cores[k]|
  {
    hide Cost, BestWidth, Body, CoreBody, C.ArrayWords, CoresIn, ArrayCore, Payload, CellsLen, EndIn, ShowsCore,
         DetectsCore;
    ArrayCoreShown(es, cores, rest, k);
    ArrayCoreHead(es, cores, rest);
    var words, items := ArrayCore(es, cores) + rest, ItemsOf(es, BestWidth(Lens(es)));
    var field := ArrayCell(words, k);
    assert DetectsCore(detect(field), field, es[k], cores[k]);
    CoreEnd(items, cores, rest, words, k, field, detect(field));
  }

  /** The early-exit scan stops at the end of the core. */
  lemma ArrayCoreExtent(es: seq<seq<u32>>, cores: seq<seq<u32>>, rest: seq<u32>, detect: Detector)
    requires ArrayFits(es) && CoresOf(es, cores) && Covers(detect, ArrayCore(es, cores) + rest)
    requires forall i :: 0 <= i < |es| ==> DetectsAt(detect, BestWidth(Lens(es)), es[i], cores[i])
    ensures ArrayExtent(ArrayCore(es, cores) + rest, detect) == Some(|ArrayCore(es, cores)|)
  {
    hide Cost, BestWidth, Body, CoreBody, C.ArrayWords, CoresIn, ArrayCore, Payload, CellsLen, DetectsAt, ArrayFits,
         NewArray, ArrayEnds, CoreLen;
    var words, items := ArrayCore(es, cores) + rest, ItemsOf(es, BestWidth(Lens(es)));
    ArrayCoreHead(es, cores, rest);
    var ends, limit := ArrayEnds(words, detect), 1 + |es| * BestWidth(Lens(es));
    forall k: nat | k < |items|
      ensures ends(k).Some?
          && if Spilled(items[k]) == [] then ends(k).value <= limit
              else ends(k).value == limit + |Payload(items[..k])| + |cores[k]|
    {
      ArrayCoreEnd(es, cores, rest, detect, k);
    }
    ScanCore(ends, items, cores, |items|, limit);
    assert |words[1..]| == |CoreBody(items, cores)| + |rest|;
  }

  /** What a detector must report of a field that shows `words`. */
  ghost predicate Detects(end: Option<nat>, field: FieldView, words: seq<u32>)
    requires ShowsItem(field, words)
  {
    end.Some? && if |words| <= field.width then end.value <= field.width
        else end.value == field.tail[0] / 4 + |words|
  }

  lemma DetectsWhole(detect: Detector, width: nat, words: seq<u32>)
    requires forall field: FieldView :: (detect.requires(field) && ShowsItem(field, words) && field.width == width) ==>
               Detects(detect(field), field, words)
    ensures DetectsAt(detect, width, words, words)
  {
    hide ShowsCore, ShowsItem;
    forall field: FieldView | detect.requires(field) && ShowsCore(field, words, words) && field.width == width
      ensures DetectsCore(detect(field), field, words, words)
    {
      ShowsWhole(field, words);
    }
  }

  lemma WholeCores(es: seq<seq<u32>>)
    ensures CoresOf(es, es)
  {
  }

  /** Without spare words, detection is exact: an encoded array followed by anything ends where it ends. */
  lemma ArrayExtentExact(ws: seq<seq<u32>>, suffix: seq<u32>, detect: Detector)
    requires ArrayFits(ws) && Covers(detect, C.ArrayWords(ws) + suffix)
    requires forall i: nat, field: FieldView :: (i < |ws| && detect.requires(field) && ShowsItem(field, ws[i])
               && field.width == BestWidth(Lens(ws))) ==>
                  Detects(detect(field), field, ws[i])
    ensures ArrayExtent(C.ArrayWords(ws) + suffix, detect) == Some(|C.ArrayWords(ws)|)
  {
    hide Cost, BestWidth, ShowsItem, Detects, DetectsAt, C.ArrayWords, ArrayCore;
    WholeCores(ws);
    forall i | 0 <= i < |ws| ensures DetectsAt(detect, BestWidth(Lens(ws)), ws[i], ws[i]) {
      DetectsWhole(detect, BestWidth(Lens(ws)), ws[i]);
    }
    ArrayCoreExtent(ws, ws, suffix, detect);
  }

  // ----- maps

  /** An encoded map without the spare words of its last payload; keys have none. */
  ghost function MapCore(index: seq<u8>, ks: seq<seq<u32>>, es: seq<seq<u32>>, cores: seq<seq<u32>>): (words: seq<u32>)
    requires |index| >= 4 && |ks| == |es| && CoresOf(es, cores)
    ensures words <= MapWords(index, ks, es)
    ensures cores == es ==> words == MapWords(index, ks, es)
  {
    hide Cost, BestWidth, Body, CoreBody, CellsLen, IndexWords;
    var kw, vw := BestWidth(Lens(ks)), BestWidth(Lens(es));
    PairCost(ks, es, kw, vw);
    PairCores(ks, es, cores, kw, vw);
    IndexWords(index, kw, vw) + CoreBody(PairItems(ks, es, kw, vw), Interleave(ks, cores))
  }

  lemma MapCoreParts(index: seq<u8>, ks: seq<seq<u32>>, es: seq<seq<u32>>, cores: seq<seq<u32>>, kw: nat, vw: nat)
    requires |index| >= 4 && |ks| == |es| && CoresOf(es, cores)
    requires kw == BestWidth(Lens(ks)) && vw == BestWidth(Lens(es))
    ensures Wide(PairItems(ks, es, kw, vw)) && CoresIn(PairItems(ks, es, kw, vw), Interleave(ks, cores))
    ensures MapCore(index, ks, es, cores)
        == IndexWords(index, kw, vw) + CoreBody(PairItems(ks, es, kw, vw), Interleave(ks, cores))
  {
    hide Cost, BestWidth, CoreBody, IndexWords, CoresOf, CoresIn, Interleave;
    PairCost(ks, es, kw, vw);
    PairCores(ks, es, cores, kw, vw);
  }

  lemma Joined(a: seq<u32>, b: seq<u32>, c: seq<u32>)
    ensures (a + b) + c == a + (b + c)
  {
  }

  lemma PairCores(ks: seq<seq<u32>>, es: seq<seq<u32>>, cores: seq<seq<u32>>, kw: nat, vw: nat)
    requires |ks| == |es| && CoresOf(es, cores)
    ensures CoresIn(PairItems(ks, es, kw, vw), Interleave(ks, cores))
    ensures cores == es ==> forall j :: 0 <= j < 2 * |ks| ==>
        Interleave(ks, cores)[j] == PairItems(ks, es, kw, vw)[j].words
  {
    var items, all := PairItems(ks, es, kw, vw), Interleave(ks, cores);
    forall j | 0 <= j < |items|
      ensures all[j] <= items[j].words
          && (items[j].words != [] ==> all[j] != []) && (cores == es ==> all[j] == items[j].words)
    {
      assert es[j / 2] == es[j / 2];
    }
  }

  lemma MapCoreParsed(hash: Hash, keyBytes: seq<seq<u8>>, index: seq<u8>, positions: seq<nat>, ks: seq<seq<u32>>,
                      es: seq<seq<u32>>, cores: seq<seq<u32>>, rest: seq<u32>)
    requires Indexed(hash, keyBytes, index, positions, ks, es) && CoresOf(es, cores)
    ensures |positions| == |keyBytes|
    ensures var words, kw, vw := MapCore(index, ks, es, cores) + rest, BestWidth(Lens(ks)), BestWidth(Lens(es));
            && Wide(PairItems(ks, es, kw, vw)) && |Body(PairItems(ks, es, kw, vw))| < C.MAX_SIZE
            && CoresIn(PairItems(ks, es, kw, vw), Interleave(ks, cores))
            && |words| == WordSize(|index|) + |CoreBody(PairItems(ks, es, kw, vw), Interleave(ks, cores)) + rest|
            && Locates(BytesOfWords(words), hash, keyBytes, positions, |index|)
            && NewMap(words) == Some(MapView(NewView(BytesOfWords(words)).value,
                                             CoreBody(PairItems(ks, es, kw, vw), Interleave(ks, cores)) + rest, kw, vw,
                                             WordSize(|index|) + CellsLen(PairItems(ks, es, kw, vw))))
  {
    hide Cost, BestWidth, Body, CoreBody, CellsLen, IndexWords, LeNat, BytesOfWords, Locates, Carries, NewView, NewMap,
         PairItems, Distinct, InRange, Interleave, Wide, WordSize;
    var kw, vw := BestWidth(Lens(ks)), BestWidth(Lens(es));
    PairCost(ks, es, kw, vw);
    PairCores(ks, es, cores, kw, vw);
    IndexHead(index, |ks|, kw, vw);
    var body := CoreBody(PairItems(ks, es, kw, vw), Interleave(ks, cores));
    MapCarriesIndex(index, |ks|, kw, vw, body + rest);
    var words := MapCore(index, ks, es, cores) + rest;
    assert words == IndexWords(index, kw, vw) + (body + rest) by {
      MapCoreParts(index, ks, es, cores, kw, vw);
      Joined(IndexWords(index, kw, vw), body, rest);
    }
    CoreMapParsed(words, index, hash, keyBytes, positions, kw, vw, body + rest, CellsLen(PairItems(ks, es, kw, vw)));
  }

  lemma CoreMapParsed(words: seq<u32>, index: seq<u8>, hash: Hash, keyBytes: seq<seq<u8>>, positions: seq<nat>, kw: nat,
                      vw: nat, body: seq<u32>, cells: nat)
    requires |index| >= 4 && 1 <= kw <= 3 && 1 <= vw <= 3 && |positions| == |keyBytes| < MAX_KEYS
    requires words == IndexWords(index, kw, vw) + body
        && IndexWords(index, kw, vw)[0] == |keyBytes| + 0x1000_0000 * (4 * kw + vw)
    requires Locates(BytesOfWords(words), hash, keyBytes, positions, |index|)
    requires cells == |keyBytes| * (kw + vw) && cells <= |body|
    ensures NewMap(words) == Some(MapView(NewView(BytesOfWords(words)).value, body, kw, vw, WordSize(|index|) + cells))
  {
    hide IndexWords, NewView, BytesOfWords;
    assert words[0] == IndexWords(index, kw, vw)[0];
    assert words[WordSize(|index|)..] == body;
    MapParsed(words, kw, vw, |index|, cells);
  }

  /** Cell j of a map lies where the interleaved items put it. */
  lemma MapCellIs(words: seq<u32>, ks: seq<seq<u32>>, es: seq<seq<u32>>, j: nat)
    requires |ks| == |es| && NewMap(words).Some? && NewMap(words).value.index.len == |ks| && j < 2 * |ks|
    ensures var view, items := NewMap(words).value, PairItems(ks, es, NewMap(words).value.keyWidth,
        NewMap(words).value.valueWidth);
            && CellsLen(items[..j]) <= |view.body|
            && MapCell(words, j) == FieldView(view.body[CellsLen(items[..j])..], items[j].width)
            && items[j].words == if j % 2 == 0 then ks[j / 2] else es[j / 2]
  {
    hide CellsLen, Interleave, PairItems, NewMap;
    var view := NewMap(words).value;
    MapCellInside(words, j / 2);
    PairPrefix(ks, es, view.keyWidth, view.valueWidth, j / 2);
    var items := PairItems(ks, es, view.keyWidth, view.valueWidth);
    var i := j / 2;
    assert items[2 * i] == Item(ks[i], view.keyWidth) && items[2 * i + 1] == Item(es[i], view.valueWidth);
    var start := i * (view.keyWidth + view.valueWidth);
    assert j % 2 == 1 ==> view.body[start..][view.keyWidth..] == view.body[start + view.keyWidth..];
  }

  lemma MapCoreShown(hash: Hash, keyBytes: seq<seq<u8>>, index: seq<u8>, positions: seq<nat>, ks: seq<seq<u32>>,
                     es: seq<seq<u32>>, cores: seq<seq<u32>>, rest: seq<u32>, j: nat)
    requires Indexed(hash, keyBytes, index, positions, ks, es) && CoresOf(es, cores) && j < 2 * |ks|
    ensures |index| >= 4
    ensures var words := MapCore(index, ks, es, cores) + rest;
            var items, all := PairItems(ks, es, BestWidth(Lens(ks)), BestWidth(Lens(es))), Interleave(ks, cores);
            && NewMap(words).Some? && NewMap(words).value.index.len == |ks|
            && Wide(items) && CoresIn(items, all) && |Body(items)| < C.MAX_SIZE
            && NewMap(words).value.totalWords == WordSize(|index|) + CellsLen(items)
            && |words| == WordSize(|index|) + |CoreBody(items, all) + rest|
            && CellsLen(items[..j]) <= |CoreBody(items, all) + rest|
            && MapCell(words, j) == FieldView((CoreBody(items, all) + rest)[CellsLen(items[..j])..], items[j].width)
            && items[j] == (if j % 2 == 0 then Item(ks[j / 2], BestWidth(Lens(ks)))
                else Item(es[j / 2], BestWidth(Lens(es))))
            && all[j] == (if j % 2 == 0 then ks[j / 2] else cores[j / 2])
            && ShowsCore(MapCell(words, j), items[j].words, all[j])
  {
    hide Cost, BestWidth, Body, CoreBody, CoresIn, MapCore, Payload, CellsLen, Indexed, NewMap, MapCell, PairItems,
         BytesOfWords, NewView, Interleave, ShowsCore, CoresOf;
    SameCounts(hash, keyBytes, index, positions, ks, es);
    CoreCounts(es, cores);
    MapCoreParsed(hash, keyBytes, index, positions, ks, es, cores, rest);
    var words := MapCore(index, ks, es, cores) + rest;
    var items := PairItems(ks, es, BestWidth(Lens(ks)), BestWidth(Lens(es)));
    MapCellIs(words, ks, es, j);
    assert Interleave(ks, cores)[2 * (j / 2)] == ks[j / 2] && Interleave(ks, cores)[2 * (j / 2) + 1] == cores[j / 2];
    assert items[2 * (j / 2)] == Item(ks[j / 2], BestWidth(Lens(ks)))
        && items[2 * (j / 2) + 1] == Item(es[j / 2], BestWidth(Lens(es)));
    CoreCell(items, Interleave(ks, cores), rest, j);
  }

  lemma CoreCounts(es: seq<seq<u32>>, cores: seq<seq<u32>>)
    requires CoresOf(es, cores)
    ensures |es| == |cores|
  {
  }

  lemma MapCoreCell(hash: Hash, keyBytes: seq<seq<u8>>, index: seq<u8>, positions: seq<nat>, ks: seq<seq<u32>>,
                    es: seq<seq<u32>>, cores: seq<seq<u32>>, rest: seq<u32>, scalar: bool, j: nat)
    requires Indexed(hash, keyBytes, index, positions, ks, es) && CoresOf(es, cores) && j < 2 * |ks|
    requires if j % 2 == 0 then Cellable(ks, ks, BestWidth(Lens(ks)), scalar)
             else Cellable(es, cores, BestWidth(Lens(es)), scalar)
    ensures |index| >= 4
    ensures var words := MapCore(index, ks, es, cores) + rest;
            && NewMap(words).Some? && NewMap(words).value.index.len == |ks|
            && StartsWith(MapCell(words, j), if j % 2 == 0 then ks[j / 2] else cores[j / 2], scalar)
  {
    hide Cost, BestWidth, Body, CoreBody, CoresIn, MapCore, CellsLen, IndexFor, MapSized, NewMap, MapCell, PairItems,
         Interleave, ShowsCore, StartsWith;
    MapCoreShown(hash, keyBytes, index, positions, ks, es, cores, rest, j);
    assert (if j % 2 == 0 then ks[j / 2] else es[j / 2]) != [] && cores[j / 2] == cores[j / 2];
    var field := MapCell(MapCore(index, ks, es, cores) + rest, j);
    CoreStarts(field, if j % 2 == 0 then ks[j / 2] else es[j / 2], if j % 2 == 0 then ks[j / 2] else cores[j / 2],
        scalar);
  }

  lemma SameCounts(hash: Hash, keyBytes: seq<seq<u8>>, index: seq<u8>, positions: seq<nat>, ks: seq<seq<u32>>,
                   es: seq<seq<u32>>)
    requires Indexed(hash, keyBytes, index, positions, ks, es)
    ensures |ks| == |es| == |keyBytes| == |positions| && |index| >= 4
  {
  }

  lemma MapCoreEnd(hash: Hash, keyBytes: seq<seq<u8>>, index: seq<u8>, positions: seq<nat>, ks: seq<seq<u32>>,
                   es: seq<seq<u32>>, cores: seq<seq<u32>>, rest: seq<u32>, detectKey: Detector, detectValue: Detector,
                   j: nat)
    requires Indexed(hash, keyBytes, index, positions, ks, es) && CoresOf(es, cores) && j < 2 * |ks|
    requires Covers(detectKey, MapCore(index, ks, es, cores) + rest)
        && Covers(detectValue, MapCore(index, ks, es, cores) + rest)
    requires if j % 2 == 0 then DetectsAt(detectKey, BestWidth(Lens(ks)), ks[j / 2], ks[j / 2])
             else DetectsAt(detectValue, BestWidth(Lens(es)), es[j / 2], cores[j / 2])
    ensures var words := MapCore(index, ks, es, cores) + rest;
            var items := PairItems(ks, es, BestWidth(Lens(ks)), BestWidth(Lens(es)));
            && NewMap(words).Some? && NewMap(words).value.index.len == |ks|
            && NewMap(words).value.totalWords == WordSize(|index|) + CellsLen(items)
            && var core, limit := Interleave(ks, cores)[j], NewMap(words).value.totalWords;
               var end := MapEnds(words, detectKey, detectValue)(j);
               end.Some? && if Spilled(items[j]) == [] then end.value <= limit
                   else end.value == limit + |Payload(items[..j])| + |core|
  {
    hide Cost, BestWidth, Body, CoreBody, CoresIn, MapCore, Payload, CellsLen, EndIn, Indexed, NewMap, MapCell,
         PairItems, ShowsCore, DetectsCore, Interleave, CoresOf, WordSize;
    SameCounts(hash, keyBytes, index, positions, ks, es);
    CoreCounts(es, cores);
    var words := MapCore(index, ks, es, cores) + rest;
    var items, all := PairItems(ks, es, BestWidth(Lens(ks)), BestWidth(Lens(es))), Interleave(ks, cores);
    MapCoreShown(hash, keyBytes, index, positions, ks, es, cores, rest, j);
    var field := MapCell(words, j);
    var detected := if j % 2 == 0 then detectKey(field) else detectValue(field);
    assert DetectsCore(detected, field, items[j].words, all[j]);
    CoreEnd(items, all, rest, words, j, field, detected);
  }

  /** The early-exit scan of a map stops at the end of the core. */
  lemma MapCoreExtent(hash: Hash, keyBytes: seq<seq<u8>>, index: seq<u8>, positions: seq<nat>, ks: seq<seq<u32>>,
                      es: seq<seq<u32>>, cores: seq<seq<u32>>, rest: seq<u32>, detectKey: Detector,
                      detectValue: Detector)
    requires Indexed(hash, keyBytes, index, positions, ks, es) && CoresOf(es, cores)
    requires Covers(detectKey, MapCore(index, ks, es, cores) + rest)
        && Covers(detectValue, MapCore(index, ks, es, cores) + rest)
    requires forall i :: 0 <= i < |ks| ==> DetectsAt(detectKey, BestWidth(Lens(ks)), ks[i], ks[i])
    requires forall i :: 0 <= i < |es| ==> DetectsAt(detectValue, BestWidth(Lens(es)), es[i], cores[i])
    ensures MapExtent(MapCore(index, ks, es, cores) + rest, detectKey, detectValue)
        == Some(|MapCore(index, ks, es, cores)|)
  {
    hide Cost, BestWidth, Body, CoreBody, CoresIn, MapCore, Payload, CellsLen, DetectsAt, NewMap, MapEnds, CoreLen,
         PairItems, Interleave, WordSize, BytesOfWords, NewView, Locates, IndexFor, MapSized;
    var words := MapCore(index, ks, es, cores) + rest;
    var items, all := PairItems(ks, es, BestWidth(Lens(ks)), BestWidth(Lens(es))), Interleave(ks, cores);
    MapCoreParsed(hash, keyBytes, index, positions, ks, es, cores, rest);
    MapCoreCount(hash, keyBytes, index, positions, ks, es, cores, rest);
    var ends, limit := MapEnds(words, detectKey, detectValue), NewMap(words).value.totalWords;
    forall j: nat | j < |items|
      ensures ends(j).Some?
          && if Spilled(items[j]) == [] then ends(j).value <= limit
              else ends(j).value == limit + |Payload(items[..j])| + |all[j]|
    {
      MapCoreEnd(hash, keyBytes, index, positions, ks, es, cores, rest, detectKey, detectValue, j);
    }
    ScanCore(ends, items, all, |items|, limit);
  }

  lemma MapCoreCount(hash: Hash, keyBytes: seq<seq<u8>>, index: seq<u8>, positions: seq<nat>, ks: seq<seq<u32>>,
                     es: seq<seq<u32>>, cores: seq<seq<u32>>, rest: seq<u32>)
    requires Indexed(hash, keyBytes, index, positions, ks, es) && CoresOf(es, cores)
    ensures |index| >= 4
    ensures var words := MapCore(index, ks, es, cores) + rest;
            NewMap(words).Some? && NewMap(words).value.index.len == |ks|
  {
    hide Cost, BestWidth, Body, CoreBody, CoresIn, MapCore, CellsLen, NewMap, PairItems, BytesOfWords, NewView,
         Interleave, IndexFor, MapSized;
    SameCounts(hash, keyBytes, index, positions, ks, es);
    MapCoreParsed(hash, keyBytes, index, positions, ks, es, cores, rest);
  }

  /** The same for an encoded map. */
  lemma MapExtentExact(hash: Hash, index: seq<u8>, ks: seq<seq<u32>>, vs: seq<seq<u32>>, keyBytes: seq<seq<u8>>,
                       positions: seq<nat>, suffix: seq<u32>, detectKey: Detector, detectValue: Detector)
    requires MapSized(index, ks, vs) && |ks| == |keyBytes| && IndexFor(hash, keyBytes, index, positions)
    requires Covers(detectKey, MapWords(index, ks, vs) + suffix)
    requires Covers(detectValue, MapWords(index, ks, vs) + suffix)
    requires forall i: nat, field: FieldView :: (i < |ks| && detectKey.requires(field) && ShowsItem(field, ks[i])
               && field.width == BestWidth(Lens(ks))) ==>
                  Detects(detectKey(field), field, ks[i])
    requires forall i: nat, field: FieldView :: (i < |vs| && detectValue.requires(field) && ShowsItem(field, vs[i])
               && field.width == BestWidth(Lens(vs))) ==>
                  Detects(detectValue(field), field, vs[i])
    ensures MapExtent(MapWords(index, ks, vs) + suffix, detectKey, detectValue) == Some(|MapWords(index, ks, vs)|)
  {
    hide Cost, BestWidth, ShowsItem, Detects, DetectsAt, MapWords, MapCore, IndexFor, MapExtent;
    WholeCores(vs);
    forall i | 0 <= i < |ks| ensures DetectsAt(detectKey, BestWidth(Lens(ks)), ks[i], ks[i]) {
      DetectsWhole(detectKey, BestWidth(Lens(ks)), ks[i]);
    }
    forall i | 0 <= i < |vs| ensures DetectsAt(detectValue, BestWidth(Lens(vs)), vs[i], vs[i]) {
      DetectsWhole(detectValue, BestWidth(Lens(vs)), vs[i]);
    }
    MapCoreExtent(hash, keyBytes, index, positions, ks, vs, vs, suffix, detectKey, detectValue);
  }

  // ----- records

  /** The payloads of a record without the spare words of the last one. */
  function CorePayload(es: seq<seq<u32>>, cores: seq<seq<u32>>): (payload: seq<u32>)
    requires CoresOf(es, cores)
    ensures payload <= Payload(Items(es))
    ensures cores == es ==> payload == Payload(Items(es))
  {
    ItemCores(es, cores, 3);
    CoreBound(Items(es), cores, |es|);
    assert Items(es)[..|es|] == Items(es);
    Payload(Items(es))[..CoreLen(Items(es), cores, |es|)]
  }

  lemma TrimCores(es: seq<seq<u32>>, cores: seq<seq<u32>>)
    requires CoresOf(es, cores)
    ensures |Trim(es)| <= |es| == |cores|
    ensures CoresOf(Trim(es), cores[..|Trim(es)|])
    ensures cores == es ==> cores[..|Trim(es)|] == Trim(es)
  {
    hide Trim;
    forall i | 0 <= i < |Trim(es)|
        ensures cores[..|Trim(es)|][i] <= Trim(es)[i] && (Trim(es)[i] != [] ==> cores[..|Trim(es)|][i] != []) {
      assert es[i] == Trim(es)[i];
    }
  }

  /** Header and cells of a record. */
  function RecordFront(es: seq<seq<u32>>, last: nat): (front: seq<u32>)
    requires Sections(|Trim(es)|) <= 0xff
    ensures front != []
  {
    var t := Trim(es);
    UnitsBehind(t, last);
    if t == [] then [0] else MessageWords(Units(t, last), last + |Payload(Items(t))|)
  }

  lemma FrontAndPayload(es: seq<seq<u32>>, last: nat)
    requires Sections(|Trim(es)|) <= 0xff
    ensures RecordWords(es, last) == RecordFront(es, last) + Payload(Items(Trim(es)))
  {
    hide MessageWords, Payload, Items, Trim;
    if Trim(es) == [] { NoPayload(); }
  }

  lemma NoPayload()
    ensures Payload(Items([])) == []
  {
    assert Items([]) == [];
  }

  /** A record without the spare words of its last payload. */
  function RecordCore(es: seq<seq<u32>>, cores: seq<seq<u32>>, last: nat): (words: seq<u32>)
    requires Sections(|Trim(es)|) <= 0xff && CoresOf(es, cores)
    ensures words <= RecordWords(es, last) && words != []
    ensures cores == es ==> words == RecordWords(es, last)
  {
    hide CorePayload, RecordWords, Payload, Trim, CoresOf, RecordFront;
    TrimCores(es, cores);
    FrontAndPayload(es, last);
    RecordFront(es, last) + CorePayload(Trim(es), cores[..|Trim(es)|])
  }

  lemma CoreSlice(payload: seq<u32>, front: seq<u32>, x: nat, e: seq<u32>, core: seq<u32>)
    requires front <= payload && x + |e| <= |payload| && payload[x..][..|e|] == e
    requires core <= e && x + |core| <= |front|
    ensures front[x..x + |core|] == core
  {
    forall i | 0 <= i < |core| ensures front[x + i] == core[i] {
      assert front[x + i] == payload[x..][..|e|][i];
    }
  }

  lemma CoreInside(es: seq<seq<u32>>, cores: seq<seq<u32>>, id: nat)
    requires CoresOf(es, cores) && id < |es| && |es[id]| > 3
    ensures var x := |Payload(Items(es)[..id])|;
            x + |cores[id]| <= |CorePayload(es, cores)| && CorePayload(es, cores)[x..x + |cores[id]|] == cores[id]
  {
    hide Payload, CoreLen;
    ItemCores(es, cores, 3);
    var items, x := Items(es), |Payload(Items(es)[..id])|;
    CoreBound(items, cores, |es|);
    CoreCovers(items, cores, |es|, id);
    assert items[..|es|] == items && es[id] == es[id];
    PayloadAt(items, id);
    CoreSlice(Payload(items), CorePayload(es, cores), x, es[id], cores[id]);
  }

  lemma CoreSlot(es: seq<seq<u32>>, cores: seq<seq<u32>>, last: nat, rest: seq<u32>, id: nat, field: FieldView, d: nat)
    requires CoresOf(es, cores) && id < |es| && es[id] != [] && d < MAX_SIZE
        && d + |Payload(Items(es)[..id])| < MAX_SIZE
    requires Width(PlacedUnit(es, id, last)) == field.width <= d <= |field.tail|
        && field.tail[d..] == CorePayload(es, cores) + rest
    requires PlacedUnit(es, id, last).IsSegment() ==>
        PlacedUnit(es, id, last).segment.pos <= last + |Payload(Items(es))| + d
    requires field.tail[..field.width] == FieldCell(PlacedUnit(es, id, last), last + |Payload(Items(es))| + d)
    ensures ShowsCore(field, es[id], cores[id])
    ensures |es[id]| > 3 ==> field.tail[0] / 4 == d + |Payload(Items(es)[..id])|
  {
    hide Payload, Offset, CorePayload;
    var items, tail := Items(es), field.tail;
    assert es[id] == es[id];
    if |es[id]| > 3 {
      PayloadSplit(items, id);
      PayloadFrom(items, id);
      var x := |Payload(items[..id])|;
      OffsetReads(d + x);
      assert tail[0] == tail[..1][0];
      CoreInside(es, cores, id);
      assert tail[d + x..][..|cores[id]|] == tail[d..][x..x + |cores[id]|] == cores[id];
    } else {
      assert es[id] + Zeros(0) == es[id];
    }
  }

  /** How field `id` of a record's core reads, and where it ends. */
  ghost predicate CoreShown(es: seq<seq<u32>>, cores: seq<seq<u32>>, last: nat, words: seq<u32>, id: nat,
                            field: FieldView)
    requires id < |es| == |cores| && Sections(|Trim(es)|) <= 0xff
  {
    var items, limit := Items(Trim(es)), |RecordWords(es, last)| - |Payload(Items(Trim(es)))|;
    && |field.tail| <= |words|
    && ShowsCore(field, es[id], cores[id]) && field.width == (if |es[id]| <= 3 then |es[id]| else 1)
    && if |es[id]| <= 3 then |words| - |field.tail| + |es[id]| <= limit
       else id < |items| && |words| - |field.tail| + field.tail[0] / 4 == limit + |Payload(items[..id])|
  }

  lemma FrontIs(es: seq<seq<u32>>, last: nat)
    requires RecordFits(es) && Trim(es) != []
    ensures Encodable(Units(Trim(es), last), last + |Payload(Items(Trim(es)))|)
    ensures RecordFront(es, last) == MessageWords(Units(Trim(es), last), last + |Payload(Items(Trim(es)))|)
  {
    hide Payload, MessageWords, DataSize, Trim;
    UnitsBehind(Trim(es), last);
  }

  lemma SlotShown(es: seq<seq<u32>>, cores: seq<seq<u32>>, last: nat, words: seq<u32>, id: nat, field: FieldView,
                  d: nat, n: nat)
    requires id < |Trim(es)| && |es| == |cores| && Sections(|Trim(es)|) <= 0xff
    requires |field.tail| == d + n && |words| == |RecordFront(es, last)| + n && d <= |RecordFront(es, last)|
    requires ShowsCore(field, es[id], cores[id]) && field.width == (if |es[id]| <= 3 then |es[id]| else 1) <= d
    requires |es[id]| > 3 ==> field.tail[0] / 4 == d + |Payload(Items(Trim(es))[..id])|
    ensures CoreShown(es, cores, last, words, id, field)
  {
    hide Payload, Trim, ShowsCore, RecordFront, RecordWords, Items;
    FrontAndPayload(es, last);
  }

  lemma SlotRoom(t: seq<seq<u32>>, last: nat, id: nat)
    requires id < |t| && DataSize(Units(t, 0)) < MAX_SIZE
    ensures var d := BodySize(Units(t, last)[id..]);
            && d < MAX_SIZE && d + |Payload(Items(t)[..id])| < MAX_SIZE && d <= BodySize(Units(t, last))
  {
    hide Payload, DataSize, BodySize, PlacedUnit;
    var units := Units(t, last);
    SizeOnly(units, Units(t, 0));
    SizeSplit(t, units, id);
    BodySplit(units, id);
  }

  lemma CoreFieldAt(t: seq<seq<u32>>, short: seq<seq<u32>>, last: nat, rest: seq<u32>, id: nat)
    requires Encodable(Units(t, last), last + |Payload(Items(t))|) && DataSize(Units(t, 0)) < MAX_SIZE
        && CoresOf(t, short)
    requires id < |t| && t[id] != [] && CountFits(Units(t, last), id)
    ensures AllValid(Units(t, last)[id..])
    ensures var front, after := MessageWords(Units(t, last), last + |Payload(Items(t))|), CorePayload(t, short) + rest;
            var field, d := FieldIn(front + after, id), BodySize(Units(t, last)[id..]);
            && field.Some? && |field.value.tail| == d + |after| && d <= |front|
            && ShowsCore(field.value, t[id], short[id])
                && field.value.width == (if |t[id]| <= 3 then |t[id]| else 1) <= d
            && (|t[id]| > 3 ==> field.value.tail[0] / 4 == d + |Payload(Items(t)[..id])|)
  {
    hide Payload, MessageWords, FieldIn, BodySize, DataSize, FieldCell, CountFits, CorePayload, ShowsCore, CoresOf;
    var base, after := last + |Payload(Items(t))|, CorePayload(t, short) + rest;
    FieldReads(Units(t, last), base, after, id);
    SlotRoom(t, last, id);
    CoreSlot(t, short, last, rest, id, FieldIn(MessageWords(Units(t, last), base) + after, id).value,
        BodySize(Units(t, last)[id..]));
  }

  lemma CoreParts(es: seq<seq<u32>>, cores: seq<seq<u32>>, last: nat, rest: seq<u32>)
    requires RecordFits(es) && CoresOf(es, cores)
    ensures Sections(|Trim(es)|) <= 0xff && DataSize(Units(Trim(es), 0)) < MAX_SIZE
    ensures |Trim(es)| <= |es| == |cores| && CoresOf(Trim(es), cores[..|Trim(es)|])
    ensures RecordCore(es, cores, last) + rest
        == RecordFront(es, last) + (CorePayload(Trim(es), cores[..|Trim(es)|]) + rest)
    ensures forall id :: 0 <= id < |Trim(es)| ==> Trim(es)[id] == es[id] && cores[..|Trim(es)|][id] == cores[id]
  {
    hide Trim, CorePayload, RecordFront, CoresOf, DataSize, Units;
    TrimCores(es, cores);
  }

  lemma PresentInCore(es: seq<seq<u32>>, cores: seq<seq<u32>>, last: nat, rest: seq<u32>, id: nat)
    requires RecordFits(es) && CoresOf(es, cores) && id < |Trim(es)| && es[id] != []
        && CountFits(Units(Trim(es), last), id)
    ensures FieldIn(RecordCore(es, cores, last) + rest, id).Some?
    ensures CoreShown(es, cores, last, RecordCore(es, cores, last) + rest, id,
        FieldIn(RecordCore(es, cores, last) + rest, id).value)
  {
    hide *;
    CoreParts(es, cores, last, rest);
    var t, short := Trim(es), cores[..|Trim(es)|];
    FrontIs(es, last);
    CoreFieldAt(t, short, last, rest, id);
    var after := CorePayload(t, short) + rest;
    var words := RecordFront(es, last) + after;
    SlotShown(es, cores, last, words, id, FieldIn(words, id).value, BodySize(Units(t, last)[id..]), |after|);
  }

  lemma NoCore(es: seq<seq<u32>>, cores: seq<seq<u32>>, last: nat)
    requires Trim(es) == [] && CoresOf(es, cores)
    ensures RecordCore(es, cores, last) == [0]
  {
    hide Trim;
    assert Items([]) == [];
  }

  /** Reading any field of the core of a record, whatever words follow it. */
  lemma RecordCoreReads(es: seq<seq<u32>>, cores: seq<seq<u32>>, last: nat, rest: seq<u32>, id: nat)
    requires RecordFits(es) && CountsFit(es, last) && CoresOf(es, cores)
    ensures var words := RecordCore(es, cores, last) + rest;
            if id < |es| && es[id] != [] then FieldIn(words, id).Some?
                && CoreShown(es, cores, last, words, id, FieldIn(words, id).value)
            else FieldIn(words, id).None?
  {
    hide Payload, MessageWords, FieldIn, DataSize, CountFits, CoreShown, CorePayload, RecordFront, RecordWords, CoresOf;
    var t := Trim(es);
    TrimCores(es, cores);
    if t == [] {
      NoCore(es, cores, last);
      EmptyRecord(rest, id);
    } else if id < |t| && t[id] != [] {
      assert CountFits(Units(t, last), id);
      PresentInCore(es, cores, last, rest, id);
    } else {
      var units, p := Units(t, last), Payload(Items(t));
      FrontIs(es, last);
      assert RecordCore(es, cores, last) + rest
          == MessageWords(units, last + |p|) + (CorePayload(t, cores[..|t|]) + rest);
      FieldAbsent(units, last + |p|, CorePayload(t, cores[..|t|]) + rest, id);
    }
  }

  lemma CoreIsMessage(es: seq<seq<u32>>, cores: seq<seq<u32>>, last: nat, rest: seq<u32>)
    requires RecordFits(es) && CoresOf(es, cores)
    ensures IsMessage(RecordCore(es, cores, last) + rest)
    ensures NotAPointer(RecordCore(es, cores, last))
  {
    hide MessageWords, Payload, DataSize, FieldSlot, PackWidths, Trim, Units, CorePayload, RecordWords, CoresOf,
         RecordFront;
    RecordIsMessage(es, last, []);
    assert RecordWords(es, last)[0] == RecordCore(es, cores, last)[0];
    CoreParts(es, cores, last, rest);
    if Trim(es) == [] {
      NoCore(es, cores, last);
    } else {
      FrontIs(es, last);
      FrontAndPayload(es, last);
      var t := Trim(es);
      Messages.SlotOf(Units(t, last), last + |Payload(Items(t))|, CorePayload(t, cores[..|t|]) + rest, 0);
      TagOfFront(es, cores, last);
    }
  }

  /** The first word of a record is never tagged as a pointer when sections follow. */
  lemma TagOfFront(es: seq<seq<u32>>, cores: seq<seq<u32>>, last: nat)
    requires RecordFits(es) && CoresOf(es, cores) && Trim(es) != []
    ensures NotAPointer(RecordCore(es, cores, last))
  {
    hide MessageBody, SectionWords, Payload, DataSize, BodySize, PackWidths, Trim, Units, CorePayload, RecordWords,
         CoresOf;
    var units := Units(Trim(es), last);
    FrontIs(es, last);
    HeadSections(units);
    assert RecordCore(es, cores, last)[0] == RecordFront(es, last)[0] == Head(units);
  }

  lemma CoreMessageLen(es: seq<seq<u32>>, cores: seq<seq<u32>>, last: nat, rest: seq<u32>)
    requires RecordFits(es) && CountsFit(es, last) && CoresOf(es, cores)
    ensures MessageLen(RecordCore(es, cores, last) + rest) == Some(|RecordFront(es, last)|)
  {
    hide Payload, MessageWords, MessageLen, BodySize, DataSize, CorePayload, CoresOf, Trim, CountsFit, RecordWords;
    CoreParts(es, cores, last, rest);
    if Trim(es) == [] {
      NoCore(es, cores, last);
      EmptyLen(rest);
    } else {
      var t := Trim(es);
      FrontIs(es, last);
      LastCountFits(es, last);
      ExtentExact(Units(t, last), last + |Payload(Items(t))|, CorePayload(t, cores[..|t|]) + rest);
    }
  }

  lemma {:induction false} CoreTrim(es: seq<seq<u32>>, cores: seq<seq<u32>>, n: nat)
    requires CoresOf(es, cores) && n <= |es|
    ensures |Trim(es)| <= |cores|
    ensures CoreLen(Items(es), cores, n)
        == CoreLen(Items(Trim(es)), cores[..|Trim(es)|], if n <= |Trim(es)| then n else |Trim(es)|)
  {
    hide Trim, Payload;
    var t := Trim(es);
    if n > 0 {
      CoreTrim(es, cores, n - 1);
      if n <= |t| {
        assert Items(es)[..n - 1] == Items(t)[..n - 1] && Items(es)[n - 1] == Items(t)[n - 1];
      }
    }
  }

  /** Of fields that show the words of field `id`, the detector finds the core. */
  ghost predicate DetectsField(detect: FieldDetector, id: nat, words: seq<u32>, core: seq<u32>) {
    forall field: FieldView :: detect.requires(id, field) && field.width <= 3 && ShowsCore(field, words, core) ==>
      DetectsCore(detect(id, field), field, words, core)
  }

  lemma ShownEnd(es: seq<seq<u32>>, cores: seq<seq<u32>>, last: nat, words: seq<u32>, id: nat, field: FieldView,
                 detected: Option<nat>)
    requires id < |es| == |cores| && Sections(|Trim(es)|) <= 0xff && CoreShown(es, cores, last, words, id, field)
    requires ShowsCore(field, es[id], cores[id]) && DetectsCore(detected, field, es[id], cores[id])
    ensures var end, limit := EndIn(words, field, detected), |RecordWords(es, last)| - |Payload(Items(Trim(es)))|;
            && end.Some?
            && if |es[id]| <= 3 then end.value <= limit
               else
                 && id < |Items(Trim(es))|
                 && end.value == limit + |Payload(Items(Trim(es))[..id])| + |cores[id]|
  {
    hide Payload, RecordWords, Trim, Items;
  }

  lemma FieldCoreEnd(es: seq<seq<u32>>, cores: seq<seq<u32>>, last: nat, rest: seq<u32>,
                     needs: nat -> bool, detect: FieldDetector, id: nat)
    requires RecordFits(es) && CountsFit(es, last) && CoresOf(es, cores)
    requires CoversFields(detect, RecordCore(es, cores, last) + rest, |es|) && id < |es|
        && (!needs(id) ==> |es[id]| <= 3)
    requires es[id] != [] && needs(id) ==> DetectsField(detect, id, es[id], cores[id])
    ensures var end := MessageEnds(RecordCore(es, cores, last) + rest, |es|, needs, detect)(id);
            end.Some? && if |es[id]| <= 3 then end.value <= |RecordFront(es, last)|
                         else end.value == |RecordFront(es, last)| + |Payload(Items(es)[..id])| + |cores[id]|
  {
    hide Payload, RecordCore, RecordWords, RecordFront, FieldIn, CountsFit, DataSize, Trim, EndIn, CoresOf, ShowsCore,
         DetectsCore;
    var words := RecordCore(es, cores, last) + rest;
    CoreParts(es, cores, last, rest);
    RecordCoreReads(es, cores, last, rest, id);
    if es[id] != [] && needs(id) {
      FieldShorter(words, id);
      var field := FieldIn(words, id).value;
      assert CoreShown(es, cores, last, words, id, field);
      assert DetectsCore(detect(id, field), field, es[id], cores[id]);
      ShownEnd(es, cores, last, words, id, field, detect(id, field));
      FrontAndPayload(es, last);
      if |es[id]| > 3 { TrimPayload(es, id); }
    }
  }

  /** The scan over the fields stops at the end of the core. */
  lemma RecordCoreExtent(es: seq<seq<u32>>, cores: seq<seq<u32>>, last: nat, rest: seq<u32>,
                         needs: nat -> bool, detect: FieldDetector)
    requires RecordFits(es) && CountsFit(es, last) && CoresOf(es, cores)
    requires CoversFields(detect, RecordCore(es, cores, last) + rest, |es|)
    requires forall id: nat :: id < |es| && !needs(id) ==> |es[id]| <= 3
    requires forall id: nat :: id < |es| && es[id] != [] && needs(id) ==> DetectsField(detect, id, es[id], cores[id])
    ensures MessageExtent(RecordCore(es, cores, last) + rest, |es|, needs, detect)
        == Some(|RecordCore(es, cores, last)|)
  {
    hide Payload, RecordCore, RecordWords, RecordFront, FieldIn, CountsFit, DataSize, Trim, CoresOf, MessageLen,
         MessageEnds, DetectsField, CoreLen;
    var words, items := RecordCore(es, cores, last) + rest, Items(es);
    CoreParts(es, cores, last, rest);
    CoreMessageLen(es, cores, last, rest);
    ItemCores(es, cores, 3);
    var ends, limit := MessageEnds(words, |es|, needs, detect), |RecordFront(es, last)|;
    forall id: nat | id < |es|
      ensures ends(id).Some?
          && if Spilled(items[id]) == [] then ends(id).value <= limit
              else ends(id).value == limit + |Payload(items[..id])| + |cores[id]|
    {
      FieldCoreEnd(es, cores, last, rest, needs, detect, id);
    }
    ScanCore(ends, items, cores, |es|, limit);
    CoreTrim(es, cores, |es|);
    CoreLength(es, cores, last);
  }

  /** The same for an encoded record. */
  lemma RecordExtentExact(es: seq<seq<u32>>, last: nat, suffix: seq<u32>, needs: nat -> bool, detect: FieldDetector)
    requires RecordFits(es) && CountsFit(es, last) && CoversFields(detect, RecordWords(es, last) + suffix, |es|)
    requires forall id: nat :: id < |es| && !needs(id) ==> |es[id]| <= 3
    requires forall id: nat, field: FieldView :: (id < |es| && es[id] != [] && needs(id) && detect.requires(id, field)
               && field.width <= 3 && ShowsItem(field, es[id])) ==>
                  Detects(detect(id, field), field, es[id])
    ensures MessageExtent(RecordWords(es, last) + suffix, |es|, needs, detect) == Some(|RecordWords(es, last)|)
  {
    hide RecordCore, RecordWords, ShowsItem, ShowsCore, CountsFit, DataSize, Trim, MessageExtent;
    WholeCores(es);
    forall id: nat | id < |es| && es[id] != [] && needs(id) ensures DetectsField(detect, id, es[id], es[id]) {
      forall field: FieldView | detect.requires(id, field) && field.width <= 3 && ShowsCore(field, es[id], es[id])
        ensures DetectsCore(detect(id, field), field, es[id], es[id])
      {
        ShowsWhole(field, es[id]);
      }
    }
    RecordCoreExtent(es, es, last, suffix, needs, detect);
  }

  /** A present field shows its encoding, and ends with the body or behind the payload up to it. */
  ghost predicate FieldShown(es: seq<seq<u32>>, last: nat, words: seq<u32>, id: nat, field: FieldView)
    requires id < |es| && Sections(|Trim(es)|) <= 0xff
  {
    var items, limit := Items(Trim(es)), |RecordWords(es, last)| - |Payload(Items(Trim(es)))|;
    && |field.tail| <= |words|
    && ShowsItem(field, es[id]) && field.width == (if |es[id]| <= 3 then |es[id]| else 1)
    && if |es[id]| <= 3 then |words| - |field.tail| + |es[id]| <= limit
       else id < |items| && |words| - |field.tail| + field.tail[0] / 4 + |es[id]| == limit + |Payload(items[..id + 1])|
  }

  /** Reading any field of a record, whatever follows the record. */
  lemma RecordReads(es: seq<seq<u32>>, last: nat, suffix: seq<u32>, id: nat)
    requires RecordFits(es) && CountsFit(es, last)
    ensures var words := RecordWords(es, last) + suffix;
            if id < |es| && es[id] != [] then FieldIn(words, id).Some?
                && FieldShown(es, last, words, id, FieldIn(words, id).value)
            else FieldIn(words, id).None?
  {
    hide RecordCore, RecordWords, ShowsItem, ShowsCore, CountsFit, DataSize, Trim, FieldIn, Payload;
    WholeCores(es);
    RecordCoreReads(es, es, last, suffix, id);
    if id < |es| && es[id] != [] {
      var field := FieldIn(RecordWords(es, last) + suffix, id).value;
      assert CoreShown(es, es, last, RecordWords(es, last) + suffix, id, field);
      ShowsWhole(field, es[id]);
      if |es[id]| > 3 {
        InTrim(es, id);
        PayloadTo(Items(Trim(es)), id);
      }
    }
  }

  lemma CoreLength(es: seq<seq<u32>>, cores: seq<seq<u32>>, last: nat)
    requires RecordFits(es) && CoresOf(es, cores)
    ensures |Trim(es)| <= |cores|
    ensures |RecordCore(es, cores, last)|
        == |RecordFront(es, last)| + CoreLen(Items(Trim(es)), cores[..|Trim(es)|], |Trim(es)|)
  {
    hide Payload, RecordFront, Trim, CoreLen;
    TrimCores(es, cores);
    var t := Trim(es);
    ItemCores(t, cores[..|t|], 3);
    CoreBound(Items(t), cores[..|t|], |t|);
    assert Items(t)[..|t|] == Items(t);
  }
}
