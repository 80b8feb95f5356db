/** The words of every layout, spelled out for a reader that knows the format and nothing else: which
    bits of a header say what, where a cell lies, and what a pointer counts from. */
module Format {
  import opened Bits
  import opened Packing
  import opened Strings
  import opened Cells
  import opened Buffers
  import opened PerfectHash
  import opened Messages
  import C = Containers
  import opened MapContainers
  import opened ContainerReading
  import opened Records
  import opened Schemas
  import opened TreeReading
  import opened MapKeys

  /** Sizes stay below 2^30 words, strings below 2^30 bytes, key counts below 2^28, and the cell counts of
      a section below 2^14. An index builder has 40 seeds. */
  lemma Limits(seeds: Seeds)
    ensures C.MAX_SIZE == Messages.MAX_SIZE == MAX_LEN == 0x4000_0000
    ensures MAX_KEYS == 0x1000_0000 && COUNT_LIMIT == 0x4000 && |seeds| == 40
  {
  }

  // ----- strings

  /** Seven bits a byte, from the low end. */
  ghost function Base128(raw: seq<u8>): nat {
    if raw == [] then 0 else raw[0] % 0x80 + 0x80 * Base128(raw[1..])
  }

  /** The upper bit says that more bytes follow, and the last byte is not superfluous. */
  lemma {:induction false} VarintFormat(n: nat)
    ensures var b := Varint(n);
            && Base128(b) == n && b[|b| - 1] < 0x80
            && (forall i :: 0 <= i < |b| - 1 ==> b[i] >= 0x80)
            && (|b| > 1 ==> b[|b| - 1] != 0)
  {
    if n >= 0x80 {
      VarintFormat(n / 0x80);
      assert Varint(n)[1..] == Varint(n / 0x80);
    } else {
      assert [n][1..] == [];
    }
  }

  /** Four times the length in a varint, the bytes, and zeros up to a whole word. */
  lemma StringFormat(bytes: seq<u8>) returns (n: nat)
    requires |bytes| < 0x4000_0000
    ensures var raw := BytesOfWords(StringWords(bytes));
            && 1 <= n && n + |bytes| <= |raw| < n + |bytes| + 4
            && Base128(raw[..n]) == 4 * |bytes| && raw[n - 1] < 0x80
            && (forall i :: 0 <= i < n - 1 ==> raw[i] >= 0x80) && (n > 1 ==> raw[n - 1] != 0)
            && raw[n..n + |bytes|] == bytes
            && forall i :: n + |bytes| <= i < |raw| ==> raw[i] == 0
  {
    hide BytesOfWords, Pack, Base128;
    var mark := Varint(4 * |bytes|);
    n := |mark|;
    VarintFormat(4 * |bytes|);
    PackUnpack(mark + bytes);
    var raw := BytesOfWords(StringWords(bytes));
    assert raw[..n + |bytes|] == mark + bytes;
    assert raw[..n] == raw[..n + |bytes|][..n] == mark;
    assert raw[n..n + |bytes|] == raw[..n + |bytes|][n..] == bytes;
  }

  /** A list of bools is a string with a byte 1 for true and a byte 0 for false. */
  lemma BoolsFormat(items: seq<Value>) returns (n: nat)
    requires (forall i :: 0 <= i < |items| ==> items[i].VBool?) && |items| < 0x4000_0000
    ensures var raw := BytesOfWords(StringWords(BoolBytes(items)));
            && n + |items| <= |raw| && Base128(raw[..n]) == 4 * |items|
            && forall i :: 0 <= i < |items| ==> raw[n + i] == if items[i].b then 1 else 0
  {
    hide BytesOfWords, Pack, Base128, StringWords;
    var bytes := BoolBytes(items);
    n := StringFormat(bytes);
    var raw := BytesOfWords(StringWords(bytes));
    forall i | 0 <= i < |items| ensures raw[n + i] == if items[i].b then 1 else 0 {
      assert raw[n + i] == raw[n..n + |bytes|][i];
    }
  }

  // ----- cells

  /** The item at a cell: in place and zero padded, or behind a pointer that counts words from the cell,
      shifted by two, with both low bits set. */
  ghost predicate AtCell(words: seq<u32>, at: nat, width: nat, item: seq<u32>, target: nat) {
    && at + width <= |words|
    && if |item| <= width then
         && words[at..at + |item|] == item
         && forall i :: at + |item| <= i < at + width ==> words[i] == 0
       else
         && at <= target && target + |item| <= |words|
         && words[at] == 4 * (target - at) + 3
         && words[target..target + |item|] == item
  }

  /** Words in front of element `i` among those that do not fit their cells. */
  ghost function SpilledBefore(ws: seq<seq<u32>>, width: nat, i: nat): nat
    requires i <= |ws|
  {
    if i == 0 then 0 else SpilledBefore(ws, width, i - 1) + if |ws[i - 1]| > width then |ws[i - 1]| else 0
  }

  lemma CellFormat(items: seq<Item>, front: seq<u32>, rest: seq<u32>, k: nat)
    requires Wide(items) && k < |items| && |Body(items)| < 0x4000_0000
    ensures AtCell(front + Body(items) + rest, |front| + CellsLen(items[..k]), items[k].width, items[k].words,
                   |front| + CellsLen(items) + |Payload(items[..k])|)
  {
    hide CellsOf, Payload, CellsLen, Body;
    BodyShows(items, rest, k);
    var at, words := CellsLen(items[..k]), front + Body(items) + rest;
    var tail, item := (Body(items) + rest)[at..], items[k];
    assert words[|front|..] == Body(items) + rest;
    assert words[|front| + at..] == tail;
    ShownAt(words, |front| + at, tail, item);
  }

  lemma ShownAt(words: seq<u32>, at: nat, tail: seq<u32>, item: Item)
    requires item.width >= 1 && at <= |words| && words[at..] == tail && Shows(tail, item)
    ensures AtCell(words, at, item.width, item.words, at + tail[0] / 4)
  {
    var n := |item.words|;
    if n <= item.width {
      assert words[at..at + item.width] == tail[..item.width];
      assert words[at..at + n] == tail[..item.width][..n] == item.words;
      forall i | at + n <= i < at + item.width ensures words[i] == 0 {
        assert words[i] == tail[..item.width][i - at];
      }
    } else {
      var d := tail[0] / 4;
      assert words[at] == tail[0] && words[at..][d..][..n] == words[at + d..at + d + n];
    }
  }

  lemma {:induction false} SpilledIs(ws: seq<seq<u32>>, width: nat, i: nat)
    requires i <= |ws|
    ensures |Payload(ItemsOf(ws, width)[..i])| == SpilledBefore(ws, width, i)
    ensures CellsLen(ItemsOf(ws, width)[..i]) == i * width
    decreases i
  {
    hide Payload, CellsLen;
    if i > 0 {
      SpilledIs(ws, width, i - 1);
      var items := ItemsOf(ws, width);
      PayloadTo(items, i - 1);
      PayloadSplit(items[..i], i - 1);
      assert items[..i][..i - 1] == items[..i - 1] && items[..i][i - 1..] == [items[i - 1]];
      OneCell(items[i - 1]);
      Distribute(i, width);
    } else {
      NothingBefore(ItemsOf(ws, width));
    }
  }

  lemma OneCell(item: Item)
    ensures CellsLen([item]) == item.width
  {
    assert [item][1..] == [];
  }

  // ----- arrays

  /** The width that takes the fewest words, and the narrowest of those. */
  ghost predicate Cheapest(ws: seq<seq<u32>>, width: nat) {
    && 1 <= width <= 3
    && forall w :: 1 <= w <= 3 ==>
         ArraySize(ws, width) <= ArraySize(ws, w) && (w < width ==> ArraySize(ws, width) < ArraySize(ws, w))
  }

  lemma BestIsCheapest(ws: seq<seq<u32>>)
    ensures Cheapest(ws, BestWidth(Lens(ws)))
    ensures 1 + Cost(Lens(ws), BestWidth(Lens(ws))) == ArraySize(ws, BestWidth(Lens(ws)))
  {
    hide Cost, ArraySize;
    forall w: nat | 1 <= w <= 3 ensures 1 + Cost(Lens(ws), w) == ArraySize(ws, w) { CostIs(ws, w); }
  }

  /** The header holds the count over the width. */
  lemma ArrayFormat(ws: seq<seq<u32>>) returns (width: nat)
    requires ArrayFits(ws)
    ensures var words := C.ArrayWords(ws);
            && words != [] && words[0] == 4 * |ws| + width && Cheapest(ws, width) && |words| == ArraySize(ws, width)
  {
    hide Cost, Body, ArraySize, Cheapest;
    width := BestWidth(Lens(ws));
    ArrayHead(ws, []);
    assert C.ArrayWords(ws) + [] == C.ArrayWords(ws);
    BestIsCheapest(ws);
  }

  ghost function ArraySize(ws: seq<seq<u32>>, width: nat): nat {
    1 + |ws| * width + SpilledBefore(ws, width, |ws|)
  }

  /** Behind the header come the cells, and behind them, in order, what does not fit. */
  lemma ArrayCellFormat(ws: seq<seq<u32>>, i: nat)
    requires ArrayFits(ws) && i < |ws|
    ensures var words := C.ArrayWords(ws);
            && words != []
            && var width := words[0] % 4;
               AtCell(words, 1 + i * width, width, ws[i], 1 + |ws| * width + SpilledBefore(ws, width, i))
  {
    hide Cost, BestWidth, Body, SpilledBefore, AtCell, CellsLen, Payload;
    ArrayHead(ws, []);
    var words, width := C.ArrayWords(ws), BestWidth(Lens(ws));
    assert words + [] == words;
    var items := ItemsOf(ws, width);
    assert words == [words[0]] + Body(items) + [];
    CellFormat(items, [words[0]], [], i);
    SpilledIs(ws, width, i);
    SpilledIs(ws, width, |ws|);
    assert items[..|ws|] == items;
  }

  lemma CostIs(ws: seq<seq<u32>>, width: nat)
    requires width >= 1
    ensures 1 + Cost(Lens(ws), width) == ArraySize(ws, width)
  {
    hide Cost, CellsLen, Payload;
    BodyCost(ws, width);
    SpilledIs(ws, width, |ws|);
    assert ItemsOf(ws, width)[..|ws|] == ItemsOf(ws, width);
  }

  // ----- maps

  /** The first word holds the number of pairs, and above it the widths of keys and values, each the
      cheapest; the other words of the index follow unchanged, then the pairs. */
  lemma MapFormat(index: seq<u8>, ks: seq<seq<u32>>, vs: seq<seq<u32>>) returns (kw: nat, vw: nat)
    requires MapSized(index, ks, vs) && LeNat(index[..4]) == |ks| < 0x1000_0000
    ensures Cheapest(ks, kw) && Cheapest(vs, vw)
    ensures var words := MapWords(index, ks, vs);
            && words != [] && words[0] == |ks| + 0x1000_0000 * vw + 0x4000_0000 * kw
            && |words| == (|index| + 3) / 4 + (ArraySize(ks, kw) - 1) + (ArraySize(vs, vw) - 1)
            && |index| <= 4 * |words| && BytesOfWords(words)[4..|index|] == index[4..]
  {
    hide Cost, ArraySize, BytesOfWords, LeNat, Carries, Cheapest;
    kw, vw := BestWidth(Lens(ks)), BestWidth(Lens(vs));
    FrontWord(index, ks, vs);
    BestIsCheapest(ks);
    BestIsCheapest(vs);
  }

  lemma FrontWord(index: seq<u8>, ks: seq<seq<u32>>, vs: seq<seq<u32>>)
    requires MapSized(index, ks, vs) && LeNat(index[..4]) == |ks| < 0x1000_0000
    ensures var words, kw, vw := MapWords(index, ks, vs), BestWidth(Lens(ks)), BestWidth(Lens(vs));
            && words != [] && words[0] == |ks| + 0x1000_0000 * (4 * kw + vw) && |index| <= 4 * |words|
            && BytesOfWords(words)[4..|index|] == index[4..]
  {
    hide Cost, BestWidth, Body, LeNat, BytesOfWords, IndexWords, PairItems, MapWords;
    var kw, vw := BestWidth(Lens(ks)), BestWidth(Lens(vs));
    MapHead(index, ks, vs, []);
    MapFront(index, ks, vs, []);
    IndexHead(index, |ks|, kw, vw);
    assert MapWords(index, ks, vs) + [] == MapWords(index, ks, vs);
  }

  lemma {:induction false} PairSpilled(ks: seq<seq<u32>>, vs: seq<seq<u32>>, kw: nat, vw: nat, i: nat)
    requires |ks| == |vs| && i <= |ks|
    ensures var items := PairItems(ks, vs, kw, vw);
            && |Payload(items[..2 * i])| == SpilledBefore(ks, kw, i) + SpilledBefore(vs, vw, i)
            && (i < |ks| ==>
                  |Payload(items[..2 * i + 1])| == SpilledBefore(ks, kw, i + 1) + SpilledBefore(vs, vw, i))
    decreases i
  {
    hide Payload, Interleave, PairItems, CellsLen;
    var items := PairItems(ks, vs, kw, vw);
    if i == 0 {
      NothingBefore(items);
    } else {
      PairSpilled(ks, vs, kw, vw, i - 1);
      PayloadTo(items, 2 * (i - 1) + 1);
      assert items[2 * (i - 1) + 1] == Item(vs[i - 1], vw);
    }
    if i < |ks| {
      assert items[2 * i] == Item(ks[i], kw);
      PayloadTo(items, 2 * i);
    }
  }

  /** Key and value of a pair lie side by side; what does not fit lies behind all pairs, a key's in front
      of its value's. */
  ghost predicate PairLies(words: seq<u32>, from: nat, ks: seq<seq<u32>>, vs: seq<seq<u32>>, kw: nat, vw: nat, i: nat)
    requires i < |ks| == |vs|
  {
    var at, end := from + i * (kw + vw), from + |ks| * (kw + vw);
    && AtCell(words, at, kw, ks[i], end + SpilledBefore(ks, kw, i) + SpilledBefore(vs, vw, i))
    && AtCell(words, at + kw, vw, vs[i], end + SpilledBefore(ks, kw, i + 1) + SpilledBefore(vs, vw, i))
  }

  lemma PairFormat(index: seq<u8>, ks: seq<seq<u32>>, vs: seq<seq<u32>>, i: nat)
    requires MapSized(index, ks, vs) && LeNat(index[..4]) == |ks| < 0x1000_0000 && i < |ks|
    ensures var words := MapWords(index, ks, vs);
            && words != []
            && PairLies(words, (|index| + 3) / 4, ks, vs, words[0] / 0x4000_0000, words[0] / 0x1000_0000 % 4, i)
  {
    hide Cost, BestWidth, Body, PairLies, CellsLen, LeNat, PairItems, MapWords, IndexWords;
    var kw, vw := BestWidth(Lens(ks)), BestWidth(Lens(vs));
    FrontWord(index, ks, vs);
    PairsBehind(index, ks, vs, kw, vw);
    PairCells(ks, vs, kw, vw, IndexWords(index, kw, vw), i);
  }

  lemma PairCells(ks: seq<seq<u32>>, vs: seq<seq<u32>>, kw: nat, vw: nat, front: seq<u32>, i: nat)
    requires i < |ks| == |vs| && Wide(PairItems(ks, vs, kw, vw)) && |Body(PairItems(ks, vs, kw, vw))| < 0x4000_0000
    requires CellsLen(PairItems(ks, vs, kw, vw)) == |ks| * (kw + vw)
    ensures PairLies(front + Body(PairItems(ks, vs, kw, vw)) + [], |front|, ks, vs, kw, vw, i)
  {
    hide Body, SpilledBefore, AtCell, CellsLen, Payload, PairItems, Wide;
    PairPrefix(ks, vs, kw, vw, i);
    PairSpilled(ks, vs, kw, vw, i);
    var items, end := PairItems(ks, vs, kw, vw), |front| + |ks| * (kw + vw);
    assert items[2 * i] == Item(ks[i], kw) && items[2 * i + 1] == Item(vs[i], vw);
    CellLies(items, front, 2 * i, |front| + i * (kw + vw), end + (SpilledBefore(ks, kw, i) + SpilledBefore(vs, vw, i)));
    CellLies(items, front, 2 * i + 1, |front| + i * (kw + vw) + kw,
             end + (SpilledBefore(ks, kw, i + 1) + SpilledBefore(vs, vw, i)));
    assert PairLies(front + Body(items) + [], |front|, ks, vs, kw, vw, i);
  }

  lemma CellLies(items: seq<Item>, front: seq<u32>, k: nat, at: nat, target: nat)
    requires Wide(items) && k < |items| && |Body(items)| < 0x4000_0000
    requires at == |front| + CellsLen(items[..k])
    requires target == |front| + CellsLen(items) + |Payload(items[..k])|
    ensures AtCell(front + Body(items) + [], at, items[k].width, items[k].words, target)
  {
    hide *;
    CellFormat(items, front, [], k);
  }

  lemma PairsBehind(index: seq<u8>, ks: seq<seq<u32>>, vs: seq<seq<u32>>, kw: nat, vw: nat)
    requires MapSized(index, ks, vs) && LeNat(index[..4]) == |ks| < 0x1000_0000
    requires kw == BestWidth(Lens(ks)) && vw == BestWidth(Lens(vs))
    ensures var items := PairItems(ks, vs, kw, vw);
            && Wide(items) && |Body(items)| < 0x4000_0000 && CellsLen(items) == |ks| * (kw + vw)
            && MapWords(index, ks, vs) == IndexWords(index, kw, vw) + Body(items) + []
  {
    hide Cost, BestWidth, Body, CellsLen, LeNat, PairItems, MapWords, IndexWords;
    MapHead(index, ks, vs, []);
    MapFront(index, ks, vs, []);
    PairCost(ks, vs, kw, vw);
    assert MapWords(index, ks, vs) + [] == MapWords(index, ks, vs);
    assert Body(PairItems(ks, vs, kw, vw)) + [] == Body(PairItems(ks, vs, kw, vw));
  }

  /** Without pairs a map is the header of no pairs with both widths 1, and a list that of no elements. */
  lemma EmptyFormat(item: Type)
    ensures EMPTY_MAP == [0 + 0x1000_0000 * (4 * 1 + 1)]
    ensures EmptyList(item) == [4 * 0 + if item == Scalar(2) then 2 else 1]
  {
  }

  // ----- messages

  /** Words of a field's cell: what fits in three lies there, anything longer behind a pointer. */
  ghost function CellWords(e: seq<u32>): nat {
    if |e| <= 3 then |e| else 1
  }

  ghost function CellsBefore(es: seq<seq<u32>>, id: nat): nat
    requires id <= |es|
  {
    if id == 0 then 0 else CellsBefore(es, id - 1) + CellWords(es[id - 1])
  }

  ghost function WidthAt(es: seq<seq<u32>>, id: nat): nat {
    if id < |es| then CellWords(es[id]) else 0
  }

  lemma {:induction false} DigitIs(v: nat, i: nat)
    ensures Digit(v, i) == v / Pow4(i) % 4
    decreases i
  {
    if i > 0 {
      DigitIs(v / 4, i - 1);
      DivTwice(v, 4, Pow4(i - 1));
    }
  }

  lemma DivTwice(v: nat, a: nat, b: nat)
    requires a > 0 && b > 0
    ensures a * b > 0 && v / a / b == v / (a * b)
  {
    var q, r := v / a / b, v / a % b;
    assert v == a * (b * q + r) + v % a;
    assert a * (b * q + r) == (a * b) * q + a * r;
    assert a * r + v % a < a * b by { assert a * (r + 1) <= a * b; }
    DivUnique(v, a * b, q, a * r + v % a);
  }

  lemma {:induction false} BodyIs(es: seq<seq<u32>>, last: nat, id: nat)
    requires id <= |es|
    ensures BodySize(Units(es, last)[..id]) == CellsBefore(es, id)
    decreases id
  {
    hide BodySize, Payload;
    var units := Units(es, last);
    if id > 0 {
      BodyIs(es, last, id - 1);
      BodySplit(units[..id], id - 1);
      assert units[..id][..id - 1] == units[..id - 1] && units[..id][id - 1..] == [units[id - 1]];
      OneWidth(units[id - 1]);
    } else {
      NoCells(units);
    }
  }

  lemma OneWidth(unit: Unit)
    requires unit.Valid()
    ensures AllValid([unit]) && BodySize([unit]) == Width(unit)
  {
    assert [unit][1..] == [];
  }

  /** The low byte of the first word counts the sections, and the other three hold the widths of the first
      twelve fields, two bits each. */
  ghost predicate HeadSays(words: seq<u32>, es: seq<seq<u32>>) {
    && words != [] && words[0] % 0x100 == (|es| + 12) / 25
    && forall id: nat :: id < 12 ==> words[0] / 0x100 / Pow4(id) % 4 == WidthAt(es, id)
  }

  /** A section is the 64-bit word of the widths of 25 fields and, above them, 14 bits of the number of
      cells of all fields in front. */
  ghost predicate SectionSays(words: seq<u32>, es: seq<seq<u32>>, sec: nat)
    requires 12 + 25 * sec <= |es|
  {
    && 2 + 2 * sec < |words|
    && var mark: nat := words[1 + 2 * sec] + TWO32 * words[2 + 2 * sec];
       && mark / 0x4_0000_0000_0000 == CellsBefore(es, 12 + 25 * sec) % 0x4000
       && forall bit: nat :: bit < 25 ==> mark / Pow4(bit) % 4 == WidthAt(es, 12 + 25 * sec + bit)
  }

  lemma HeadFormat(es: seq<seq<u32>>, last: nat)
    requires Trim(es) != [] && Sections(|Trim(es)|) <= 0xff
    ensures HeadSays(RecordWords(es, last), Trim(es))
  {
    hide Payload, Trim, Head, Pow4, Units, MessageWords, WidthAt, SectionWords;
    var t := Trim(es);
    UnitsBehind(t, last);
    HeaderFront(Units(t, last), last + |Payload(Items(t))|, Payload(Items(t)));
    HeadSections(Units(t, last));
    forall id: nat | id < 12 ensures Head(Units(t, last)) / 0x100 / Pow4(id) % 4 == WidthAt(t, id) {
      HeadWidth(t, last, id);
    }
  }

  lemma HeadWidth(t: seq<seq<u32>>, last: nat, id: nat)
    requires Sections(|t|) <= 0xff && id < 12
    ensures Head(Units(t, last)) / 0x100 / Pow4(id) % 4 == WidthAt(t, id)
  {
    hide Payload, Digit, PackWidths, Head, Pow4;
    var units := Units(t, last);
    HeadWidths(units);
    DigitIs(Head(units) / 0x100, id);
    PackDigit(units[..Min(12, |units|)], id);
  }

  lemma SectionFormat(es: seq<seq<u32>>, last: nat, sec: nat)
    requires Sections(|Trim(es)|) <= 0xff && sec < Sections(|Trim(es)|)
    ensures 12 + 25 * sec <= |Trim(es)| && SectionSays(RecordWords(es, last), Trim(es), sec)
  {
    hide Payload, Trim, Mark, SectionWords, BodySize, CellsBefore, Head, Units, MessageWords, WidthAt, Pow4, Sections,
         SectionSays;
    var t := Trim(es);
    SectionsFit(|t|);
    UnitsBehind(t, last);
    HeaderFront(Units(t, last), last + |Payload(Items(t))|, Payload(Items(t)));
    MarkLies(t, last, sec, Sections(|t|), RecordWords(es, last));
  }

  lemma MarkLies(t: seq<seq<u32>>, last: nat, sec: nat, count: nat, words: seq<u32>)
    requires sec < count && Start(count - 1) <= |t| && 1 + 2 * count <= |words|
    requires words[1..1 + 2 * count] == SectionWords(Units(t, last), 0, count)
    ensures 12 + 25 * sec <= |t| && SectionSays(words, t, sec)
  {
    hide Mark, SectionWords, CellsBefore, Units, WidthAt, Pow4;
    SectionRead(Units(t, last), words, sec, count);
    MarkFormat(t, last, sec);
  }

  lemma MarkFormat(t: seq<seq<u32>>, last: nat, sec: nat)
    requires Start(sec) <= |t|
    ensures Mark(Units(t, last), sec) / 0x4_0000_0000_0000 == CellsBefore(t, 12 + 25 * sec) % 0x4000
    ensures forall bit: nat :: bit < 25 ==>
        Mark(Units(t, last), sec) / Pow4(bit) % 4 == WidthAt(t, 12 + 25 * sec + bit)
  {
    hide Payload, Digit, Mark, Pow4, BodySize, CellsBefore;
    var units := Units(t, last);
    MarkCount(units, sec);
    BodyIs(t, last, 12 + 25 * sec);
    forall bit: nat | bit < 25 ensures Mark(units, sec) / Pow4(bit) % 4 == WidthAt(t, 12 + 25 * sec + bit) {
      MarkParts(units, sec, bit);
      DigitIs(Mark(units, sec), bit);
    }
  }

  lemma MarkCount(units: seq<Unit>, sec: nat)
    requires AllValid(units) && Start(sec) <= |units|
    ensures Mark(units, sec) / 0x4_0000_0000_0000 == BodySize(units[..Start(sec)]) % 0x4000
  {
    hide PackWidths, BodySize, Pow4;
    var low := units[Start(sec)..Min(Start(sec) + 25, |units|)];
    PackBound(low);
    PackMonotone(low, 25);
    Pow4Values();
  }

  /** Behind the header come the cells of the present fields, and behind them, in order, what does not fit. */
  lemma FieldFormat(es: seq<seq<u32>>, last: nat, id: nat)
    requires RecordFits(es) && id < |Trim(es)|
    ensures var t := Trim(es);
            var front := 1 + 2 * ((|t| + 12) / 25);
            AtCell(RecordWords(es, last), front + CellsBefore(t, id), CellWords(t[id]), t[id],
                   front + CellsBefore(t, |t|) + SpilledBefore(t, 3, id))
  {
    hide Payload, Trim, MessageHeader, MessageBody, BodySize, CellsBefore, SpilledBefore, DataSize, AtCell;
    var t := Trim(es);
    UnitsBehind(t, last);
    SizeOnly(Units(t, 0), Units(t, last));
    BodyIs(t, last, id);
    BodyIs(t, last, |t|);
    assert Units(t, last)[..|t|] == Units(t, last);
    SpilledIs(t, 3, id);
    FieldLies(t, last, MessageHeader(Units(t, last)), id);
  }

  lemma FieldLies(t: seq<seq<u32>>, last: nat, front: seq<u32>, id: nat)
    requires id < |t| && Behind(Units(t, last), last + |Payload(Items(t))|) && DataSize(Units(t, last)) < 0x4000_0000
    ensures var units, p := Units(t, last), Payload(Items(t));
            AtCell(front + MessageBody(units, last + |p|) + p, |front| + BodySize(units[..id]), CellWords(t[id]), t[id],
                   |front| + BodySize(units) + |Payload(Items(t)[..id])|)
  {
    hide Payload, MessageBody, BodySize, DataSize, FieldCell, Spilled;
    var units, p := Units(t, last), Payload(Items(t));
    var body := MessageBody(units, last + |p|);
    var words, at, n := front + body + p, |front| + BodySize(units[..id]), CellWords(t[id]);
    var target := |front| + BodySize(units) + |Payload(Items(t)[..id])|;
    CellAt(units, last + |p|, id);
    assert words[at..at + n] == body[BodySize(units[..id])..][..n];
    if |t[id]| > 3 {
      PayloadAt(Items(t), id);
      SpilledWords(t[id]);
      assert words[target..target + |t[id]|] == p[|Payload(Items(t)[..id])|..][..|t[id]|];
      PointerWord(t, last, id);
      assert words[at] == words[at..at + 1][0];
    } else {
      InPlace(t[id], last + |p| + BodySize(units[id..]));
    }
  }

  lemma InPlace(e: seq<u32>, pos: nat)
    requires |e| <= 3
    ensures FieldCell(InlineUnit(e), pos) == e
  {
  }

  lemma SpilledWords(e: seq<u32>)
    requires |e| > 3
    ensures Spilled(Item(e, 3)) == e
  {
  }

  lemma PointerWord(t: seq<seq<u32>>, last: nat, id: nat)
    requires id < |t| && |t[id]| > 3 && DataSize(Units(t, last)) < 0x4000_0000
    requires Behind(Units(t, last), last + |Payload(Items(t))|)
    ensures var units, p := Units(t, last), Payload(Items(t));
            && BodySize(units[..id]) <= BodySize(units)
            && FieldCell(units[id], last + |p| + BodySize(units[id..]))
                == [4 * (BodySize(units) + |Payload(Items(t)[..id])| - BodySize(units[..id])) + 3]
  {
    hide Payload, BodySize, DataSize;
    var units := Units(t, last);
    PayloadSplit(Items(t), id);
    BodySplit(units, id);
    SizeSplit(t, units, id);
    OffsetReads(BodySize(units[id..]) + |Payload(Items(t)[..id])|);
  }
}
