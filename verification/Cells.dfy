/** Cells and payloads: the common layout of arrays and maps. Every item gets a fixed-width cell;
    an item wider than its cell is spilled behind the cells and the cell points to it. */
module Cells {
  import opened Bits
  import opened Packing

  /** An encoded value together with the width of the cell it goes to. */
  datatype Item = Item(words: seq<u32>, width: nat)

  /** A pointer cell: distance in words, tagged 3 in the two low bits. */
  function Offset(off: nat): u32 {
    (off % TWO32) * 4 % TWO32 + 3
  }

  function Cell(words: seq<u32>, width: nat, distance: nat): (cell: seq<u32>)
    requires width >= 1
    ensures |cell| == width
  {
    if |words| <= width then words + Zeros(width - |words|) else [Offset(distance)] + Zeros(width - 1)
  }

  function Spilled(item: Item): seq<u32> {
    if |item.words| <= item.width then [] else item.words
  }

  function Payload(items: seq<Item>): seq<u32> {
    if items == [] then [] else Spilled(items[0]) + Payload(items[1..])
  }

  function CellsLen(items: seq<Item>): nat {
    if items == [] then 0 else items[0].width + CellsLen(items[1..])
  }

  ghost predicate Wide(items: seq<Item>) {
    forall i :: 0 <= i < |items| ==> 1 <= items[i].width <= 3
  }

  /** The cells of `items`, when `skip` words of earlier payload lie behind them. */
  function CellsOf(items: seq<Item>, skip: nat): (cells: seq<u32>)
    requires Wide(items)
    ensures |cells| == CellsLen(items)
  {
    if items == [] then []
    else Cell(items[0].words, items[0].width, CellsLen(items) + skip) + CellsOf(items[1..], skip + |Spilled(items[0])|)
  }

  function Body(items: seq<Item>): (body: seq<u32>)
    requires Wide(items)
    ensures |body| == CellsLen(items) + |Payload(items)|
  {
    CellsOf(items, 0) + Payload(items)
  }

  lemma {:induction false} PayloadSplit(items: seq<Item>, k: nat)
    requires k <= |items|
    ensures Payload(items) == Payload(items[..k]) + Payload(items[k..])
    ensures CellsLen(items) == CellsLen(items[..k]) + CellsLen(items[k..])
  {
    if k > 0 {
      PayloadSplit(items[1..], k - 1);
      assert items[..k][1..] == items[1..][..k - 1];
      assert items[1..][k - 1..] == items[k..];
      assert Payload(items[..k]) == Spilled(items[0]) + Payload(items[..k][1..]);
    } else {
      assert items[0..] == items;
    }
  }

  lemma PayloadFrom(items: seq<Item>, k: nat)
    requires k < |items|
    ensures Payload(items[k..]) == Spilled(items[k]) + Payload(items[k + 1..])
    ensures CellsLen(items[k..]) == items[k].width + CellsLen(items[k + 1..])
  {
    assert items[k..][1..] == items[k + 1..];
  }

  lemma {:induction false} PayloadTo(items: seq<Item>, k: nat)
    requires k < |items|
    ensures Payload(items[..k + 1]) == Payload(items[..k]) + Spilled(items[k])
  {
    PayloadSplit(items[..k + 1], k);
    assert items[..k + 1][..k] == items[..k];
    assert items[..k + 1][k..] == [items[k]];
    assert Payload([items[k]]) == Spilled(items[k]) + Payload([items[k]][1..]);
    assert [items[k]][1..] == [];
  }

  lemma CellsFrom(items: seq<Item>, k: nat, skip: nat)
    requires Wide(items) && k < |items|
    ensures Wide(items[k..]) && Wide(items[k + 1..])
    ensures CellsOf(items[k..], skip)
              == Cell(items[k].words, items[k].width, CellsLen(items[k..]) + skip)
                 + CellsOf(items[k + 1..], skip + |Spilled(items[k])|)
  {
    hide Cell, Spilled, CellsLen;
    assert items[k..][1..] == items[k + 1..];
  }

  lemma NothingBefore(items: seq<Item>)
    ensures Payload(items[..0]) == [] && CellsLen(items[..0]) == 0 && items[0..] == items
  {
  }

  lemma CellsPrefix(items: seq<Item>, k: nat)
    requires k < |items|
    ensures CellsLen(items[..k + 1]) == CellsLen(items[..k]) + items[k].width
  {
    PayloadSplit(items, k);
    PayloadSplit(items, k + 1);
    PayloadFrom(items, k);
  }

  /** Cell k lies right behind the cells before it. */
  lemma {:induction false} CellsAt(items: seq<Item>, skip: nat, k: nat)
    requires Wide(items) && k <= |items|
    ensures Wide(items[k..]) && CellsLen(items[..k]) <= CellsLen(items)
    ensures CellsOf(items, skip)[CellsLen(items[..k])..] == CellsOf(items[k..], skip + |Payload(items[..k])|)
    decreases k
  {
    hide Cell, Payload, CellsLen, CellsOf, Spilled;
    PayloadSplit(items, k);
    if k == 0 {
      NothingBefore(items);
    } else {
      CellsAt(items, skip, k - 1);
      CellsFrom(items, k - 1, skip + |Payload(items[..k - 1])|);
      PayloadTo(items, k - 1);
      CellsPrefix(items, k - 1);
      var a, w := CellsLen(items[..k - 1]), items[k - 1].width;
      var cells := CellsOf(items, skip);
      assert cells[a + w..] == cells[a..][w..];
    }
  }

  /** A cell either shows its item, zero padded, or points at a copy of the item behind the cells. */
  ghost predicate Shows(words: seq<u32>, item: Item)
    requires item.width >= 1
  {
    && item.width <= |words|
    && if |item.words| <= item.width then
         words[..item.width] == item.words + Zeros(item.width - |item.words|)
       else
         && words[0] % 4 == 3
         && words[0] / 4 + |item.words| <= |words|
         && words[words[0] / 4..words[0] / 4 + |item.words|] == item.words
  }

  lemma OffsetReads(off: nat)
    requires off < 0x4000_0000
    ensures Offset(off) % 4 == 3 && Offset(off) / 4 == off
  {
  }

  lemma {:induction false} PayloadAt(items: seq<Item>, k: nat)
    requires k < |items|
    ensures |Payload(items[..k])| + |Spilled(items[k])| <= |Payload(items)|
    ensures Payload(items)[|Payload(items[..k])|..][..|Spilled(items[k])|] == Spilled(items[k])
  {
    PayloadSplit(items, k);
    PayloadFrom(items, k);
  }

  lemma BodyTail(items: seq<Item>, suffix: seq<u32>, k: nat)
    requires Wide(items) && k < |items|
    ensures CellsLen(items[..k]) + items[k].width <= CellsLen(items) && Wide(items[k..])
    ensures (Body(items) + suffix)[CellsLen(items[..k])..]
        == CellsOf(items[k..], |Payload(items[..k])|) + (Payload(items) + suffix)
  {
    hide Cell, Payload, CellsLen, CellsOf, Spilled;
    CellsAt(items, 0, k);
    PayloadSplit(items, k);
    PayloadFrom(items, k);
    var a := CellsLen(items[..k]);
    assert Body(items) + suffix == CellsOf(items, 0) + (Payload(items) + suffix);
    assert (CellsOf(items, 0) + (Payload(items) + suffix))[a..] == CellsOf(items, 0)[a..] + (Payload(items) + suffix);
  }

  lemma BodyAt(items: seq<Item>, suffix: seq<u32>, k: nat)
    requires Wide(items) && k < |items|
    ensures CellsLen(items[..k]) + items[k].width <= CellsLen(items)
    ensures var words := (Body(items) + suffix)[CellsLen(items[..k])..];
            var d := CellsLen(items[k..]) + |Payload(items[..k])|;
            && words[..items[k].width] == Cell(items[k].words, items[k].width, d)
            && |words| >= d + |Spilled(items[k])|
            && words[d..d + |Spilled(items[k])|] == Spilled(items[k])
            && CellsLen(items[..k]) + d == CellsLen(items) + |Payload(items[..k])|
            && d <= |Body(items)|
  {
    hide Cell, Payload, CellsLen, CellsOf, Spilled, Body;
    BodyTail(items, suffix, k);
    CellsFrom(items, k, |Payload(items[..k])|);
    PayloadSplit(items, k);
    PayloadAt(items, k);
    var cells, payload := CellsOf(items[k..], |Payload(items[..k])|), Payload(items);
    var x, n := |Payload(items[..k])|, |Spilled(items[k])|;
    assert |Body(items)| == CellsLen(items) + |payload|;
    assert (cells + (payload + suffix))[|cells| + x..|cells| + x + n] == payload[x..][..n];
  }

  /** Reading cell k of a body, whatever follows the body. */
  lemma BodyShows(items: seq<Item>, suffix: seq<u32>, k: nat)
    requires Wide(items) && k < |items| && |Body(items)| < 0x4000_0000
    ensures CellsLen(items[..k]) < |Body(items)|
    ensures Shows((Body(items) + suffix)[CellsLen(items[..k])..], items[k])
    ensures |items[k].words| > items[k].width ==>
              CellsLen(items[..k]) + (Body(items) + suffix)[CellsLen(items[..k])] / 4
                  == CellsLen(items) + |Payload(items[..k])|
  {
    hide Offset, Payload, CellsLen, CellsOf, Body;
    BodyAt(items, suffix, k);
    var words, d := (Body(items) + suffix)[CellsLen(items[..k])..], CellsLen(items[k..]) + |Payload(items[..k])|;
    OffsetReads(d);
    assert words[0] == words[..items[k].width][0];
    assert words[0] == (Body(items) + suffix)[CellsLen(items[..k])];
  }

  // ----- choosing the width

  function Cost(lens: seq<nat>, width: nat): nat {
    if lens == [] then 0 else width + (if lens[0] > width then lens[0] else 0) + Cost(lens[1..], width)
  }

  /** best_width: the cheapest of the widths 1, 2, 3, the narrower one on a tie. */
  function BestWidth(lens: seq<nat>): (w: nat)
    ensures 1 <= w <= 3
    ensures forall v :: 1 <= v <= 3 ==> Cost(lens, w) <= Cost(lens, v)
    ensures forall v :: 1 <= v < w ==> Cost(lens, w) < Cost(lens, v)
  {
    var m := if Cost(lens, 2) < Cost(lens, 1) then 2 else 1;
    if Cost(lens, 3) < Cost(lens, m) then 3 else m
  }

  lemma {:induction false} CostTo(lens: seq<nat>, k: nat, w: nat)
    requires k < |lens|
    ensures Cost(lens[..k + 1], w) == Cost(lens[..k], w) + w + (if lens[k] > w then lens[k] else 0)
    decreases k
  {
    if k > 0 {
      CostTo(lens[1..], k - 1, w);
      assert lens[..k + 1][1..] == lens[1..][..k] && lens[..k][1..] == lens[1..][..k - 1];
    } else {
      assert lens[..1][1..] == [];
    }
  }

  method BestSize(lens: seq<nat>) returns (size: nat, width: nat)
    ensures width == BestWidth(lens) && size == Cost(lens, width)
  {
    var s1, s2, s3 := 0, 0, 0;
    for k := 0 to |lens|
      invariant s1 == Cost(lens[..k], 1) && s2 == Cost(lens[..k], 2) && s3 == Cost(lens[..k], 3)
    {
      CostTo(lens, k, 1);
      CostTo(lens, k, 2);
      CostTo(lens, k, 3);
      s1 := s1 + 1 + if lens[k] > 1 then lens[k] else 0;
      s2 := s2 + 2 + if lens[k] > 2 then lens[k] else 0;
      s3 := s3 + 3 + if lens[k] > 3 then lens[k] else 0;
    }
    assert lens[..|lens|] == lens;
    size, width := s1, 1;
    if s2 < size { size, width := s2, 2; }
    if s3 < size { size, width := s3, 3; }
  }

  function Lens(ws: seq<seq<u32>>): (l: seq<nat>)
    ensures |l| == |ws|
  {
    seq(|ws|, i requires 0 <= i < |ws| => |ws[i]|)
  }

  function ItemsOf(ws: seq<seq<u32>>, width: nat): (items: seq<Item>)
    ensures |items| == |ws|
  {
    seq(|ws|, i requires 0 <= i < |ws| => Item(ws[i], width))
  }

  /** The encoded size is the cost that `BestSize` minimises. */
  lemma {:induction false} BodyCost(ws: seq<seq<u32>>, width: nat)
    requires width >= 1
    ensures CellsLen(ItemsOf(ws, width)) == |ws| * width
    ensures CellsLen(ItemsOf(ws, width)) + |Payload(ItemsOf(ws, width))| == Cost(Lens(ws), width)
  {
    if ws != [] {
      BodyCost(ws[1..], width);
      assert |ws| * width == (|ws| - 1) * width + width;
      assert ItemsOf(ws, width)[1..] == ItemsOf(ws[1..], width);
      assert Lens(ws)[1..] == Lens(ws[1..]);
    }
  }

  lemma {:induction false} UniformCost(lens: seq<nat>, len: nat, w: nat)
    requires forall i :: 0 <= i < |lens| ==> lens[i] == len
    ensures Cost(lens, w) == |lens| * (w + (if len > w then len else 0))
  {
    if lens != [] {
      UniformCost(lens[1..], len, w);
      assert Cost(lens, w) == w + (if len > w then len else 0) + Cost(lens[1..], w);
    }
  }

  /** Elements of one, two or three words each get cells of exactly that width. */
  lemma UniformWidth(lens: seq<nat>, len: nat)
    requires lens != [] && 1 <= len <= 3
    requires forall i :: 0 <= i < |lens| ==> lens[i] == len
    ensures BestWidth(lens) == len
  {
    UniformCost(lens, len, 1);
    UniformCost(lens, len, 2);
    UniformCost(lens, len, 3);
  }
}
