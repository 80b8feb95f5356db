/** Builder side of the perfect-hash index: slot values in reverse peel order, then the table
    of block ranks. */
module IndexBuilder {
  import opened Bits
  import opened FastMod
  import opened Peeling
  import opened Wrappers
  import opened PerfectHash
  import opened IndexFormat

  // ----- 2-bit cells in a byte array

  function SetBits(byte: u8, i: nat, val: nat): nat
    requires i < 4 && val < 4
  {
    MaskFits(i);
    Or(And(byte, 255 - Shl(3, 2 * i)), Shl(val, 2 * i))
  }

  lemma MaskFits(i: nat)
    requires i < 4
    ensures Shl(3, 2 * i) == (if i == 0 then 3 else if i == 1 then 12 else if i == 2 then 48 else 192)
  {
    assert Shl(3, 2) == 12;
    assert Shl(3, 4) == 48;
    assert Shl(3, 6) == 192;
  }

  lemma AndOrSmall(x: nat)
    requires x < 4
    ensures And(x, 3) == x && And(x, 0) == 0 && Or(x, 0) == x && Or(0, x) == x
  {
  }

  lemma MaskDigit(i: nat, j: nat)
    requires i < 4 && j < 4 && Shl(3, 2 * i) <= 255
    ensures Digit(255 - Shl(3, 2 * i), j) == if i == j then 0 else 3
  {
    MaskFits(i);
  }

  lemma {:induction false} ValueDigit(i: nat, j: nat, val: nat)
    requires val < 4
    ensures Digit(Shl(val, 2 * i), j) == (if i == j then val else 0) && Shl(val, 2 * i) < Pow4(i + 1)
    decreases i
  {
    if i == 0 {
      if j > 0 { NoDigit(j - 1); }
    } else {
      assert Shl(val, 2 * i) == 2 * Shl(val, 2 * i - 1) == 4 * Shl(val, 2 * i - 2);
      ValueDigit(i - 1, if j > 0 then j - 1 else 0, val);
    }
  }

  lemma {:induction false} NoDigit(j: nat)
    ensures Digit(0, j) == 0
    decreases j
  {
    if j > 0 { NoDigit(j - 1); }
  }

  lemma SetBitsDigits(byte: u8, i: nat, val: nat)
    requires i < 4 && val < 4
    ensures SetBits(byte, i, val) < 256
    ensures forall j :: 0 <= j < 4 ==> Digit(SetBits(byte, i, val), j) == if j == i then val else Digit(byte, j)
  {
    hide And, Or, Digit, Shl, Pow4;
    MaskFits(i);
    var mask, v := 255 - Shl(3, 2 * i), Shl(val, 2 * i);
    var kept := And(byte, mask);
    Pow4Values();
    ValueDigit(i, 0, val);
    SmallPowers(i);
    OrBelow(kept, v, 4);
    forall j | 0 <= j < 4 ensures Digit(SetBits(byte, i, val), j) == if j == i then val else Digit(byte, j) {
      AndDigit(byte, mask, j);
      OrDigit(kept, v, j);
      MaskDigit(i, j);
      ValueDigit(i, j, val);
      AndOrSmall(Digit(byte, j));
      AndOrSmall(val);
    }
  }

  lemma SmallPowers(i: nat)
    requires i < 4
    ensures Pow4(i + 1) <= Pow4(4)
  {
  }

  method SetBit2(vec: array<u8>, pos: nat, val: nat)
    requires pos < 4 * vec.Length && val < 4
    modifies vec
    ensures forall s :: 0 <= s < 4 * vec.Length ==> Val(vec[..], s) == if s == pos then val else old(Val(vec[..], s))
  {
    SetBitsDigits(vec[pos / 4], pos % 4, val);
    ghost var before := vec[..];
    vec[pos / 4] := SetBits(vec[pos / 4], pos % 4, val);
    forall s | 0 <= s < 4 * vec.Length ensures Val(vec[..], s) == if s == pos then val else Val(before, s) {
      assert s == 4 * (s / 4) + s % 4 && pos == 4 * (pos / 4) + pos % 4;
    }
  }

  // ----- slot assignment

  ghost predicate TakenBy(edges: seq<Edge>, order: seq<nat>, t: nat, s: nat)
    requires t <= |order| && InRange(order, |edges|)
  {
    exists j :: t <= j < |order| && edges[order[j]].Touches(s)
  }

  ghost predicate Owns(edges: seq<Edge>, order: seq<nat>, bm: seq<u8>, j: nat)
    requires j < |order| && InRange(order, |edges|)
  {
    && Within(edges[order[j]], 4 * |bm|)
    && Val(bm, Pick(bm, edges[order[j]])) != 3
  }

  /** Edges from position `t` of the order on own distinct slots, and no other slot is marked. */
  ghost predicate Assigned(edges: seq<Edge>, order: seq<nat>, t: nat, bm: seq<u8>, taken: seq<bool>) {
    && t <= |order| && InRange(order, |edges|) && |taken| <= 4 * |bm|
    && (forall s {:trigger taken[s]} :: 0 <= s < |taken| ==> (taken[s] <==> TakenBy(edges, order, t, s)))
    && (forall s {:trigger Val(bm, s)} :: 0 <= s < 4 * |bm| && Val(bm, s) != 3 ==> s < |taken| && taken[s])
    && (forall j {:trigger Owns(edges, order, bm, j)} :: t <= j < |order| ==> Owns(edges, order, bm, j))
    && (forall i, j {:trigger Owns(edges, order, bm, i), Owns(edges, order, bm, j)} :: t <= i < j < |order| ==>
          Owns(edges, order, bm, i) && Owns(edges, order, bm, j)
              && Pick(bm, edges[order[i]]) != Pick(bm, edges[order[j]]))
    && Rank(bm, 4 * |bm|) == |order| - t
  }

  lemma {:induction false} RankAfterSet(bm: seq<u8>, bm': seq<u8>, pos: nat, n: nat)
    requires |bm| == |bm'| && pos < 4 * |bm| && n <= 4 * |bm|
    requires forall s :: 0 <= s < 4 * |bm| && s != pos ==> Val(bm', s) == Val(bm, s)
    requires Val(bm, pos) == 3 && Val(bm', pos) != 3
    ensures Rank(bm', n) == Rank(bm, n) + (if pos < n then 1 else 0)
    decreases n
  {
    hide Val;
    if n > 0 { RankAfterSet(bm, bm', pos, n - 1); }
  }

  lemma {:induction false} RankOfBlank(bm: seq<u8>, n: nat)
    requires n <= 4 * |bm| && forall s :: 0 <= s < 4 * |bm| ==> Val(bm, s) == 3
    ensures Rank(bm, n) == 0
    decreases n
  {
    if n > 0 { RankOfBlank(bm, n - 1); }
  }

  lemma LaterEdgesAvoid(edges: seq<Edge>, order: seq<nat>, t: nat, k: nat, j: nat)
    requires PeelPrefix(edges, order) && t < j < |order| && k < 3 && FreesSlot(edges, order, t, k)
    ensures !edges[order[j]].Touches(edges[order[t]].Slot(k))
  {
    assert order[j] < |edges|;
    assert order[j] !in order[..t + 1];
  }

  /** In reverse peel order some slot of the next edge is always free. */
  lemma SomeSlotFree(edges: seq<Edge>, order: seq<nat>, t: nat, taken: seq<bool>)
    requires PeelOrder(edges, order) && t < |order| && EdgesOver(edges, |taken|)
    requires forall s :: 0 <= s < |taken| ==> (taken[s] <==> TakenBy(edges, order, t + 1, s))
    ensures var e := edges[order[t]]; !taken[e.a] || !taken[e.b] || !taken[e.c]
  {
    assert Frees(edges, order, t);
    var k :| 0 <= k < 3 && FreesSlot(edges, order, t, k);
    var s := edges[order[t]].Slot(k);
    forall j | t < j < |order| ensures !edges[order[j]].Touches(s) {
      LaterEdgesAvoid(edges, order, t, k, j);
    }
    assert !taken[s];
  }

  /** What processing the edge at position `t` did: it took the free slot `i` of its edge. */
  ghost predicate Processed(edges: seq<Edge>, order: seq<nat>, t: nat, bm: seq<u8>, taken: seq<bool>,
                            bm': seq<u8>, taken': seq<bool>, i: nat)
    requires t < |order| && InRange(order, |edges|) && i < 3 && EdgesOver(edges, |taken|) && |taken| <= 4 * |bm|
  {
    var e := edges[order[t]];
    && |bm'| == |bm| && |taken'| == |taken|
    && (forall s :: 0 <= s < |taken| ==> (taken'[s] <==> taken[s] || e.Touches(s)))
    && !taken[e.Slot(i)]
    && (forall s :: 0 <= s < 4 * |bm| && s != e.Slot(i) ==> Val(bm', s) == Val(bm, s))
    && Val(bm', e.Slot(i)) < 3
    && Pick(bm', e) == e.Slot(i)
  }

  lemma TouchedIsTaken(edges: seq<Edge>, order: seq<nat>, t: nat, j: nat)
    requires t <= j < |order| && InRange(order, |edges|)
    ensures forall s :: edges[order[j]].Touches(s) ==> TakenBy(edges, order, t, s)
  {
  }

  lemma OwnsStep(edges: seq<Edge>, order: seq<nat>, t: nat, bm: seq<u8>, taken: seq<bool>,
                 bm': seq<u8>, taken': seq<bool>, i: nat, j: nat)
    requires Assigned(edges, order, t + 1, bm, taken) && t < |order| && EdgesOver(edges, |taken|) && i < 3
    requires Processed(edges, order, t, bm, taken, bm', taken', i) && t <= j < |order|
    ensures Owns(edges, order, bm', j)
    ensures j > t ==>
              && Owns(edges, order, bm, j)
              && Pick(bm', edges[order[j]]) == Pick(bm, edges[order[j]]) != edges[order[t]].Slot(i)
  {
    hide Val, Rank;
    if j > t {
      assert Owns(edges, order, bm, j);
      var slot := edges[order[t]].Slot(i);
      TouchedIsTaken(edges, order, t + 1, j);
    }
  }

  lemma TakenStep(edges: seq<Edge>, order: seq<nat>, t: nat, s: nat)
    requires t < |order| && InRange(order, |edges|)
    ensures TakenBy(edges, order, t, s) <==> TakenBy(edges, order, t + 1, s) || edges[order[t]].Touches(s)
  {
    if TakenBy(edges, order, t + 1, s) {
      var j :| t + 1 <= j < |order| && edges[order[j]].Touches(s);
      assert t <= j;
    }
    if edges[order[t]].Touches(s) { assert t <= t; }
  }

  lemma AssignStep(edges: seq<Edge>, order: seq<nat>, t: nat, bm: seq<u8>, taken: seq<bool>,
                   bm': seq<u8>, taken': seq<bool>, i: nat)
    requires Assigned(edges, order, t + 1, bm, taken) && t < |order| && EdgesOver(edges, |taken|) && i < 3
    requires Processed(edges, order, t, bm, taken, bm', taken', i)
    ensures Assigned(edges, order, t, bm', taken')
  {
    hide Val, Rank, Pick, TakenBy;
    var slot := edges[order[t]].Slot(i);
    assert Val(bm, slot) == 3;
    RankAfterSet(bm, bm', slot, 4 * |bm|);
    forall s | 0 <= s < |taken'| ensures taken'[s] <==> TakenBy(edges, order, t, s) {
      TakenStep(edges, order, t, s);
    }
    forall j | t <= j < |order| ensures Owns(edges, order, bm', j) {
      OwnsStep(edges, order, t, bm, taken, bm', taken', i, j);
    }
    forall p, q | t <= p < q < |order|
      ensures Owns(edges, order, bm', p) && Owns(edges, order, bm', q)
          && Pick(bm', edges[order[p]]) != Pick(bm', edges[order[q]])
    {
      OwnsStep(edges, order, t, bm, taken, bm', taken', i, p);
      OwnsStep(edges, order, t, bm, taken, bm', taken', i, q);
    }
  }

  /** One round of the assignment: the edge takes its first free slot and stores there the value
      that makes its three values sum, mod 3, to the index of that slot. */
  method AssignEdge(edges: seq<Edge>, order: seq<nat>, t: nat, bitmap: array<u8>, taken: array<bool>)
    requires PeelOrder(edges, order) && t < |order| && EdgesOver(edges, taken.Length)
    requires Assigned(edges, order, t + 1, bitmap[..], taken[..])
    modifies bitmap, taken
    ensures Assigned(edges, order, t, bitmap[..], taken[..])
  {
    hide Val, Rank, Pick, TakenBy;
    ghost var bm0, taken0 := bitmap[..], taken[..];
    SomeSlotFree(edges, order, t, taken0);
    var Edge(a, b, c) := edges[order[t]];
    var chosen, target := c, 2;
    if !taken[a] {
      taken[a], taken[b], taken[c] := true, true, true;
      chosen, target := a, 0;
    } else if !taken[b] {
      taken[b], taken[c] := true, true;
      chosen, target := b, 1;
    } else {
      taken[c] := true;
    }
    var va := GetBit2(bitmap, a);
    var vb := GetBit2(bitmap, b);
    var vc := GetBit2(bitmap, c);
    var sum := if chosen == a then vb + vc else if chosen == b then va + vc else va + vb;
    var chosenVal := (target + 3 - sum % 3) % 3;
    SetBit2(bitmap, chosen, chosenVal);
    PickIsTarget(bitmap[..], edges[order[t]], target, chosenVal, sum);
    AssignStep(edges, order, t, bm0, taken0, bitmap[..], taken[..], target);
  }

  /** Gives every edge a slot of its own, and marks no other slot. */
  method AssignSlots(edges: seq<Edge>, order: seq<nat>, slotCnt: nat, bitmapSize: nat) returns (bm: seq<u8>)
    requires EdgesOver(edges, slotCnt) && PeelOrder(edges, order) && slotCnt <= 4 * bitmapSize
    ensures |bm| == bitmapSize && Rank(bm, 4 * |bm|) == |edges|
    ensures forall e :: 0 <= e < |edges| ==> Val(bm, Pick(bm, edges[e])) != 3
    ensures forall e, f :: 0 <= e < f < |edges| ==> Pick(bm, edges[e]) != Pick(bm, edges[f])
  {
    var bitmap := new u8[bitmapSize](_ => 0xff);
    var taken := new bool[slotCnt](_ => false);
    BlankBitmap(bitmap[..]);
    var t := |order|;
    while t > 0
      invariant 0 <= t <= |order| && Assigned(edges, order, t, bitmap[..], taken[..])
    {
      t := t - 1;
      AssignEdge(edges, order, t, bitmap, taken);
    }
    bm := bitmap[..];
    AllAssigned(edges, order, bm, taken[..]);
  }

  lemma BlankBitmap(bm: seq<u8>)
    requires forall i :: 0 <= i < |bm| ==> bm[i] == 0xff
    ensures forall s :: 0 <= s < 4 * |bm| ==> Val(bm, s) == 3
    ensures Rank(bm, 4 * |bm|) == 0
  {
    forall s | 0 <= s < 4 * |bm| ensures Val(bm, s) == 3 {
      assert Digit(0xff, 0) == 3 && Digit(0xff, 1) == 3 && Digit(0xff, 2) == 3 && Digit(0xff, 3) == 3;
    }
    RankOfBlank(bm, 4 * |bm|);
  }

  lemma AllAssigned(edges: seq<Edge>, order: seq<nat>, bm: seq<u8>, taken: seq<bool>)
    requires PeelOrder(edges, order) && EdgesOver(edges, |taken|) && Assigned(edges, order, 0, bm, taken)
    ensures forall e :: 0 <= e < |edges| ==> Val(bm, Pick(bm, edges[e])) != 3
    ensures forall e, f :: 0 <= e < f < |edges| ==> Pick(bm, edges[e]) != Pick(bm, edges[f])
  {
    hide Val, Rank, Pick, TakenBy;
    DistinctCovers(order, |edges|);
    forall e | 0 <= e < |edges| ensures Val(bm, Pick(bm, edges[e])) != 3 {
      assert e in order;
      var i :| 0 <= i < |order| && order[i] == e;
      assert Owns(edges, order, bm, i);
    }
    forall e, f | 0 <= e < f < |edges| ensures Pick(bm, edges[e]) != Pick(bm, edges[f]) {
      assert e in order && f in order;
      var i :| 0 <= i < |order| && order[i] == e;
      var j :| 0 <= j < |order| && order[j] == f;
      assert Owns(edges, order, bm, i) && Owns(edges, order, bm, j);
    }
  }

  method GetBit2(vec: array<u8>, pos: nat) returns (v: nat)
    requires pos < 4 * vec.Length
    ensures v == Val(vec[..], pos)
  {
    DigitIsShift(vec[pos / 4], pos % 4);
    v := Shr(vec[pos / 4], 2 * (pos % 4)) % 4;
  }

  lemma PickIsTarget(bm: seq<u8>, edge: Edge, target: nat, chosenVal: nat, sum: nat)
    requires Within(edge, 4 * |bm|) && target < 3
    requires Val(bm, edge.Slot(target)) == chosenVal == (target + 3 - sum % 3) % 3
    requires sum + chosenVal == Val(bm, edge.a) + Val(bm, edge.b) + Val(bm, edge.c)
    ensures Pick(bm, edge) == edge.Slot(target)
  {
    hide Val;
  }

  // ----- the rank table

  function CounterMax(width: nat): nat {
    if width == 4 then 0xffff_ffff else if width == 2 then 0xffff else if width == 1 then 0xff else 0
  }

  lemma {:induction false} LeRoundTrip(v: nat, n: nat)
    requires v < Pow4(4 * n)
    ensures LeNat(LeBytes(v, n)) == v
    decreases n
  {
    if n > 0 {
      Pow4Add(4, 4 * (n - 1));
      Pow4Values();
      LeRoundTrip(v / 256, n - 1);
      assert LeBytes(v, n)[1..] == LeBytes(v / 256, n - 1);
    }
  }

  lemma CounterRoundTrip(v: nat, width: nat)
    requires width in {1, 2, 4} && v <= CounterMax(width)
    ensures LeNat(LeBytes(v, width)) == v
  {
    Pow4Values();
    Pow4Add(4, 4);
    LeRoundTrip(v, width);
  }

  ghost predicate Entry(table: seq<u8>, width: nat, a: nat, v: nat) {
    (a + 1) * width <= |table| && LeNat(table[a * width..(a + 1) * width]) == v
  }

  lemma EntryKept(table: seq<u8>, more: seq<u8>, width: nat, a: nat, v: nat)
    requires Entry(table, width, a, v)
    ensures Entry(table + more, width, a, v)
  {
    hide LeNat;
    assert (table + more)[a * width..(a + 1) * width] == table[a * width..(a + 1) * width];
  }

  lemma EntryAdded(table: seq<u8>, width: nat, a: nat, v: nat)
    requires width in {1, 2, 4} && v <= CounterMax(width) && |table| == a * width
    ensures Entry(table + LeBytes(v, width), width, a, v)
  {
    hide LeNat, LeBytes;
    CounterRoundTrip(v, width);
    assert (table + LeBytes(v, width))[a * width..(a + 1) * width] == LeBytes(v, width);
  }

  lemma CountOfBlock(bm: seq<u8>, block: nat)
    requires block * 8 + 8 <= |bm|
    ensures Rank(bm, 32 * block + 32)
        == Rank(bm, 32 * block) + CountValidSlot(LeNat(bm[block * 8..block * 8 + 8])) <= Rank(bm, 4 * |bm|)
    ensures CountValidSlot(LeNat(bm[block * 8..block * 8 + 8])) >= 0
  {
    hide LeNat, Rank, CountValidSlot;
    CountIsValidAmong(LeNat(bm[block * 8..block * 8 + 8]));
    BlockRank(bm, block, 32);
    RankMonotone(bm, 32 * block + 32, 4 * |bm|);
  }

  /** The running counter never exceeds its 8-, 16- or 32-bit type. */
  method BuildTable(bm: seq<u8>, width: nat) returns (table: seq<u8>)
    requires |bm| % 8 == 0 && width in {1, 2, 4} && Rank(bm, 4 * |bm|) <= CounterMax(width)
    ensures |table| == |bm| / 8 * width && TableOk(bm, table, width)
  {
    hide Rank, LeNat, LeBytes, CountValidSlot, Entry;
    table := [];
    var cnt := 0;
    RankAtZero(bm);
    for block := 0 to |bm| / 8
      invariant |table| == block * width
      invariant cnt == Rank(bm, 32 * block) <= CounterMax(width)
      invariant forall a :: 0 <= a < block ==> Entry(table, width, a, Rank(bm, 32 * a))
    {
      ghost var before := table;
      table := table + LeBytes(cnt, width);
      EntryAdded(before, width, block, cnt);
      forall a | 0 <= a < block ensures Entry(table, width, a, Rank(bm, 32 * a)) {
        EntryKept(before, LeBytes(cnt, width), width, a, Rank(bm, 32 * a));
      }
      CountOfBlock(bm, block);
      cnt := cnt + CountValidSlot(LeNat(bm[block * 8..block * 8 + 8]));
    }
    EntriesAreTable(bm, table, width);
  }

  lemma EntriesAreTable(bm: seq<u8>, table: seq<u8>, width: nat)
    requires |bm| % 8 == 0 && width in {1, 2, 4}
    requires forall a :: 0 <= a < |bm| / 8 ==> Entry(table, width, a, Rank(bm, 32 * a))
    ensures TableOk(bm, table, width)
  {
    hide Rank, LeNat;
  }

  lemma RankAtZero(bm: seq<u8>)
    ensures Rank(bm, 0) == 0
  {
  }

  // ----- the builder

  /** Reading the finished index back. */
  lemma ParsedIndex(data: seq<u8>, index: seq<u8>, n: nat, seed: u32, bm: seq<u8>, table: seq<u8>)
    requires 2 <= n < MAX_KEYS && Carries(data, index)
    requires index == WordBytes(n) + WordBytes(seed) + bm + table
    requires |bm| == HashLayout(n).bitmapSize && |index| == HashLayout(n).bytes
    ensures var view := NewView(data);
            && view.Some? && view.value.len == n && |view.value.data| == |index|
            && view.value.bitmap == bm && view.value.table == table
            && view.value.section == HashLayout(n).section && view.value.tableWidth == HashLayout(n).tableWidth
            && view.value.magic == FastModMagic(HashLayout(n).section)
            && |view.value.data| >= 8 && Seed(view.value.data) == seed
  {
    hide LeNat, WordBytes, HashLayout;
    WordOfBytes(n);
    WordOfBytes(seed);
    assert index[..4] == WordBytes(n);
    assert data[..|index|][4..8] == data[4..|index|][..4] == index[4..][..4] == WordBytes(seed);
    assert data[8..|index|] == data[4..|index|][4..] == index[8..] == bm + table;
    assert data[8..8 + |bm|] == data[8..|index|][..|bm|] == bm;
    assert data[8 + |bm|..|index|] == data[8..|index|][|bm|..] == table;
  }

  ghost function PositionsOf(bm: seq<u8>, edges: seq<Edge>): (positions: seq<nat>)
    requires forall e :: 0 <= e < |edges| ==> Within(edges[e], 4 * |bm|)
    ensures |positions| == |edges|
  {
    seq(|edges|, e requires 0 <= e < |edges| => Rank(bm, Pick(bm, edges[e])))
  }

  /** Ranks of distinct occupied slots number them 0, 1, ..., n - 1. */
  lemma RanksAreBijection(bm: seq<u8>, edges: seq<Edge>)
    requires forall e :: 0 <= e < |edges| ==> Within(edges[e], 4 * |bm|)
    requires Rank(bm, 4 * |bm|) == |edges|
    requires forall e :: 0 <= e < |edges| ==> Val(bm, Pick(bm, edges[e])) != 3
    requires forall e, f :: 0 <= e < f < |edges| ==> Pick(bm, edges[e]) != Pick(bm, edges[f])
    ensures var p := PositionsOf(bm, edges); Distinct(p) && InRange(p, |edges|) && forall k :: 0 <= k < |edges| ==>
        k in p
  {
    hide Val, Rank, Pick;
    var positions := PositionsOf(bm, edges);
    forall e | 0 <= e < |edges| ensures positions[e] < |edges| {
      RankMonotone(bm, Pick(bm, edges[e]), 4 * |bm|);
    }
    forall e, f | 0 <= e < f < |edges| ensures positions[e] != positions[f] {
      var s, t := Pick(bm, edges[e]), Pick(bm, edges[f]);
      if s < t { RankMonotone(bm, s, t); } else { RankMonotone(bm, t, s); }
    }
    DistinctCovers(positions, |edges|);
  }

  /** Whatever data carries the index, locating a key yields the rank of its slot. */
  lemma IndexLocates(data: seq<u8>, hash: Hash, keys: seq<seq<u8>>, index: seq<u8>, seed: u32, bm: seq<u8>,
                     table: seq<u8>)
    requires 2 <= |keys| < MAX_KEYS && Carries(data, index)
    requires index == WordBytes(|keys|) + WordBytes(seed) + bm + table
    requires |bm| == HashLayout(|keys|).bitmapSize && |index| == HashLayout(|keys|).bytes
    requires TableOk(bm, table, HashLayout(|keys|).tableWidth)
    requires 3 * HashLayout(|keys|).section <= 4 * |bm| && HashLayout(|keys|).section < TWO32
    ensures Locates(data, hash, keys, PositionsOf(bm, EdgesOf(hash, keys, seed, HashLayout(|keys|).section)), |index|)
  {
    hide HashLayout, LocateSlots, Rank, Pick, LeNat, WordBytes, TableOk;
    var section := HashLayout(|keys|).section;
    ParsedIndex(data, index, |keys|, seed, bm, table);
    var view := NewView(data).value;
    var edges := EdgesOf(hash, keys, seed, section);
    forall i | 0 <= i < |keys| ensures Locate(view, hash, keys[i]) == Some(PositionsOf(bm, edges)[i]) {
      SlotsAreEdge(hash, keys[i], seed, section);
      LocateSlotsIsRank(view, edges[i]);
    }
  }

  /** Up to one key the index is just its length, and everything sits at position 0. */
  lemma TrivialIndex(hash: Hash, keys: seq<seq<u8>>)
    requires |keys| <= 1
    ensures IndexFor(hash, keys, WordBytes(|keys|), seq(|keys|, _ => 0))
  {
    WordOfBytes(|keys|);
    var index, positions := WordBytes(|keys|), seq(|keys|, _ => 0);
    assert index[..4] == index;
    if |keys| == 1 { assert positions[0] == 0; }
    forall data | Carries(data, index) ensures Locates(data, hash, keys, positions, |index|) {}
  }

  /** One attempt: the edges of all keys under `seed`, and their peel order. */
  method TrySeed(keys: seq<seq<u8>>, hash: Hash, seed: u32, section: u32)
    returns (edges: seq<Edge>, order: Option<seq<nat>>)
    requires 2 <= |keys| < MAX_KEYS && section == HashLayout(|keys|).section
    ensures edges == EdgesOf(hash, keys, seed, section) && EdgesOver(edges, 3 * section)
    ensures order.Some? ==> PeelOrder(edges, order.value)
    ensures order.None? <==> Unpeelable(hash, keys, seed)
  {
    var magic := FastModMagic(section);
    edges := seq(|keys|, i requires 0 <= i < |keys| => SlotsOf(hash, keys[i], seed, section, magic));
    forall i | 0 <= i < |keys| ensures edges[i] == EdgeOf(hash, keys[i], seed, section) {
      SlotsAreEdge(hash, keys[i], seed, section);
    }
    LayoutFits(|keys|);
    assert EdgesOver(edges, 3 * section);
    assert edges == EdgesOf(hash, keys, seed, section);
    order := PeelGraph(edges, 3 * section);
  }

  /** The finished index for a peeled set of keys. */
  method Assemble(keys: seq<seq<u8>>, hash: Hash, seed: u32, edges: seq<Edge>, order: seq<nat>)
    returns (index: seq<u8>, ghost positions: seq<nat>)
    requires 2 <= |keys| < MAX_KEYS && edges == EdgesOf(hash, keys, seed, HashLayout(|keys|).section)
    requires EdgesOver(edges, 3 * HashLayout(|keys|).section) && PeelOrder(edges, order)
    ensures IndexFor(hash, keys, index, positions)
    ensures LaidOut(hash, keys, index, positions, seed, HashLayout(|keys|))
  {
    hide HashLayout, Val, Rank, Pick, LaidOut;
    LayoutFits(|keys|);
    var l := HashLayout(|keys|);
    CounterHolds(|keys|, l.tableWidth);
    var bm := AssignSlots(edges, order, l.section * 3, l.bitmapSize);
    var table := [];
    if l.tableWidth != 0 {
      table := BuildTable(bm, l.tableWidth);
    } else {
      RankAtZero(bm);
    }
    index := WordBytes(|keys|) + WordBytes(seed) + bm + table;
    positions := PositionsOf(bm, edges);
    RanksAreBijection(bm, edges);
    WordOfBytes(|keys|);
    assert index[..4] == WordBytes(|keys|);
    forall data | Carries(data, index) ensures Locates(data, hash, keys, positions, |index|) {
      IndexLocates(data, hash, keys, index, seed, bm, table);
    }
    IndexIsLaidOut(hash, keys, seed, bm, table, index);
  }

  lemma KeysPut(hash: Hash, keys: seq<seq<u8>>, seed: u32, section: nat, bm: seq<u8>, index: seq<u8>)
    requires section >= 2 && 3 * section <= 4 * |bm| && |index| >= 8 && bm <= index[8..]
    requires forall i :: 0 <= i < |keys| ==> Val(bm, Pick(bm, EdgeOf(hash, keys[i], seed, section))) != 3
    ensures var positions := PositionsOf(bm, EdgesOf(hash, keys, seed, section));
            forall i :: 0 <= i < |keys| ==> PutAt(hash, keys[i], index, seed, section, positions[i])
  {
    hide Val, Rank, Pick, PutAt;
    var positions := PositionsOf(bm, EdgesOf(hash, keys, seed, section));
    forall i | 0 <= i < |keys| ensures PutAt(hash, keys[i], index, seed, section, positions[i]) {
      PutIsRank(hash, keys[i], index, bm, seed, section);
    }
  }

  lemma InOrderOf(n: seq<u8>, seed: seq<u8>, bm: seq<u8>, table: seq<u8>, index: seq<u8>)
    requires |n| == |seed| == 4 && index == n + seed + bm + table
    ensures |index| == 8 + |bm| + |table| && index[..4] == n && index[4..8] == seed && index[8..] == bm + table
  {
  }

  lemma CountersPut(index: seq<u8>, bm: seq<u8>, table: seq<u8>, width: nat)
    requires |index| >= 8 && index[8..] == bm + table && TableOk(bm, table, width)
    ensures forall block: nat :: block < |bm| / 8 && width > 0 ==> CounterPut(index, |bm|, width, block)
  {
    hide CounterPut, TableOk;
    forall block: nat | block < |bm| / 8 && width > 0 ensures CounterPut(index, |bm|, width, block) {
      CounterIsRank(index, bm, table, width, block);
    }
  }

  /** Number, seed, bitmap and table in a row are an index in the plain format. */
  lemma IndexIsLaidOut(hash: Hash, keys: seq<seq<u8>>, seed: u32, bm: seq<u8>, table: seq<u8>, index: seq<u8>)
    requires 2 <= |keys| < MAX_KEYS && |bm| == HashLayout(|keys|).bitmapSize
    requires TableOk(bm, table, HashLayout(|keys|).tableWidth)
    requires |table| == |bm| / 8 * HashLayout(|keys|).tableWidth
    requires Rank(bm, 4 * |bm|) == |keys| && 3 * HashLayout(|keys|).section <= 4 * |bm|
    requires forall i :: 0 <= i < |keys| ==>
        Val(bm, Pick(bm, EdgeOf(hash, keys[i], seed, HashLayout(|keys|).section))) != 3
    requires index == WordBytes(|keys|) + WordBytes(seed) + bm + table
    ensures LaidOut(hash, keys, index, PositionsOf(bm, EdgesOf(hash, keys, seed, HashLayout(|keys|).section)), seed,
                    HashLayout(|keys|))
  {
    hide HashLayout, Val, Rank, Pick, PutAt, UsedBelow, WordBytes, Number, CounterPut, SectionFor, CounterFor, TableOk,
         EdgeOf, PositionsOf;
    var l := HashLayout(|keys|);
    LayoutFits(|keys|);
    InOrderOf(WordBytes(|keys|), WordBytes(seed), bm, table, index);
    NumbersInFront(|keys|, seed, index);
    KeysPut(hash, keys, seed, l.section, bm, index);
    UsedIsRank(index, bm, 4 * |bm|);
    CountersPut(index, bm, table, l.tableWidth);
  }

  lemma NumbersInFront(n: u32, seed: u32, index: seq<u8>)
    requires |index| >= 8 && index[..4] == WordBytes(n) && index[4..8] == WordBytes(seed)
    ensures Number(index[..4]) == n && Number(index[4..8]) == seed
  {
    hide Number, LeNat;
    NumberIs(index[..4]);
    NumberIs(index[4..8]);
    WordOfBytes(n);
    WordOfBytes(seed);
  }

  lemma CounterHolds(len: nat, width: nat)
    requires CounterFor(len, width) && len < MAX_KEYS
    ensures if width == 0 then len <= 24 else width in {1, 2, 4} && len <= CounterMax(width)
  {
  }

  lemma DuplicatesNeverPeel(hash: Hash, keys: seq<seq<u8>>)
    ensures (exists i, j :: 0 <= i < j < |keys| && keys[i] == keys[j]) ==>
              |keys| >= 2 && forall seed: u32 :: Unpeelable(hash, keys, seed)
  {
    if i, j :| 0 <= i < j < |keys| && keys[i] == keys[j] {
      forall seed: u32 ensures Unpeelable(hash, keys, seed) {
        DuplicatesUnpeelable(hash, keys, seed, i, j);
      }
    }
  }

  lemma IndexCarriesItself(hash: Hash, keys: seq<seq<u8>>, index: seq<u8>, positions: seq<nat>)
    requires IndexFor(hash, keys, index, positions)
    ensures |positions| == |keys| && Locates(index, hash, keys, positions, |index|)
  {
    assert index[4..|index|] == index[4..];
    assert Carries(index, index);
  }

  /** The reported positions, as the builder reads them back from the index. */
  method ReadPositions(keys: seq<seq<u8>>, hash: Hash, index: seq<u8>,
                       ghost positions: seq<nat>) returns (found: seq<nat>)
    requires IndexFor(hash, keys, index, positions)
    ensures found == positions
  {
    hide *;
    IndexCarriesItself(hash, keys, index, positions);
    var view := NewView(index).value;
    found := [];
    for i := 0 to |keys|
      invariant |found| == i && found == positions[..i]
    {
      LocatesOne(index, hash, keys, positions, |index|, i);
      found := found + [Locate(view, hash, keys[i]).value];
    }
  }

  lemma LocatesOne(data: seq<u8>, hash: Hash, keys: seq<seq<u8>>, positions: seq<nat>, size: nat, i: nat)
    requires |positions| == |keys| && Locates(data, hash, keys, positions, size) && i < |keys|
    ensures NewView(data).Some? && Locate(NewView(data).value, hash, keys[i]) == Some(positions[i])
  {
    hide NewView, Locate;
  }

  /** The index is in the plain format, laid out with the first seed that separates the keys. */
  ghost predicate Formatted(keys: seq<seq<u8>>, hash: Hash, seeds: seq<u32>, index: seq<u8>, positions: seq<nat>) {
    if |keys| <= 1 then Trivial(keys, index, positions)
    else
      exists k {:trigger seeds[k]} :: 0 <= k < |seeds|
        && (forall j :: 0 <= j < k ==> Unpeelable(hash, keys, seeds[j]))
        && LaidOut(hash, keys, index, positions, seeds[k], HashLayout(|keys|))
  }

  lemma TrivialIsFormatted(keys: seq<seq<u8>>)
    requires |keys| <= 1
    ensures Trivial(keys, WordBytes(|keys|), seq(|keys|, _ => 0))
  {
    NumberIs(WordBytes(|keys|));
    WordOfBytes(|keys|);
  }

  /** Builds an index and the storage position of every key, trying each seed in turn.
      It fails exactly when there are too many keys or no seed separates them. */
  method BuildIndexWithPositions(keys: seq<seq<u8>>, hash: Hash, seeds: seq<u32>)
    returns (result: Option<(seq<u8>, seq<nat>)>)
    requires |seeds| == 40
    ensures result.Some? ==> IndexFor(hash, keys, result.value.0, result.value.1)
    ensures result.None? <==>
        |keys| >= MAX_KEYS || (|keys| >= 2 && forall k :: 0 <= k < 40 ==> Unpeelable(hash, keys, seeds[k]))
    ensures (exists i, j :: 0 <= i < j < |keys| && keys[i] == keys[j]) ==> result.None?
    ensures result.Some? ==> Formatted(keys, hash, seeds, result.value.0, result.value.1)
  {
    hide HashLayout, Unpeelable, IndexFor, LaidOut, Trivial;
    var total := |keys|;
    DuplicatesNeverPeel(hash, keys);
    if total >= MAX_KEYS {
      return None;
    }
    if total <= 1 {
      TrivialIndex(hash, keys);
      TrivialIsFormatted(keys);
      return Some((WordBytes(total), seq(total, _ => 0)));
    }
    LayoutFits(total);
    var section: u32 := HashLayout(total).section;
    for attempt := 0 to 40
      invariant forall k :: 0 <= k < attempt ==> Unpeelable(hash, keys, seeds[k])
    {
      var edges, order := TrySeed(keys, hash, seeds[attempt], section);
      if order.Some? {
        var index;
        ghost var positions;
        index, positions := Assemble(keys, hash, seeds[attempt], edges, order.value);
        var found := ReadPositions(keys, hash, index, positions);
        return Some((index, found));
      }
    }
    return None;
  }
}
