/** Reader side of the perfect-hash index: a 2-bit bitmap over three sections of slots and
    a table of running counts, one per block of 32 slots. */
module PerfectHash {
  import opened Bits
  import opened FastMod
  import opened Peeling
  import opened Wrappers

  // hash128 is left arbitrary: nothing below depends on which function it is.
  type Hash = (seq<u8>, u32) -> (u32, u32, u32)

  datatype Layout = Layout(section: nat, bitmapSize: nat, tableWidth: nat, bytes: nat)

  const MAX_KEYS: nat := 0x1000_0000

  function Section(len: nat): (section: nat)
    ensures section >= 10
  {
    var scaled := (len * 105 + 255) / 256;
    if scaled > 10 then scaled else 10
  }

  function BitmapSize(section: nat): nat {
    (section * 3 + 31) / 32 * 32 / 4
  }

  function HashLayout(len: nat): (l: Layout)
    ensures l.section >= 10
  {
    var section := Section(len);
    var bitmapSize := BitmapSize(section);
    var tableWidth := if len > 0xffff then 4 else if len > 0xff then 2 else if len > 24 then 1 else 0;
    Layout(section, bitmapSize, tableWidth, 8 + bitmapSize + bitmapSize / 8 * tableWidth)
  }

  lemma Blocks(section: nat)
    ensures 0 <= 4 * BitmapSize(section) - 3 * section < 32 && BitmapSize(section) % 8 == 0
    ensures section == 10 ==> BitmapSize(section) == 8
  {
    assert (section * 3 + 31) / 32 * 32 / 4 == (section * 3 + 31) / 32 * 8;
  }

  lemma Scaled(len: nat)
    ensures SectionFor(len, Section(len))
    ensures len <= 24 ==> Section(len) == 10
    ensures len < MAX_KEYS ==> Section(len) < MAX_KEYS
  {
  }

  /** A section has 105 slots for every 256 keys, rounded up, and at least ten. */
  predicate SectionFor(len: nat, section: nat) {
    if 105 * len <= 2560 then section == 10 else 105 * len <= 256 * section <= 105 * len + 255
  }

  /** The narrowest counter that holds `len`, and none up to 24 keys. */
  predicate CounterFor(len: nat, width: nat) {
    if len <= 24 then width == 0
    else if len < 0x100 then width == 1
    else if len < 0x1_0000 then width == 2
    else width == 4
  }

  /** Three sections of slots at two bits each, in whole blocks of 32, and one counter a block. */
  lemma LayoutFits(len: nat)
    ensures var l := HashLayout(len);
            && SectionFor(len, l.section) && CounterFor(len, l.tableWidth)
            && 0 <= 4 * l.bitmapSize - 3 * l.section < 32 && l.bitmapSize % 8 == 0
            && l.bytes == 8 + l.bitmapSize + l.bitmapSize / 8 * l.tableWidth
            && (len <= 24 ==> l.bitmapSize == 8)
            && (len < MAX_KEYS ==> 3 * l.section < TWO32)
  {
    hide Section, BitmapSize;
    Scaled(len);
    Blocks(Section(len));
  }

  datatype HashView = HashView(data: seq<u8>, bitmap: seq<u8>, table: seq<u8>, section: nat, magic: u64, len: nat,
      tableWidth: nat)

  function ReadLe(data: seq<u8>, width: nat): Option<nat> {
    if width <= |data| then Some(LeNat(data[..width])) else None
  }

  /** Parses and bounds-checks an index from the beginning of `data`. */
  function NewView(data: seq<u8>): Option<HashView> {
    match ReadLe(data, 4)
    case None => None
    case Some(header) =>
      var len := header % MAX_KEYS;
      if len <= 1 then Some(HashView(data[..4], [], [], 0, 0, len, 0))
      else
        var l := HashLayout(len);
        if l.bytes > |data| then None
        else
          Some(HashView(data[..l.bytes], data[8..8 + l.bitmapSize], data[8 + l.bitmapSize..l.bytes],
                        l.section, FastModMagic(l.section), len, l.tableWidth))
  }

  function Bit2(vec: seq<u8>, pos: nat): Option<nat> {
    if pos / 4 < |vec| then Some(Shr(vec[pos / 4], 2 * (pos % 4)) % 4) else None
  }

  function ReadOffset(table: seq<u8>, width: nat, index: nat): Option<nat> {
    if width == 0 then Some(0)
    else if width != 1 && width != 2 && width != 4 then None
    else if (index + 1) * width <= |table| then Some(LeNat(table[index * width..(index + 1) * width]))
    else None
  }

  function CountValidSlot(v: nat): int {
    32 - PopCount(And(And(v, 0x5555_5555_5555_5555), v / 2))
  }

  function LocateSlots(view: HashView, edge: Edge): Option<int> {
    match (Bit2(view.bitmap, edge.a), Bit2(view.bitmap, edge.b), Bit2(view.bitmap, edge.c))
    case (Some(x), Some(y), Some(z)) =>
      var slot := edge.Slot((x + y + z) % 3);
      var a, b := slot / 32, slot % 32;
      (match ReadOffset(view.table, view.tableWidth, a)
       case None => None
       case Some(off) =>
         if a * 8 + 8 > |view.bitmap| then None
         else
           var block := Or(LeNat(view.bitmap[a * 8..a * 8 + 8]), ((TWO64 - 1) * Pow2(2 * b)) % TWO64);
           Some(off + CountValidSlot(block)))
    case _ => None
  }

  function SlotsOf(hash: Hash, key: seq<u8>, seed: u32, section: u32, magic: u64): Edge {
    var code := hash(key, seed);
    Edge(FastModU32(code.0, section, magic),
         FastModU32(code.1, section, magic) + section,
         FastModU32(code.2, section, magic) + section * 2)
  }

  /** The candidate position of `key`; the caller compares the key stored there. */
  function Locate(view: HashView, hash: Hash, key: seq<u8>): Option<int> {
    if view.len == 0 then None
    else if view.len == 1 then Some(0)
    else if |view.data| < 8 || view.section >= TWO32 then None
    else LocateSlots(view, SlotsOf(hash, key, Seed(view.data), view.section, view.magic))
  }

  function Seed(data: seq<u8>): u32
    requires |data| >= 8
  {
    LeBound(data[4..8]);
    LeNat(data[4..8])
  }

  lemma LeBound(b: seq<u8>)
    requires |b| == 4
    ensures LeNat(b) < TWO32
  {
    LeFour(b[0], b[1], b[2], b[3]);
    assert b == [b[0], b[1], b[2], b[3]];
  }

  // ----- what the lookup means

  /** The 2-bit value of a slot; 3 marks a slot no key picked. */
  ghost function Val(bm: seq<u8>, s: nat): (d: nat)
    requires s < 4 * |bm|
    ensures d < 4
  {
    Digit(bm[s / 4], s % 4)
  }

  /** Number of picked slots below `s`. */
  ghost function Rank(bm: seq<u8>, s: nat): (r: nat)
    requires s <= 4 * |bm|
    ensures r <= s
  {
    if s == 0 then 0 else Rank(bm, s - 1) + (if Val(bm, s - 1) != 3 then 1 else 0)
  }

  ghost predicate Within(edge: Edge, bound: nat) {
    edge.a < bound && edge.b < bound && edge.c < bound
  }

  /** The slot an edge selects. */
  ghost function Pick(bm: seq<u8>, edge: Edge): (s: nat)
    requires Within(edge, 4 * |bm|)
    ensures s < 4 * |bm|
  {
    edge.Slot((Val(bm, edge.a) + Val(bm, edge.b) + Val(bm, edge.c)) % 3)
  }

  lemma {:induction false} RankMonotone(bm: seq<u8>, s: nat, t: nat)
    requires s <= t <= 4 * |bm|
    ensures Rank(bm, s) <= Rank(bm, t)
    ensures s < t && Val(bm, s) != 3 ==> Rank(bm, s) < Rank(bm, t)
    decreases t
  {
    if s < t { RankMonotone(bm, s, t - 1); }
  }

  /** Little-endian bytes keep their digits in order. */
  lemma {:induction false} DigitOfBytes(bytes: seq<u8>, i: nat)
    requires i < 4 * |bytes|
    ensures Digit(LeNat(bytes), i) == Digit(bytes[i / 4], i % 4)
  {
    Pow4Values();
    DigitSplit(bytes[0], LeNat(bytes[1..]), 4, i);
    if i >= 4 {
      DigitOfBytes(bytes[1..], i - 4);
      assert bytes[1..][(i - 4) / 4] == bytes[i / 4];
    }
  }

  lemma {:induction false} ValidAmongStep(v: nat, k: nat)
    ensures ValidAmong(v, k + 1) == ValidAmong(v, k) + (if Digit(v, k) != 3 then 1 else 0)
    decreases k
  {
    if k > 0 { ValidAmongStep(v / 4, k - 1); }
  }

  lemma BlockDigit(bm: seq<u8>, a: nat, b: nat)
    requires a * 8 + 8 <= |bm| && b < 32
    ensures Digit(LeNat(bm[a * 8..a * 8 + 8]), b) == Val(bm, 32 * a + b)
  {
    hide Digit, LeNat;
    var bytes := bm[a * 8..a * 8 + 8];
    DigitOfBytes(bytes, b);
    assert bytes[b / 4] == bm[(32 * a + b) / 4];
  }

  /** Inside a block, the rank advances with the occupied digits of its 64-bit word. */
  lemma {:induction false} BlockRank(bm: seq<u8>, a: nat, b: nat)
    requires a * 8 + 8 <= |bm| && b <= 32
    ensures Rank(bm, 32 * a + b) == Rank(bm, 32 * a) + ValidAmong(LeNat(bm[a * 8..a * 8 + 8]), b)
    decreases b
  {
    hide Digit, LeNat, Val;
    if b > 0 {
      BlockRank(bm, a, b - 1);
      BlockDigit(bm, a, b - 1);
      ValidAmongStep(LeNat(bm[a * 8..a * 8 + 8]), b - 1);
    }
  }

  lemma CountIsValidAmong(v: nat)
    ensures CountValidSlot(v) == ValidAmong(v, 32)
  {
    MaskValues();
    PairsOfOnes(v, 32);
  }

  lemma MaskedCount(v: nat, b: nat)
    requires b < 32
    ensures CountValidSlot(Or(v, ((TWO64 - 1) * Pow2(2 * b)) % TWO64)) == ValidAmong(v, b)
  {
    hide And, Or, PopCount, ValidAmong;
    ShiftedOnes(b);
    CountIsValidAmong(Or(v, HighMask(b, 32)));
    MaskedValid(v, b, 32);
  }

  lemma Bit2IsVal(bm: seq<u8>, s: nat)
    requires s < 4 * |bm|
    ensures Bit2(bm, s) == Some(Val(bm, s))
  {
    DigitIsShift(bm[s / 4], s % 4);
  }

  /** The table holds the rank at the start of every block. */
  ghost predicate TableOk(bm: seq<u8>, table: seq<u8>, width: nat) {
    && |bm| % 8 == 0
    && (width == 0 ==> |bm| <= 8)
    && width in {0, 1, 2, 4}
    && forall a :: 0 <= a < |bm| / 8 ==> ReadOffset(table, width, a) == Some(Rank(bm, 32 * a))
  }

  /** The bit tricks of the lookup compute the rank of the slot the edge picks. */
  lemma LocateSlotsIsRank(view: HashView, edge: Edge)
    requires TableOk(view.bitmap, view.table, view.tableWidth) && Within(edge, 4 * |view.bitmap|)
    ensures LocateSlots(view, edge) == Some(Rank(view.bitmap, Pick(view.bitmap, edge)))
  {
    hide And, Or, PopCount, Pow2, Shr, CountValidSlot, ValidAmong, Rank, Digit, LeNat, ReadOffset;
    var bm := view.bitmap;
    Bit2IsVal(bm, edge.a); Bit2IsVal(bm, edge.b); Bit2IsVal(bm, edge.c);
    var slot := Pick(bm, edge);
    var a, b := slot / 32, slot % 32;
    assert slot == 32 * a + b && slot < 4 * |bm|;
    assert a < |bm| / 8;
    MaskedCount(LeNat(bm[a * 8..a * 8 + 8]), b);
    BlockRank(bm, a, b);
  }

  ghost function EdgeOf(hash: Hash, key: seq<u8>, seed: u32, section: nat): (e: Edge)
    requires section >= 2
    ensures Within(e, 3 * section) && e.a != e.b && e.a != e.c && e.b != e.c
  {
    var code := hash(key, seed);
    Edge(code.0 % section, code.1 % section + section, code.2 % section + 2 * section)
  }

  lemma SlotsAreEdge(hash: Hash, key: seq<u8>, seed: u32, section: u32)
    requires section >= 2
    ensures SlotsOf(hash, key, seed, section, FastModMagic(section)) == EdgeOf(hash, key, seed, section)
    ensures var (x, y, z) := hash(key, seed);
            EdgeOf(hash, key, seed, section) == Edge(x % section, section + y % section, 2 * section + z % section)
  {
    var code := hash(key, seed);
    FastModIsRemainder(code.0, section);
    FastModIsRemainder(code.1, section);
    FastModIsRemainder(code.2, section);
  }

  // ----- what an index promises

  /** `data` starts with the index, whose header word may carry the four map-width bits on top. */
  ghost predicate Carries(data: seq<u8>, index: seq<u8>) {
    && 4 <= |index| <= |data|
    && data[4..|index|] == index[4..]
    && LeNat(data[..4]) % MAX_KEYS == LeNat(index[..4])
  }

  ghost predicate Locates(data: seq<u8>, hash: Hash, keys: seq<seq<u8>>, positions: seq<nat>, size: nat)
    requires |positions| == |keys|
  {
    var view := NewView(data);
    && view.Some? && view.value.len == |keys| && |view.value.data| == size
    && forall i :: 0 <= i < |keys| ==> Locate(view.value, hash, keys[i]) == Some(positions[i])
  }

  /** The positions are a bijection onto [0, n), and every reader of the index finds them. */
  ghost predicate IndexFor(hash: Hash, keys: seq<seq<u8>>, index: seq<u8>, positions: seq<nat>) {
    && |positions| == |keys| < MAX_KEYS
    && Distinct(positions) && InRange(positions, |keys|)
    && (forall p :: 0 <= p < |keys| ==> p in positions)
    && |index| >= 4 && LeNat(index[..4]) == |keys|
    && forall data {:trigger Carries(data, index)} :: Carries(data, index) ==>
        Locates(data, hash, keys, positions, |index|)
  }

  /** No index for these keys under this seed: their hypergraph has a core. */
  ghost predicate Unpeelable(hash: Hash, keys: seq<seq<u8>>, seed: u32) {
    exists core :: IsCore(EdgesOf(hash, keys, seed, HashLayout(|keys|).section), core)
  }

  ghost function EdgesOf(hash: Hash, keys: seq<seq<u8>>, seed: u32, section: nat): (edges: seq<Edge>)
    requires section >= 2
    ensures |edges| == |keys|
    ensures forall i :: 0 <= i < |keys| ==> edges[i] == EdgeOf(hash, keys[i], seed, section)
  {
    seq(|keys|, i requires 0 <= i < |keys| => EdgeOf(hash, keys[i], seed, section))
  }

  /** Equal keys collide under every seed. */
  lemma DuplicatesUnpeelable(hash: Hash, keys: seq<seq<u8>>, seed: u32, i: nat, j: nat)
    requires i < j < |keys| && keys[i] == keys[j]
    ensures Unpeelable(hash, keys, seed)
  {
    TwinEdgesAreACore(EdgesOf(hash, keys, seed, HashLayout(|keys|).section), i, j);
  }
}
