/** The bytes of a perfect-hash index, described for a reader that knows nothing but the format: number
    of keys, seed, two bits a slot, and one counter for every 32 slots. */
module IndexFormat {
  import opened Bits
  import opened PerfectHash
  import opened Wrappers

  ghost function Number(bytes: seq<u8>): nat {
    if bytes == [] then 0 else bytes[0] + 0x100 * Number(bytes[1..])
  }

  /** The two bits of slot `s`, behind number and seed, four slots a byte from the low end. */
  ghost function Crumb(index: seq<u8>, s: nat): (c: nat)
    requires 8 + s / 4 < |index|
    ensures c < 4
  {
    var byte := index[8 + s / 4];
    match s % 4
    case 0 => byte % 4
    case 1 => byte / 4 % 4
    case 2 => byte / 16 % 4
    case _ => byte / 64
  }

  /** Slots below `s` that some key was put in; the others hold a 3. */
  ghost function UsedBelow(index: seq<u8>, s: nat): nat
    requires 8 + (s + 3) / 4 <= |index|
  {
    if s == 0 then 0 else UsedBelow(index, s - 1) + if Crumb(index, s - 1) != 3 then 1 else 0
  }

  /** The hash names a slot in each section, their bits say which of the three is the key's, and its
      position is the number of used slots in front. */
  ghost predicate PutAt(hash: Hash, key: seq<u8>, index: seq<u8>, seed: u32, section: nat, position: nat)
    requires section >= 1 && 8 + (3 * section + 3) / 4 <= |index|
  {
    var (x, y, z) := hash(key, seed);
    var a, b, c := x % section, section + y % section, 2 * section + z % section;
    var turn := (Crumb(index, a) + Crumb(index, b) + Crumb(index, c)) % 3;
    var s := if turn == 0 then a else if turn == 1 then b else c;
    Crumb(index, s) != 3 && position == UsedBelow(index, s)
  }

  /** An index over these keys, laid out with this seed. */
  ghost predicate LaidOut(hash: Hash, keys: seq<seq<u8>>, index: seq<u8>, positions: seq<nat>, seed: u32, l: Layout) {
    && SectionFor(|keys|, l.section) && CounterFor(|keys|, l.tableWidth)
    && 0 <= 4 * l.bitmapSize - 3 * l.section < 32 && l.bitmapSize % 8 == 0
    && |index| == 8 + l.bitmapSize + l.bitmapSize / 8 * l.tableWidth
    && Number(index[..4]) == |keys| && Number(index[4..8]) == seed
    && |positions| == |keys|
    && (forall i :: 0 <= i < |keys| ==> PutAt(hash, keys[i], index, seed, l.section, positions[i]))
    && UsedBelow(index, 4 * l.bitmapSize) == |keys|
    && forall block: nat :: block < l.bitmapSize / 8 && l.tableWidth > 0 ==>
         CounterPut(index, l.bitmapSize, l.tableWidth, block)
  }

  /** The counter of a block, behind the bits, is the number of used slots in front of the block. */
  ghost predicate CounterPut(index: seq<u8>, bitmapSize: nat, width: nat, block: nat)
    requires 8 + bitmapSize <= |index| && block < bitmapSize / 8
  {
    var at := 8 + bitmapSize + block * width;
    at + width <= |index| && Number(index[at..at + width]) == UsedBelow(index, 32 * block)
  }

  /** Up to one key, the index is their number and the only position is 0. */
  ghost predicate Trivial(keys: seq<seq<u8>>, index: seq<u8>, positions: seq<nat>) {
    && |keys| <= 1 && |index| == 4 && Number(index) == |keys| == |positions|
    && forall i :: 0 <= i < |positions| ==> positions[i] == 0
  }

  lemma {:induction false} NumberIs(bytes: seq<u8>)
    ensures Number(bytes) == LeNat(bytes)
  {
    if bytes != [] { NumberIs(bytes[1..]); }
  }

  lemma CrumbIs(index: seq<u8>, bm: seq<u8>, s: nat)
    requires |index| >= 8 && bm <= index[8..] && s < 4 * |bm|
    ensures Crumb(index, s) == Val(bm, s)
  {
    assert index[8 + s / 4] == index[8..][s / 4] == bm[s / 4];
    CrumbDigit(bm[s / 4], s % 4);
  }

  lemma CrumbDigit(byte: u8, i: nat)
    requires i < 4
    ensures Digit(byte, i) ==
        match i case 0 => byte % 4 case 1 => byte / 4 % 4 case 2 => byte / 16 % 4 case _ => byte / 64
  {
    assert Digit(byte, 0) == byte % 4;
    assert Digit(byte / 4, 0) == byte / 4 % 4 == Digit(byte, 1);
    assert Digit(byte / 4 / 4, 0) == byte / 16 % 4 == Digit(byte / 4, 1) == Digit(byte, 2);
    assert Digit(byte / 4 / 4 / 4, 0) == byte / 64 == Digit(byte / 4 / 4, 1) == Digit(byte / 4, 2) == Digit(byte, 3);
  }

  lemma {:induction false} UsedIsRank(index: seq<u8>, bm: seq<u8>, s: nat)
    requires |index| >= 8 && bm <= index[8..] && s <= 4 * |bm|
    ensures UsedBelow(index, s) == Rank(bm, s)
  {
    hide Crumb, Val;
    if s > 0 {
      UsedIsRank(index, bm, s - 1);
      CrumbIs(index, bm, s - 1);
    }
  }

  lemma PutIsRank(hash: Hash, key: seq<u8>, index: seq<u8>, bm: seq<u8>, seed: u32, section: nat)
    requires section >= 2 && |index| >= 8 && bm <= index[8..] && 3 * section <= 4 * |bm|
    requires Val(bm, Pick(bm, EdgeOf(hash, key, seed, section))) != 3
    ensures PutAt(hash, key, index, seed, section, Rank(bm, Pick(bm, EdgeOf(hash, key, seed, section))))
  {
    hide Crumb, Val, Rank, UsedBelow;
    var e := EdgeOf(hash, key, seed, section);
    CrumbIs(index, bm, e.a);
    CrumbIs(index, bm, e.b);
    CrumbIs(index, bm, e.c);
    UsedIsRank(index, bm, Pick(bm, e));
  }

  lemma CounterIsRank(index: seq<u8>, bm: seq<u8>, table: seq<u8>, width: nat, block: nat)
    requires |index| >= 8 && index[8..] == bm + table && TableOk(bm, table, width) && width > 0 && block < |bm| / 8
    ensures CounterPut(index, |bm|, width, block)
  {
    hide Rank, UsedBelow, LeNat, Number;
    UsedIsRank(index, bm, 32 * block);
    var at := 8 + |bm| + block * width;
    assert ReadOffset(table, width, block) == Some(Rank(bm, 32 * block));
    assert (block + 1) * width == block * width + width;
    assert index[at..at + width] == index[8..][|bm|..][block * width..block * width + width];
    assert index[8..][|bm|..] == table;
    NumberIs(table[block * width..(block + 1) * width]);
  }
}
