/** Bounds on the words of an encoding, from bounds on the words of its parts, and the values the
    recursive encoder accepts. */
module Sizing {
  import opened Bits
  import opened Packing
  import opened Strings
  import opened Cells
  import opened Buffers
  import opened PerfectHash
  import opened Messages
  import opened MessageEncoder
  import opened Records
  import opened Counting
  import opened Schemas
  import opened TreeReading
  import opened MapKeys

  // ----- sums

  function Total(lens: seq<nat>): nat {
    if lens == [] then 0 else lens[0] + Total(lens[1..])
  }

  ghost function SumOf(m: map<Key, nat>): nat
    decreases |m|
  {
    if m == map[] then 0
    else
      var key :| key in m;
      m[key] + SumOf(m - {key})
  }

  lemma {:induction false} TotalTo(lens: seq<nat>, k: nat)
    requires k < |lens|
    ensures Total(lens[..k + 1]) == Total(lens[..k]) + lens[k]
    decreases k
  {
    if k > 0 {
      TotalTo(lens[1..], k - 1);
      assert lens[..k + 1][1..] == lens[1..][..k] && lens[..k][1..] == lens[1..][..k - 1];
    } else {
      assert lens[..1] == [lens[0]] && lens[..0] == [];
      assert [lens[0]][1..] == [];
    }
  }

  lemma {:induction false} TotalCovers(lens: seq<nat>, i: nat)
    requires i < |lens|
    ensures lens[i] <= Total(lens)
    decreases i
  {
    if i > 0 { TotalCovers(lens[1..], i - 1); }
  }

  lemma {:induction false} TotalLeast(lens: seq<nat>, least: nat)
    requires forall i :: 0 <= i < |lens| ==> least <= lens[i]
    ensures |lens| * least <= Total(lens)
  {
    if lens != [] {
      TotalLeast(lens[1..], least);
      assert |lens| * least == least + (|lens| - 1) * least;
    }
  }

  /** The order in which entries are added up does not matter. */
  lemma {:induction false} SumStep(m: map<Key, nat>, key: Key)
    requires key in m
    ensures SumOf(m) == m[key] + SumOf(m - {key})
    decreases |m|
  {
    var other :| other in m && SumOf(m) == m[other] + SumOf(m - {other});
    if other != key {
      SumStep(m - {other}, key);
      SumStep(m - {key}, other);
      assert m - {other} - {key} == m - {key} - {other};
    }
  }

  lemma {:induction false} SumListed(ordered: seq<Key>, m: map<Key, nat>, bounds: seq<nat>)
    requires ListsKeys(ordered, m) && |bounds| == |ordered| && forall i :: 0 <= i < |ordered| ==>
        bounds[i] == m[ordered[i]]
    ensures SumOf(m) == Total(bounds)
    decreases |ordered|
  {
    if ordered == [] {
      assert m == map[];
    } else {
      var key, rest := ordered[0], m - {ordered[0]};
      assert key in ordered;
      SumStep(m, key);
      RestListed(ordered, m);
      SumListed(ordered[1..], rest, bounds[1..]);
    }
  }

  lemma RestListed(ordered: seq<Key>, m: map<Key, nat>)
    requires ListsKeys(ordered, m) && ordered != []
    ensures ListsKeys(ordered[1..], m - {ordered[0]})
  {
    forall key ensures key in ordered[1..] <==> key in m - {ordered[0]} {
      if key in ordered && key != ordered[0] {
        var i :| 0 <= i < |ordered| && ordered[i] == key;
        assert ordered[1..][i - 1] == key;
      }
    }
  }

  // ----- containers stay within their bound

  lemma {:induction false} CostTotal(lens: seq<nat>, bounds: seq<nat>)
    requires |lens| == |bounds| && forall i :: 0 <= i < |lens| ==> lens[i] + 1 <= bounds[i]
    ensures Cost(lens, 1) <= Total(bounds)
  {
    if lens != [] { CostTotal(lens[1..], bounds[1..]); }
  }

  ghost predicate ItemsWithin(es: seq<seq<u32>>, bounds: seq<nat>) {
    |es| == |bounds| && forall i {:trigger es[i]} :: 0 <= i < |es| ==> |es[i]| + 1 <= bounds[i]
  }

  /** An array costs no more than the bounds of its elements, each with a word for its cell. */
  lemma ArrayWithin(es: seq<seq<u32>>, bounds: seq<nat>)
    requires ItemsWithin(es, bounds)
    ensures Cost(Lens(es), BestWidth(Lens(es))) <= Total(bounds)
  {
    hide Cost;
    forall i | 0 <= i < |es| ensures Lens(es)[i] + 1 <= bounds[i] { assert es[i] == es[i]; }
    CostTotal(Lens(es), bounds);
  }

  ghost predicate PairsBounded(ordered: seq<Key>, ks: seq<seq<u32>>, es: seq<seq<u32>>, m: map<Key, nat>) {
    && |ordered| == |ks| == |es| && ListsKeys(ordered, m)
    && forall i {:trigger ordered[i]} :: 0 <= i < |ordered| ==>
        ordered[i] in m && |ks[i]| + |es[i]| + 2 <= m[ordered[i]]
  }

  lemma {:induction false} PairCosts(ks: seq<seq<u32>>, es: seq<seq<u32>>, bounds: seq<nat>)
    requires |ks| == |es| == |bounds| && forall i :: 0 <= i < |ks| ==> |ks[i]| + |es[i]| + 2 <= bounds[i]
    ensures Cost(Lens(ks), 1) + Cost(Lens(es), 1) <= Total(bounds)
  {
    if ks != [] {
      PairCosts(ks[1..], es[1..], bounds[1..]);
      assert Lens(ks)[1..] == Lens(ks[1..]) && Lens(es)[1..] == Lens(es[1..]);
    }
  }

  /** The pairs of a map cost no more than the bounds of its entries, in whatever order they come. */
  lemma PairsWithin(ordered: seq<Key>, ks: seq<seq<u32>>, es: seq<seq<u32>>, m: map<Key, nat>)
    requires PairsBounded(ordered, ks, es, m)
    ensures Cost(Lens(ks), BestWidth(Lens(ks))) + Cost(Lens(es), BestWidth(Lens(es))) <= SumOf(m)
  {
    hide Cost;
    forall i | 0 <= i < |ordered| ensures ordered[i] in m { assert ordered[i] in ordered; }
    var bounds := seq(|ordered|, i requires 0 <= i < |ordered| => m[ordered[i]]);
    SumListed(ordered, m, bounds);
    PairCosts(ks, es, bounds);
  }

  lemma BoundedCount(ordered: seq<Key>, ks: seq<seq<u32>>, es: seq<seq<u32>>, m: map<Key, nat>)
    requires PairsBounded(ordered, ks, es, m)
    ensures |ordered| == |ks| == |es|
  {
  }

  /** Fields with words. */
  function Present(es: seq<seq<u32>>): nat {
    if es == [] then 0 else Present(es[..|es| - 1]) + if es[|es| - 1] != [] then 1 else 0
  }

  ghost predicate FieldsWithin(es: seq<seq<u32>>, bounds: seq<nat>) {
    |es| == |bounds| && forall id {:trigger es[id]} :: 0 <= id < |es| && es[id] != [] ==> |es[id]| + 1 <= bounds[id]
  }

  lemma {:induction false} FieldsTotal(es: seq<seq<u32>>, bounds: seq<nat>, n: nat)
    requires FieldsWithin(es, bounds) && n <= |es|
    ensures Total(Lens(es[..n])) + Present(es[..n]) <= Total(bounds[..n])
    decreases n
  {
    if n > 0 {
      FieldsTotal(es, bounds, n - 1);
      TotalTo(Lens(es[..n]), n - 1);
      TotalTo(bounds, n - 1);
      assert Lens(es[..n])[..n - 1] == Lens(es[..n - 1]) && Lens(es[..n])[..n] == Lens(es[..n]);
      assert es[..n][..n - 1] == es[..n - 1];
      assert es[n - 1] == es[n - 1];
    } else {
      assert es[..0] == [];
    }
  }

  lemma {:induction false} DataTotal(es: seq<seq<u32>>, units: seq<Unit>)
    requires |units| == |es| && forall i :: 0 <= i < |es| ==> units[i].Size() == |es[i]|
    ensures DataSize(units) == Total(Lens(es))
  {
    if es != [] {
      DataTotal(es[1..], units[1..]);
      assert Lens(es)[1..] == Lens(es[1..]);
    }
  }

  lemma {:induction false} BodyAndPayload(es: seq<seq<u32>>, last: nat, n: nat)
    requires n <= |es|
    ensures BodySize(Units(es, last)[..n]) + |Payload(Items(es)[..n])| <= Total(Lens(es[..n])) + Present(es[..n])
    decreases n
  {
    hide Payload, PlacedUnit, BodySize, Total;
    if n > 0 {
      BodyAndPayload(es, last, n - 1);
      BodyStepUp(es, last, n);
      PayloadTo(Items(es), n - 1);
      TotalTo(Lens(es[..n]), n - 1);
      assert Lens(es[..n])[..n - 1] == Lens(es[..n - 1]) && Lens(es[..n])[..n] == Lens(es[..n]);
      assert es[..n][..n - 1] == es[..n - 1];
    } else {
      assert es[..0] == [];
      NothingBefore(Items(es));
      NoBody(Units(es, last)[..0]);
    }
  }

  lemma {:induction false} TrimmedTotal(es: seq<seq<u32>>, n: nat)
    requires |Trim(es)| <= n <= |es|
    ensures Total(Lens(es[..n])) == Total(Lens(Trim(es))) && Present(es[..n]) == Present(Trim(es))
    decreases n
  {
    hide Trim;
    if n > |Trim(es)| {
      TrimmedTotal(es, n - 1);
      TotalTo(Lens(es[..n]), n - 1);
      assert Lens(es[..n])[..n - 1] == Lens(es[..n - 1]) && Lens(es[..n])[..n] == Lens(es[..n]);
      assert es[..n][..n - 1] == es[..n - 1];
      assert es[n - 1] == [];
    } else {
      assert es[..n] == Trim(es);
    }
  }

  /** A record takes at most its header, its data and one pointer a field. */
  lemma RecordLength(es: seq<seq<u32>>, last: nat)
    requires Sections(|Trim(es)|) <= 0xff
    ensures |RecordWords(es, last)| <= 511 + Total(Lens(es)) + Present(es)
  {
    hide Payload, BodySize, MessageHeader, MessageBody, Trim;
    var t := Trim(es);
    TrimmedTotal(es, |es|);
    assert es[..|es|] == es;
    if t != [] {
      UnitsBehind(t, last);
      BodyAndPayload(t, last, |t|);
      assert Units(t, last)[..|t|] == Units(t, last) && Items(t)[..|t|] == Items(t) && t[..|t|] == t;
    }
  }

  /** A record takes no more than its header and the bounds of its fields. */
  lemma RecordWithin(es: seq<seq<u32>>, last: nat, bounds: seq<nat>)
    requires FieldsWithin(es, bounds) && Sections(|Trim(es)|) <= 0xff
    ensures |RecordWords(es, last)| <= 511 + Total(bounds)
  {
    hide RecordWords, Trim, Total;
    FieldsTotal(es, bounds, |es|);
    assert es[..|es|] == es && bounds[..|bounds|] == bounds;
    RecordLength(es, last);
  }

  /** Fields within 2^30 words pass the size checks of the message encoder. */
  lemma RecordPasses(units: seq<Unit>, es: seq<seq<u32>>, bounds: seq<nat>, last: nat)
    requires units == Units(es, last) && FieldsWithin(es, bounds) && Total(bounds) < MAX_SIZE && |es| <= 12 + 25 * 255
    ensures DataSize(Used(units)) < MAX_SIZE && Sections(|Used(units)|) <= 0xff
  {
    hide Trim, DataSize, Payload, Used, PlacedUnit, Total;
    FieldsTotal(es, bounds, |es|);
    assert es[..|es|] == es && bounds[..|bounds|] == bounds;
    UsedUnits(es, last);
    TrimmedTotal(es, |es|);
    DataTotal(Trim(es), Units(Trim(es), last));
  }

  // ----- the weight of a value

  lemma TextWithin(bytes: seq<u8>)
    requires |bytes| < MAX_LEN
    ensures |StringWords(bytes)| <= |bytes| + 2
  {
    VarintRoundTrip(|bytes| * 4, []);
  }

  lemma SumCovers(m: map<Key, nat>, key: Key)
    requires key in m
    ensures m[key] <= SumOf(m)
  {
    SumStep(m, key);
  }

  /** Encoded keys stay within their weight. */
  lemma KeyWithin(kt: KeyType, key: Key, words: seq<u32>)
    requires EncodesKey(kt, key, words)
    ensures |words| <= KeyWeight(key)
  {
    hide StringWords;
    if kt.TextKey? { TextWithin(key.bytes); }
  }

  /** Words of the index over n keys. */
  function IndexRoom(n: nat): nat {
    WordSize(if n <= 1 then 4 else HashLayout(n).bytes)
  }

  /** The index over n keys has this size. */
  lemma IndexIsRoom(hash: Hash, keyBytes: seq<seq<u8>>, index: seq<u8>, positions: seq<nat>)
    requires IndexFor(hash, keyBytes, index, positions)
    ensures WordSize(|index|) == IndexRoom(|keyBytes|)
  {
    hide Locate, LeNat, HashLayout;
    assert Carries(index, index);
    assert Locates(index, hash, keyBytes, positions, |index|);
  }

  lemma {:induction false} DistinctCount<V>(ordered: seq<Key>, entries: map<Key, V>)
    requires ListsKeys(ordered, entries)
    ensures |ordered| == |entries|
    decreases |ordered|
  {
    if ordered == [] {
      assert entries == map[];
    } else {
      var rest := entries - {ordered[0]};
      assert ordered[0] in ordered;
      forall key ensures key in ordered[1..] <==> key in rest {
        if key in ordered && key != ordered[0] {
          var i :| 0 <= i < |ordered| && ordered[i] == key;
          assert ordered[1..][i - 1] == key;
        }
      }
      DistinctCount(ordered[1..], rest);
      assert entries.Keys == rest.Keys + {ordered[0]};
      assert |entries.Keys| == |entries| && |rest.Keys| == |rest|;
    }
  }

  function KeyWeight(key: Key): nat {
    match key
    case BytesKey(bytes) => |bytes| + 2
    case NumKey(words) => |words|
  }

  /** An upper bound of the words a value is encoded to. */
  ghost function Weight(schema: Schema, ty: Type, v: Value): nat
    decreases v, 1
  {
    match v
    case VBool(_) => 1
    case VNum(words) => |words|
    case VBytes(bytes) => |bytes| + 2
    case VList(items) =>
      var item := ItemType(schema, ty);
      if item.None? then 0
      else if item.value.Bool? then |items| + 2
      else 1 + Total(ItemWeights(schema, item.value, v))
    case VMap(entries) =>
      var entry := EntryType(schema, ty);
      if entry.None? then 0 else 1 + IndexRoom(|entries|) + SumOf(EntryWeights(schema, entry.value.1, v))
    case VRecord(fields) =>
      var slots := RecordSlots(schema, ty);
      if slots.None? then 0 else 511 + Total(FieldWeights(schema, slots.value, v))
  }

  ghost function ItemWeights(schema: Schema, item: Type, v: Value): (bounds: seq<nat>)
    requires v.VList?
    ensures |bounds| == |v.items|
    decreases v, 0
  {
    seq(|v.items|, i requires 0 <= i < |v.items| => 1 + Weight(schema, item, v.items[i]))
  }

  ghost function EntryWeights(schema: Schema, vt: Type, v: Value): (m: map<Key, nat>)
    requires v.VMap?
    ensures m.Keys == v.entries.Keys
    decreases v, 0
  {
    map key | key in v.entries :: 2 + KeyWeight(key) + Weight(schema, vt, v.entries[key])
  }

  ghost function FieldWeights(schema: Schema, slots: seq<Slot>, v: Value): (bounds: seq<nat>)
    requires v.VRecord?
    ensures |bounds| == |slots|
    decreases v, 0
  {
    seq(|slots|, id requires 0 <= id < |slots| =>
          if Live(slots, id) && id in v.fields then 1 + Weight(schema, slots[id].ty, v.fields[id]) else 0)
  }

  // ----- accepted values

  /** The values the encoder accepts: of the type, with messages within the format's limits and maps
      whose index the builder finds whatever the time. */
  ghost predicate WellFormed(schema: Schema, hash: Hash, clock: Clock, ty: Type, v: Value)
    decreases v
  {
    match v
    case VBool(_) => ty.Bool?
    case VNum(words) => ty.Scalar? && |words| == ty.width
    case VBytes(_) => ty.Text?
    case VList(items) =>
      var item := ItemType(schema, ty);
      item.Some? && forall i :: 0 <= i < |items| ==> WellFormed(schema, hash, clock, item.value, items[i])
    case VMap(entries) =>
      var entry := EntryType(schema, ty);
      && entry.Some? && !IndexFails(hash, clock, entries)
      && forall key :: key in entries ==>
           MatchesKey(entry.value.0, key) && WellFormed(schema, hash, clock, entry.value.1, entries[key])
    case VRecord(fields) =>
      var slots := RecordSlots(schema, ty);
      && slots.Some? && 1 <= |slots.value| <= 12 + 25 * 255
      && forall id :: id in fields && Live(slots.value, id) ==>
           WellFormed(schema, hash, clock, slots.value[id].ty, fields[id])
  }

  /** A well-formed value whose encoding cannot reach 2^30 words. */
  ghost predicate Accepted(schema: Schema, hash: Hash, clock: Clock, ty: Type, v: Value) {
    WellFormed(schema, hash, clock, ty, v) && Weight(schema, ty, v) < MAX_SIZE
  }
}
