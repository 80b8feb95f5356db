/** Map keys on their way into an index: their order, their bytes and their encodings. */
module MapKeys {
  import opened Bits
  import opened Wrappers
  import opened Strings
  import opened Buffers
  import opened PerfectHash
  import opened Peeling
  import opened IndexBuilder
  import opened Schemas
  import opened TreeReading

  ghost predicate ListsKeys<V>(keys: seq<Key>, entries: map<Key, V>) {
    && (forall i, j :: 0 <= i < j < |keys| ==> keys[i] != keys[j])
    && (forall key :: key in keys <==> key in entries)
  }

  /** The entries of a hash map in some order. */
  method Enumerate<V>(entries: map<Key, V>) returns (keys: seq<Key>)
    ensures ListsKeys(keys, entries)
  {
    keys := [];
    var rest := entries.Keys;
    while rest != {}
      invariant forall i, j :: 0 <= i < j < |keys| ==> keys[i] != keys[j]
      invariant forall key :: key in entries <==> key in keys || key in rest
      invariant forall key :: key in keys ==> key !in rest
      decreases rest
    {
      var key :| key in rest;
      keys := keys + [key];
      rest := rest - {key};
    }
  }

  predicate MatchesKey(ty: KeyType, key: Key) {
    match ty
    case TextKey => key.BytesKey?
    case ScalarKey(width) => key.NumKey? && |key.words| == width
  }

  method BytesOfKeys(ty: KeyType, keys: seq<Key>) returns (bytes: Option<seq<seq<u8>>>)
    ensures bytes.Some? <==> forall i :: 0 <= i < |keys| ==> MatchesKey(ty, keys[i])
    ensures bytes.Some? ==> |bytes.value| == |keys| && forall i :: 0 <= i < |keys| ==>
        bytes.value[i] == KeyBytes(keys[i])
  {
    var b := [];
    for i := 0 to |keys|
      invariant |b| == i && forall j :: 0 <= j < i ==> MatchesKey(ty, keys[j]) && b[j] == KeyBytes(keys[j])
    {
      if !MatchesKey(ty, keys[i]) {
        return None;
      }
      b := b + [KeyBytes(keys[i])];
    }
    bytes := Some(b);
  }

  ghost predicate OntoRange(positions: seq<nat>, n: nat) {
    && |positions| == n && Distinct(positions) && InRange(positions, n)
    && forall p :: 0 <= p < n ==> p in positions
  }

  /** Puts every key at its index position; each position is filled exactly once. */
  method Reorder(keys: seq<Key>, positions: seq<nat>) returns (ordered: seq<Key>)
    requires OntoRange(positions, |keys|)
    ensures |ordered| == |keys| && forall i :: 0 <= i < |keys| ==> ordered[positions[i]] == keys[i]
  {
    var slots := new Option<Key>[|keys|](_ => None);
    for i := 0 to |keys|
      invariant forall j :: 0 <= j < i ==> slots[positions[j]] == Some(keys[j])
    {
      slots[positions[i]] := Some(keys[i]);
    }
    ordered := [];
    for p := 0 to |keys|
      invariant |ordered| == p && forall q :: 0 <= q < p ==> slots[q] == Some(ordered[q])
    {
      assert p in positions;
      ordered := ordered + [slots[p].value];
    }
  }

  lemma ReorderedKeys<V>(keys: seq<Key>, positions: seq<nat>, ordered: seq<Key>, entries: map<Key, V>)
    requires OntoRange(positions, |keys|) && ListsKeys(keys, entries)
    requires |ordered| == |keys| && forall i :: 0 <= i < |keys| ==> ordered[positions[i]] == keys[i]
    ensures ListsKeys(ordered, entries)
  {
    forall p | 0 <= p < |ordered| ensures exists i :: 0 <= i < |keys| && positions[i] == p && ordered[p] == keys[i] {
      assert p in positions;
    }
  }

  lemma ReorderedMatch(ty: KeyType, keys: seq<Key>, positions: seq<nat>, ordered: seq<Key>)
    requires OntoRange(positions, |keys|) && forall i :: 0 <= i < |keys| ==> MatchesKey(ty, keys[i])
    requires |ordered| == |keys| && forall i :: 0 <= i < |keys| ==> ordered[positions[i]] == keys[i]
    ensures forall p :: 0 <= p < |ordered| ==> MatchesKey(ty, ordered[p])
  {
    hide MatchesKey;
    forall p | 0 <= p < |ordered| ensures MatchesKey(ty, ordered[p]) {
      assert p in positions;
    }
  }

  method EncodeKey(ty: KeyType, key: Key, buffer: Buffer) returns (unit: Option<Unit>, ghost words: seq<u32>)
    requires buffer.Valid() && MatchesKey(ty, key)
    modifies buffer.Repr()
    ensures buffer.Valid() && fresh(buffer.Repr() - old(buffer.Repr()))
    ensures unit.Some? ==> Delivers(unit.value, words, old(buffer.View()), buffer.View()) && EncodesKey(ty, key, words)
    ensures unit.None? <==> key.BytesKey? && |key.bytes| >= MAX_LEN
  {
    hide StringWords, Buffer.View;
    match key {
      case BytesKey(bytes) =>
        words := StringWords(bytes);
        unit := SerializeBytes(bytes, buffer);
      case NumKey(numWords) =>
        words := numWords;
        unit := Some(InlineUnit(numWords));
    }
  }

  /** The 40 seeds an index builder tries, one after the other. */
  type Seeds = s: seq<u32> | |s| == 40 witness seq(40, _ => 0)

  /** The seeds that follow from the time a map is encoded at. */
  type Clock = nat -> Seeds

  method Now() returns (time: nat)
  {
    time := *;
  }

  lemma IndexOnto(hash: Hash, keyBytes: seq<seq<u8>>, index: seq<u8>, positions: seq<nat>)
    requires IndexFor(hash, keyBytes, index, positions)
    ensures OntoRange(positions, |keyBytes|) && |index| >= 4
  {
  }

  /** Items and their bytes as given to the index builder, and the items put at their positions. */
  ghost predicate Arranged(items: seq<Key>, keyBytes: seq<seq<u8>>, positions: seq<nat>, ordered: seq<Key>) {
    && |items| == |keyBytes| == |positions| == |ordered|
    && (forall i :: 0 <= i < |items| ==> keyBytes[i] == KeyBytes(items[i]))
    && (forall i :: 0 <= i < |items| ==> positions[i] < |ordered| && ordered[positions[i]] == items[i])
    && (forall key :: key in ordered ==> key in items)
  }

  ghost predicate Planned<V(!new)>(kt: KeyType, entries: map<Key, V>, hash: Hash, index: seq<u8>, ordered: seq<Key>,
                             items: seq<Key>, keyBytes: seq<seq<u8>>, positions: seq<nat>) {
    && ListsKeys(items, entries) && ListsKeys(ordered, entries)
    && Arranged(items, keyBytes, positions, ordered)
    && |index| >= 4 && IndexFor(hash, keyBytes, index, positions)
    && forall i :: 0 <= i < |ordered| ==> MatchesKey(kt, ordered[i])
  }

  ghost function BytesOfItems(items: seq<Key>): (bytes: seq<seq<u8>>)
    ensures |bytes| == |items| && forall i :: 0 <= i < |items| ==> bytes[i] == KeyBytes(items[i])
  {
    seq(|items|, i requires 0 <= i < |items| => KeyBytes(items[i]))
  }

  /** The index builder gives up on these keys, in this order, with these seeds. */
  ghost predicate FailsWith(hash: Hash, items: seq<Key>, seeds: Seeds) {
    |items| >= MAX_KEYS || (|items| >= 2 && forall k :: 0 <= k < 40 ==> Unpeelable(hash, BytesOfItems(items), seeds[k]))
  }

  /** There is a time at which all seeds fail, for some order of the keys. */
  ghost predicate IndexFails<V(!new)>(hash: Hash, clock: Clock, entries: map<Key, V>) {
    exists items: seq<Key>, time: nat {:trigger FailsWith(hash, items, clock(time)), ListsKeys(items, entries)} ::
      ListsKeys(items, entries) && FailsWith(hash, items, clock(time))
  }

  lemma FailsAtTime<V(!new)>(hash: Hash, clock: Clock, entries: map<Key, V>, items: seq<Key>, time: nat)
    requires ListsKeys(items, entries) && FailsWith(hash, items, clock(time))
    ensures IndexFails(hash, clock, entries)
  {
    hide FailsWith, ListsKeys;
  }

  /** Different keys of one type are given to the builder as different bytes. */
  lemma BytesApart(kt: KeyType, items: seq<Key>)
    requires forall i :: 0 <= i < |items| ==> MatchesKey(kt, items[i])
    requires forall i, j :: 0 <= i < j < |items| ==> items[i] != items[j]
    ensures forall i, j :: 0 <= i < j < |items| ==> BytesOfItems(items)[i] != BytesOfItems(items)[j]
  {
    hide KeyBytes;
    forall i, j | 0 <= i < j < |items| ensures BytesOfItems(items)[i] != BytesOfItems(items)[j] {
      if KeyBytes(items[i]) == KeyBytes(items[j]) { KeyBytesDiffer(items[i], items[j]); }
    }
  }

  ghost predicate AllMatch<V>(kt: KeyType, entries: map<Key, V>) {
    forall key :: key in entries ==> MatchesKey(kt, key)
  }

  /** Takes the entries of a hash map in any order, builds their index with the seeds of the time, and
      puts every key at its position. Fails exactly when a key has another type or all seeds fail. */
  method PlanKeys<V(!new)>(kt: KeyType, entries: map<Key, V>, hash: Hash, clock: Clock)
    returns (plan: Option<(seq<u8>, seq<Key>)>, ghost items: seq<Key>, ghost keyBytes: seq<seq<u8>>,
             ghost positions: seq<nat>, ghost time: nat)
    ensures ListsKeys(items, entries)
    ensures plan.Some? <==> AllMatch(kt, entries) && !FailsWith(hash, items, clock(time))
    ensures AllMatch(kt, entries) ==> keyBytes == BytesOfItems(items)
    ensures forall i, j :: 0 <= i < j < |keyBytes| ==> keyBytes[i] != keyBytes[j]
    ensures plan.Some? ==> Formatted(keyBytes, hash, clock(time), plan.value.0, positions)
    ensures plan.Some? ==> Planned(kt, entries, hash, plan.value.0, plan.value.1, items, keyBytes, positions)
  {
    hide IndexFor, MatchesKey, KeyBytes, Unpeelable, Arranged, Formatted;
    keyBytes, positions := [], [];
    var listed := Enumerate(entries);
    items := listed;
    var now := Now();
    time := now;
    var bytes := BytesOfKeys(kt, listed);
    if bytes.None? {
      return None, items, keyBytes, positions, time;
    }
    keyBytes := bytes.value;
    assert bytes.value == BytesOfItems(items);
    BytesApart(kt, items);
    var built := BuildIndexWithPositions(bytes.value, hash, clock(now));
    if built.None? {
      return None, items, keyBytes, positions, time;
    }
    positions := built.value.1;
    IndexOnto(hash, keyBytes, built.value.0, positions);
    var ordered := Reorder(listed, built.value.1);
    ReorderedKeys(items, positions, ordered, entries);
    ReorderedMatch(kt, items, positions, ordered);
    PlanArranged(items, keyBytes, positions, ordered);
    plan := Some((built.value.0, ordered));
  }

  lemma PlanArranged(items: seq<Key>, keyBytes: seq<seq<u8>>, positions: seq<nat>, ordered: seq<Key>)
    requires OntoRange(positions, |items|) && keyBytes == BytesOfItems(items)
    requires |ordered| == |items| && forall i :: 0 <= i < |items| ==> ordered[positions[i]] == items[i]
    ensures Arranged(items, keyBytes, positions, ordered)
  {
    forall p | 0 <= p < |ordered| ensures ordered[p] in items { assert p in positions; }
  }

  lemma PlanFacts<V(!new)>(kt: KeyType, entries: map<Key, V>, hash: Hash, index: seq<u8>, ordered: seq<Key>,
                     items: seq<Key>, keyBytes: seq<seq<u8>>, positions: seq<nat>)
    requires Planned(kt, entries, hash, index, ordered, items, keyBytes, positions)
    ensures |index| >= 4 && |ordered| == |keyBytes| && ListsKeys(ordered, entries)
    ensures forall i :: 0 <= i < |ordered| ==> MatchesKey(kt, ordered[i]) && ordered[i] in entries
    ensures IndexFor(hash, keyBytes, index, positions) && Arranged(items, keyBytes, positions, ordered)
  {
    hide IndexFor, MatchesKey;
  }
}
