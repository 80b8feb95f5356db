/** Lookup in an encoded map: the index proposes one position and the key stored there decides, so
    present keys are found and no other key ever is. */
module Lookup {
  import opened Bits
  import opened Wrappers
  import opened PerfectHash
  import opened Views
  import opened Extents
  import opened Schemas
  import opened MapKeys

  /** find_bytes or find_scalar, by the kind of the key. */
  function Find(view: MapView, hash: Hash, key: Key): Option<nat> {
    match key
    case BytesKey(bytes) => FindBytes(view, hash, bytes)
    case NumKey(words) => FindScalar(view, hash, words)
  }

  /** The value found under a key, if any. */
  ghost function FindValue(schema: Schema, vt: Type, words: seq<u32>, hash: Hash, key: Key): Option<Value> {
    match NewMap(words)
    case None => None
    case Some(view) =>
      match Find(view, hash, key)
      case None => None
      case Some(p) => if p < view.index.len then ReadField(schema, vt, MapCell(words, 2 * p + 1)) else None
  }

  predicate Stored(field: FieldView, key: Key) {
    match key
    case BytesKey(bytes) => HoldsBytes(field, bytes)
    case NumKey(words) => field.RawWords() == Some(words)
  }

  lemma FindIs(view: MapView, hash: Hash, key: Key)
    ensures Find(view, hash, key) ==
            match Locate(view.index, hash, KeyBytes(key))
            case None => None
            case Some(p) => if p >= 0 && view.Key(p).Some? && Stored(view.Key(p).value, key) then Some(p) else None
  {
    hide Locate, HoldsBytes;
  }

  /** Lookup is decided by the index and the stored keys. */
  lemma FindsAt(items: seq<Key>, keyBytes: seq<seq<u8>>, positions: seq<nat>, ordered: seq<Key>, hash: Hash,
      view: MapView,
                key: Key)
    requires Arranged(items, keyBytes, positions, ordered)
    requires forall i :: 0 <= i < |keyBytes| ==> Locate(view.index, hash, keyBytes[i]) == Some(positions[i])
    requires forall p: nat :: if p < |ordered| then view.Key(p).Some?
        && (Stored(view.Key(p).value, key) <==> key == ordered[p])
                              else view.Key(p).None?
    ensures match Find(view, hash, key)
            case Some(p) => p < |ordered| && ordered[p] == key
            case None => key !in ordered
  {
    hide Locate, Stored, Find;
    FindIs(view, hash, key);
    if key in items {
      var i :| 0 <= i < |items| && items[i] == key;
      assert view.Key(positions[i]).Some?;
    }
  }

  /** The ordered keys and their values are the entries. */
  ghost predicate ListEntries(ordered: seq<Key>, vs: seq<Value>, entries: map<Key, Value>) {
    && |ordered| == |vs|
    && (forall i :: 0 <= i < |ordered| ==> ordered[i] in entries && vs[i] == entries[ordered[i]])
    && (forall k :: k in entries ==> k in ordered)
  }
}
