/** Decoding fields into mutable values: lists and maps are decoded through, nested messages only
    remember the words they start at. */
module Decoding {
  import opened Bits
  import opened Wrappers
  import opened Strings
  import opened PerfectHash
  import opened Views
  import opened Extents
  import opened Schemas
  import opened TreeReading
  import opened MapKeys
  import opened Cores
  import opened Conveying
  import opened AccessSets
  import opened MutableValues
  import opened MutableEncoder

  function AllDecoded(read: seq<Option<MValue>>): (values: Option<seq<MValue>>)
    ensures values.Some? <==> forall i :: 0 <= i < |read| ==> read[i].Some?
    ensures values.Some? ==> |values.value| == |read| && forall i :: 0 <= i < |read| ==>
        read[i] == Some(values.value[i])
  {
    if forall i :: 0 <= i < |read| ==> read[i].Some?
    then Some(seq(|read|, i requires 0 <= i < |read| && read[i].Some? => read[i].value)) else None
  }

  function Insert(keys: seq<Key>, values: seq<MValue>): map<Key, MValue>
    requires |keys| == |values|
  {
    if keys == [] then map[]
        else Insert(keys[..|keys| - 1], values[..|keys| - 1])[keys[|keys| - 1] := values[|keys| - 1]]
  }

  function FreshState(slots: seq<Slot>, words: Option<seq<u32>>): State {
    State(words, seq(WordsFor(LiveCount(slots)), _ => 0), map[])
  }

  function DecodeField(schema: Schema, ty: Type, field: FieldView): Option<MValue>
    decreases |field.tail|, 3
  {
    if IsScalar(ty) then
      match field.RawWords()
      case None => None
      case Some(words) =>
        if ty.Bool? then (if |words| == 1 then Some(MBool(words[0] != 0)) else None)
        else if |words| == ty.width then Some(MNum(words)) else None
    else
      match field.ObjectWords()
      case None => None
      case Some(words) => DecodeObject(schema, ty, words)
  }

  function DecodeObject(schema: Schema, ty: Type, words: seq<u32>): Option<MValue>
    decreases |words|, 2
  {
    if ty.Text? then
      match StringBytes(words)
      case None => None
      case Some(bytes) => Some(MBytes(bytes))
    else
      match (ItemType(schema, ty), EntryType(schema, ty), RecordSlots(schema, ty))
      case (Some(item), _, _) => DecodeList(schema, item, words)
      case (_, Some(entry), _) => DecodeMap(schema, entry.0, entry.1, words)
      case (_, _, Some(slots)) => if IsMessage(words) then Some(MMessage(FreshState(slots, Some(words)))) else None
      case _ => None
  }

  function DecodeList(schema: Schema, item: Type, words: seq<u32>): Option<MValue>
    decreases |words|, 1
  {
    if item.Bool? then
      match StringBytes(words)
      case None => None
      case Some(bytes) => Some(MList(seq(|bytes|, i requires 0 <= i < |bytes| => MBool(bytes[i] != 0))))
    else
      match NewArray(words)
      case None => None
      case Some(view) =>
        if item.Scalar? && view.width != item.width then None
        else
          match AllDecoded(DecodeElements(schema, item, words))
          case None => None
          case Some(items) => Some(MList(items))
  }

  function DecodeElements(schema: Schema, item: Type, words: seq<u32>): (read: seq<Option<MValue>>)
    requires NewArray(words).Some?
    ensures |read| == NewArray(words).value.len
    decreases |words|, 0
  {
    var n := NewArray(words).value.len;
    seq(n, i requires 0 <= i < n => DecodeField(schema, item, ArrayCell(words, i)))
  }

  function DecodeMap(schema: Schema, key: KeyType, value: Type, words: seq<u32>): Option<MValue>
    decreases |words|, 1
  {
    match NewMap(words)
    case None => None
    case Some(_) =>
      var keys, values := AllKeys(ReadKeys(key, words)), AllDecoded(DecodeValues(schema, value, words));
      if keys.Some? && values.Some? && |keys.value| == |values.value|
      then Some(MMap(Insert(keys.value, values.value))) else None
  }

  function DecodeValues(schema: Schema, value: Type, words: seq<u32>): (read: seq<Option<MValue>>)
    requires NewMap(words).Some?
    ensures |read| == NewMap(words).value.index.len
    decreases |words|, 0
  {
    var n := NewMap(words).value.index.len;
    seq(n, i requires 0 <= i < n => DecodeField(schema, value, MapCell(words, 2 * i + 1)))
  }

  // ----- decoding keeps the value

  /** The decoded value is well formed and reads as the encoded one. */
  ghost predicate Stands(schema: Schema, hash: Hash, ty: Type, v: Value, mv: Option<MValue>) {
    mv.Some? && ValidValue(schema, hash, ty, mv.value) && MRead(schema, ty, mv.value) == v
  }

  /** Decoding a field that starts with words conveying a value gives a well-formed value that reads
      as it. */
  lemma {:induction false} FieldDecodes(schema: Schema, hash: Hash, ty: Type, v: Value, c: seq<u32>, field: FieldView)
    requires Conveys(schema, hash, ty, v, c) && StartsWith(field, c, IsScalar(ty))
    ensures Stands(schema, hash, ty, v, DecodeField(schema, ty, field))
    decreases v, 3
  {
    hide DecodeObject, Conveys, Stands;
    if IsScalar(ty) {
      ScalarDecodes(schema, hash, ty, v, c, field);
    } else {
      var tail := field.tail[ObjectStart(field).value..];
      assert tail == c + tail[|c|..];
      assert field.ObjectWords() == Some(tail);
      ObjectDecodes(schema, hash, ty, v, c, tail[|c|..]);
    }
  }

  lemma ScalarDecodes(schema: Schema, hash: Hash, ty: Type, v: Value, c: seq<u32>, field: FieldView)
    requires IsScalar(ty) && Conveys(schema, hash, ty, v, c) && field.RawWords() == Some(c)
    ensures Stands(schema, hash, ty, v, DecodeField(schema, ty, field))
  {
  }

  lemma {:induction false} ObjectDecodes(schema: Schema, hash: Hash, ty: Type, v: Value, c: seq<u32>, rest: seq<u32>)
    requires !IsScalar(ty) && Conveys(schema, hash, ty, v, c)
    ensures Stands(schema, hash, ty, v, DecodeObject(schema, ty, c + rest))
    decreases v, 2
  {
    hide DecodeList, DecodeMap, ConveysList, ConveysMap, ConveysRecord, StringBytes, StringWords, IsMessage, MRead,
         ValidValue, Extends, Stands;
    ConveyedShape(schema, hash, ty, v, c);
    if ty.Text? {
      StringRoundTrip(v.bytes, rest);
      TextStands(schema, hash, v.bytes);
    } else if ItemType(schema, ty).Some? {
      ListDecodes(schema, hash, ty, ItemType(schema, ty).value, v, c, rest);
    } else if EntryType(schema, ty).Some? {
      var (kt, vt) := EntryType(schema, ty).value;
      MapDecodes(schema, hash, ty, kt, vt, v, c, rest);
    } else {
      MessageDecodes(schema, hash, ty.name, v, c, rest);
    }
  }

  lemma TextStands(schema: Schema, hash: Hash, bytes: seq<u8>)
    ensures Stands(schema, hash, Text, VBytes(bytes), Some(MBytes(bytes)))
  {
  }

  /** A nested message just remembers where its words start. */
  lemma MessageDecodes(schema: Schema, hash: Hash, name: Name, v: Value, c: seq<u32>, rest: seq<u32>)
    requires name in schema && schema[name].Record? && Conveys(schema, hash, Message(name), v, c)
    ensures IsMessage(c + rest)
    ensures Stands(schema, hash, Message(name), v, Some(MMessage(FreshState(schema[name].slots, Some(c + rest)))))
  {
    hide Conveys, IsMessage, MRead, FieldMeaning, Has, FieldsConveyed;
    var slots := schema[name].slots;
    var st := FreshState(slots, Some(c + rest));
    var cs := RecordCores(schema, hash, name, v, c);
    assert RecordOver(slots, cs, c + rest);
    assert c <= c + rest;
    assert SourceOk(schema, hash, name, c + rest) by { assert Framed(schema, hash, Message(name), v, c + rest); }
    FreshIsValid(schema, hash, name, Some(c + rest));
    NothingAccessed(WordsFor(LiveCount(slots)));
    CleanFields(schema, hash, name, st, v, c, rest);
    MessageIs(schema, name, st);
  }

  lemma FreshIsValid(schema: Schema, hash: Hash, name: Name, words: Option<seq<u32>>)
    requires name in schema && schema[name].Record? && (words.Some? ==> SourceOk(schema, hash, name, words.value))
    ensures ValidState(schema, hash, name, FreshState(schema[name].slots, words))
  {
    hide SourceOk;
  }

  lemma NothingAccessed(n: nat)
    ensures !AnyAccessed(seq(n, _ => 0))
  {
  }

  lemma {:induction false} ListDecodes(schema: Schema, hash: Hash, ty: Type, item: Type, v: Value, c: seq<u32>,
                                       rest: seq<u32>)
    requires ItemType(schema, ty) == Some(item) && ConveysList(schema, hash, item, v, c)
    ensures Stands(schema, hash, ty, v, DecodeList(schema, item, c + rest))
    decreases v, 1
  {
    hide Conveys, StringBytes, StringWords, MRead, ValidValue, NewArray, ArrayCell, DecodeField, StartsWith, Stands;
    if item.Bool? {
      StringRoundTrip(BoolBytes(v.items), rest);
      BoolsStand(schema, hash, ty, v, DecodeList(schema, item, c + rest));
    } else {
      var cs :| ItemsConveyed(schema, hash, item, v, cs)
          && forall suffix {:trigger c + suffix} :: ArrayOver(item, cs, c + suffix);
      var words := c + rest;
      assert ArrayOver(item, cs, words);
      var read := DecodeElements(schema, item, words);
      forall i | 0 <= i < |cs| ensures Stands(schema, hash, item, v.items[i], read[i]) {
        assert Conveys(schema, hash, item, v.items[i], cs[i]);
        FieldDecodes(schema, hash, item, v.items[i], cs[i], ArrayCell(words, i));
      }
      ElementsExist(schema, hash, item, v, read);
      ElementsStand(schema, hash, ty, item, v, AllDecoded(read).value);
    }
  }

  lemma ElementsExist(schema: Schema, hash: Hash, item: Type, v: Value, read: seq<Option<MValue>>)
    requires v.VList? && |read| == |v.items| && forall i :: 0 <= i < |read| ==>
        Stands(schema, hash, item, v.items[i], read[i])
    ensures AllDecoded(read).Some?
    ensures forall i :: 0 <= i < |read| ==> Stands(schema, hash, item, v.items[i], Some(AllDecoded(read).value[i]))
  {
    hide MRead, ValidValue;
  }

  lemma BoolsStand(schema: Schema, hash: Hash, ty: Type, v: Value, mv: Option<MValue>)
    requires ItemType(schema, ty) == Some(Bool) && v.VList? && forall i :: 0 <= i < |v.items| ==> v.items[i].VBool?
    requires mv.Some? && mv.value.MList? && |mv.value.items| == |v.items|
    requires forall i :: 0 <= i < |v.items| ==> mv.value.items[i] == MBool(v.items[i].b)
    ensures Stands(schema, hash, ty, v, mv)
  {
    hide MRead;
    ListIs(schema, ty, Bool, mv.value);
    forall i | 0 <= i < |v.items| ensures MRead(schema, ty, mv.value).items[i] == v.items[i]
        && ValidValue(schema, hash, Bool, mv.value.items[i]) {
      PlainIs(schema, Bool, mv.value.items[i]);
    }
    assert ValidValue(schema, hash, ty, mv.value);
    assert MRead(schema, ty, mv.value).items == v.items;
  }

  lemma ElementsStand(schema: Schema, hash: Hash, ty: Type, item: Type, v: Value, items: seq<MValue>)
    requires ItemType(schema, ty) == Some(item) && v.VList? && |items| == |v.items|
    requires forall i :: 0 <= i < |items| ==> Stands(schema, hash, item, v.items[i], Some(items[i]))
    ensures Stands(schema, hash, ty, v, Some(MList(items)))
  {
    hide MRead;
    ListIs(schema, ty, item, MList(items));
    forall i | 0 <= i < |items|
        ensures ValidValue(schema, hash, item, items[i]) && MRead(schema, ty, MList(items)).items[i] == v.items[i] {
      assert Stands(schema, hash, item, v.items[i], Some(items[i]));
    }
    assert MRead(schema, ty, MList(items)).items == v.items;
  }

  /** The first n entries are in the map, and nothing else is. */
  ghost predicate Inserted(keys: seq<Key>, vs: seq<MValue>, n: nat, entries: map<Key, MValue>)
    requires |keys| == |vs| && n <= |keys|
  {
    && (forall key :: key in entries ==> key in keys[..n])
    && forall i :: 0 <= i < n ==> keys[i] in entries && entries[keys[i]] == vs[i]
  }

  lemma InsertStep(keys: seq<Key>, vs: seq<MValue>, n: nat, entries: map<Key, MValue>)
    requires |keys| == |vs| && n < |keys| && keys[n] !in keys[..n] && Inserted(keys, vs, n, entries)
    ensures Inserted(keys, vs, n + 1, entries[keys[n] := vs[n]])
  {
    assert forall key :: key in keys[..n + 1] <==> key in keys[..n] || key == keys[n];
    assert forall i :: 0 <= i < n ==> keys[i] in keys[..n];
  }

  lemma {:induction false} InsertIs(keys: seq<Key>, vs: seq<MValue>, n: nat)
    requires |keys| == |vs| && n <= |keys| && forall i, j :: 0 <= i < j < |keys| ==> keys[i] != keys[j]
    ensures Inserted(keys, vs, n, Insert(keys[..n], vs[..n]))
  {
    if n > 0 {
      hide Inserted;
      InsertIs(keys, vs, n - 1);
      assert keys[..n][..n - 1] == keys[..n - 1] && vs[..n][..n - 1] == vs[..n - 1];
      InsertStep(keys, vs, n - 1, Insert(keys[..n - 1], vs[..n - 1]));
    }
  }

  lemma {:induction false} MapDecodes(schema: Schema, hash: Hash, ty: Type, kt: KeyType, vt: Type, v: Value,
                                      c: seq<u32>, rest: seq<u32>)
    requires EntryType(schema, ty) == Some((kt, vt)) && ConveysMap(schema, hash, kt, vt, v, c)
    ensures Stands(schema, hash, ty, v, DecodeMap(schema, kt, vt, c + rest))
    decreases v, 1
  {
    hide Conveys, NewMap, MapCell, ReadKey, DecodeField, StartsWith, Stands, FindsKeys, MatchesKey;
    var ordered, cs :| EntriesConveyed(schema, hash, kt, vt, v, ordered, cs)
      && forall suffix {:trigger c + suffix} :: MapOver(hash, kt, vt, ordered, cs, c + suffix);
    var words := c + rest;
    assert MapOver(hash, kt, vt, ordered, cs, words);
    var keys, values := ReadKeys(kt, words), DecodeValues(schema, vt, words);
    forall i | 0 <= i < |ordered|
        ensures keys[i] == Some(ordered[i]) && Stands(schema, hash, vt, v.entries[ordered[i]], values[i]) {
      assert Conveys(schema, hash, vt, v.entries[ordered[i]], cs[i]);
      assert ReadKey(kt, MapCell(words, 2 * i)) == Some(ordered[i]) by { assert ordered[i] == ordered[i]; }
      FieldDecodes(schema, hash, vt, v.entries[ordered[i]], cs[i], MapCell(words, 2 * i + 1));
    }
    ValuesExist(schema, hash, vt, v, ordered, values);
    assert AllKeys(keys).value == ordered;
    EntriesStand(schema, hash, ty, kt, vt, v, ordered, AllDecoded(values).value);
  }

  lemma ValuesExist(schema: Schema, hash: Hash, vt: Type, v: Value, ordered: seq<Key>, values: seq<Option<MValue>>)
    requires v.VMap? && ListsKeys(ordered, v.entries) && |values| == |ordered|
    requires forall i :: 0 <= i < |values| ==> Stands(schema, hash, vt, v.entries[ordered[i]], values[i])
    ensures AllDecoded(values).Some?
    ensures forall i :: 0 <= i < |values| ==>
        Stands(schema, hash, vt, v.entries[ordered[i]], Some(AllDecoded(values).value[i]))
  {
    hide MRead, ValidValue;
  }

  lemma EntryStands(schema: Schema, hash: Hash, kt: KeyType, vt: Type, v: Value, ordered: seq<Key>,
                    values: seq<MValue>, key: Key)
    requires v.VMap? && ListsKeys(ordered, v.entries) && |values| == |ordered|
    requires forall i :: 0 <= i < |ordered| ==> MatchesKey(kt, ordered[i])
    requires forall i :: 0 <= i < |values| ==> Stands(schema, hash, vt, v.entries[ordered[i]], Some(values[i]))
    requires key in Insert(ordered, values)
    ensures key in v.entries && MatchesKey(kt, key)
    ensures Stands(schema, hash, vt, v.entries[key], Some(Insert(ordered, values)[key]))
  {
    hide MRead, ValidValue, Stands, Insert, MatchesKey;
    InsertIs(ordered, values, |ordered|);
    assert ordered[..|ordered|] == ordered && values[..|ordered|] == values;
    var i :| 0 <= i < |ordered| && ordered[i] == key;
  }

  lemma EntriesStand(schema: Schema, hash: Hash, ty: Type, kt: KeyType, vt: Type, v: Value, ordered: seq<Key>,
                     values: seq<MValue>)
    requires EntryType(schema, ty) == Some((kt, vt)) && v.VMap? && ListsKeys(ordered, v.entries)
        && |values| == |ordered|
    requires forall i {:trigger ordered[i]} :: 0 <= i < |ordered| ==> MatchesKey(kt, ordered[i])
    requires forall i :: 0 <= i < |values| ==> Stands(schema, hash, vt, v.entries[ordered[i]], Some(values[i]))
    ensures Stands(schema, hash, ty, v, Some(MMap(Insert(ordered, values))))
  {
    hide MRead, Insert, MatchesKey;
    var entries := Insert(ordered, values);
    forall key | key in entries
      ensures key in v.entries && MatchesKey(kt, key) && ValidValue(schema, hash, vt, entries[key])
          && MRead(schema, vt, entries[key]) == v.entries[key]
    {
      EntryStands(schema, hash, kt, vt, v, ordered, values, key);
    }
    AllInserted(ordered, values, v);
    MapIs(schema, ty, kt, vt, MMap(entries));
    assert MRead(schema, ty, MMap(entries)).entries == v.entries;
  }

  lemma AllInserted(ordered: seq<Key>, values: seq<MValue>, v: Value)
    requires v.VMap? && ListsKeys(ordered, v.entries) && |values| == |ordered|
    ensures forall key :: key in v.entries ==> key in Insert(ordered, values)
  {
    InsertIs(ordered, values, |ordered|);
    assert ordered[..|ordered|] == ordered && values[..|ordered|] == values;
  }
}
