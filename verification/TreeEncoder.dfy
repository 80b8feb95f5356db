/** The recursive encoder over dynamic messages. Every value it encodes reads back as the value,
    less deprecated fields and blank sub-messages. */
module TreeEncoder {
  import opened Bits
  import opened Wrappers
  import opened Packing
  import opened Strings
  import opened Cells
  import opened Buffers
  import opened PerfectHash
  import C = Containers
  import opened MapContainers
  import opened Messages
  import opened MessageEncoder
  import opened ContainerReading
  import opened Records
  import opened Counting
  import opened Schemas
  import opened TreeReading
  import opened Delivery
  import opened MapKeys
  import opened Views
  import opened WireFormat
  import opened Overflows
  import opened Conveying
  import opened Sizing

  /** What an encoder promises of the words it delivers: an encoding of the value, unless the running
      count in front of some section has overflowed. */
  ghost predicate Faithful(schema: Schema, hash: Hash, ty: Type, v: Value, words: seq<u32>) {
    && |words| <= Weight(schema, ty, v)
    && EncodedOrOverflown(schema, hash, ty, Norm(schema, ty, v), words)
    && (Blank(schema, ty, Norm(schema, ty, v)) ==> words == [0])
  }

  ghost predicate Encoded(schema: Schema, hash: Hash, ty: Type, v: Value, unit: Unit, words: seq<u32>, before: seq<u32>,
                          after: seq<u32>) {
    && Delivers(unit, words, before, after)
    && Faithful(schema, hash, ty, v, words)
    && (unit.IsSegment() && |words| == 1 ==> words == [0])
  }

  // ----- accepted values

  lemma AliasWeight(schema: Schema, name: Name, v: Value)
    requires name in schema && !schema[name].Record?
    ensures Weight(schema, AliasType(schema[name]), v) == Weight(schema, Message(name), v)
  {
    hide ItemWeights, EntryWeights, IndexRoom;
  }

  lemma AcceptedShape(schema: Schema, hash: Hash, clock: Clock, ty: Type, v: Value)
    ensures Accepted(schema, hash, clock, ty, v) ==>
              && (ty.Bool? ==> v.VBool?) && (ty.Scalar? ==> v.VNum? && |v.words| == ty.width)
              && (ty.Text? ==> v.VBytes? && |v.bytes| < MAX_LEN)
  {
    hide IndexFails, ItemWeights, EntryWeights, FieldWeights;
  }

  lemma AcceptedAlias(schema: Schema, hash: Hash, clock: Clock, name: Name, v: Value)
    ensures Accepted(schema, hash, clock, Message(name), v) ==>
              && name in schema && (schema[name].Record? ==> v.VRecord?)
              && (!schema[name].Record? ==> Accepted(schema, hash, clock, AliasType(schema[name]), v))
  {
    hide Weight, IndexFails;
    if Accepted(schema, hash, clock, Message(name), v) && name in schema && !schema[name].Record? {
      AliasWeight(schema, name, v);
    }
  }

  lemma AcceptedList(schema: Schema, hash: Hash, clock: Clock, item: Type, v: Value)
    requires Accepted(schema, hash, clock, List(item), v)
    ensures v.VList?
    ensures item.Bool? ==> |v.items| < MAX_LEN && forall i :: 0 <= i < |v.items| ==> v.items[i].VBool?
  {
    hide IndexFails, ItemWeights;
    if item.Bool? {
      forall i | 0 <= i < |v.items| ensures v.items[i].VBool? {
        assert WellFormed(schema, hash, clock, item, v.items[i]);
      }
    }
  }

  lemma AcceptedItem(schema: Schema, hash: Hash, clock: Clock, item: Type, v: Value, i: nat)
    requires Accepted(schema, hash, clock, List(item), v) && v.VList? && i < |v.items| && !item.Bool?
    ensures Accepted(schema, hash, clock, item, v.items[i])
  {
    hide IndexFails;
    TotalCovers(ItemWeights(schema, item, v), i);
  }

  lemma ElementsWithin(schema: Schema, hash: Hash, item: Type, v: Value, es: seq<seq<u32>>)
    requires v.VList? && ElementWords(schema, hash, item, v.items, es) && |es| == |v.items|
    ensures ItemsWithin(es, ItemWeights(schema, item, v))
  {
    hide Weight, EncodedOrOverflown, Norm, Blank;
  }

  /** An accepted list passes the size check. */
  lemma ListAccepted(schema: Schema, hash: Hash, clock: Clock, item: Type, v: Value, units: seq<Unit>,
                     es: seq<seq<u32>>, before: seq<u32>, view: seq<u32>)
    requires Accepted(schema, hash, clock, List(item), v) && v.VList? && !item.Bool?
    requires Held(units, es, before, view) && ElementWords(schema, hash, item, v.items, es) && |es| == |v.items|
    ensures C.Readable(units, view) && |before| <= |view|
        && Cost(C.Sizes(units), BestWidth(C.Sizes(units))) < C.MAX_SIZE
  {
    hide Cost, BestWidth, ElementWords, WellFormed, ItemWeights;
    ElementsWithin(schema, hash, item, v, es);
    ArrayWithin(es, ItemWeights(schema, item, v));
    C.SizesAreLens(units, view);
  }

  ghost predicate AcceptedEntry(schema: Schema, hash: Hash, clock: Clock, vt: Type, entries: map<Key, Value>,
                                key: Key) {
    key in entries && (key.BytesKey? ==> |key.bytes| < MAX_LEN) && Accepted(schema, hash, clock, vt, entries[key])
  }

  lemma AcceptedMap(schema: Schema, hash: Hash, clock: Clock, kt: KeyType, vt: Type, v: Value)
    requires Accepted(schema, hash, clock, Map(kt, vt), v)
    ensures v.VMap? && !IndexFails(hash, clock, v.entries) && AllMatch(kt, v.entries)
  {
    hide IndexFails, MatchesKey, EntryWeights;
  }

  lemma AcceptedEntries(schema: Schema, hash: Hash, clock: Clock, kt: KeyType, vt: Type, v: Value, ordered: seq<Key>)
    requires Accepted(schema, hash, clock, Map(kt, vt), v) && v.VMap? && ListsKeys(ordered, v.entries)
    ensures forall i :: 0 <= i < |ordered| ==> AcceptedEntry(schema, hash, clock, vt, v.entries, ordered[i])
  {
    hide IndexFails, MatchesKey;
    forall i | 0 <= i < |ordered| ensures AcceptedEntry(schema, hash, clock, vt, v.entries, ordered[i]) {
      assert ordered[i] in ordered;
      SumCovers(EntryWeights(schema, vt, v), ordered[i]);
    }
  }

  lemma EntriesBounded(schema: Schema, hash: Hash, kt: KeyType, vt: Type, ordered: seq<Key>, v: Value,
                       ks: seq<seq<u32>>, es: seq<seq<u32>>)
    requires v.VMap? && EntryWords(schema, hash, kt, vt, ordered, v.entries, 0, ks, es) && ListsKeys(ordered, v.entries)
    ensures PairsBounded(ordered, ks, es, EntryWeights(schema, vt, v))
  {
    hide Weight, EncodedOrOverflown, Norm, Blank, StringWords;
    var m := EntryWeights(schema, vt, v);
    assert forall key :: key in m <==> key in v.entries;
    forall i | 0 <= i < |ordered| ensures ordered[i] in m && |ks[i]| + |es[i]| + 2 <= m[ordered[i]] {
      assert EncodesKey(kt, ordered[0 + i], ks[i]);
      KeyWithin(kt, ordered[i], ks[i]);
      assert EntryFaithful(schema, hash, vt, v.entries, ordered[0 + i], es[i]);
    }
  }

  /** An accepted map passes the size check. */
  lemma MapAccepted(schema: Schema, hash: Hash, clock: Clock, kt: KeyType, vt: Type, v: Value, ordered: seq<Key>,
                    keyBytes: seq<seq<u8>>, index: seq<u8>, positions: seq<nat>, keys: seq<Unit>, values: seq<Unit>,
                    ks: seq<seq<u32>>, es: seq<seq<u32>>, before: seq<u32>, view: seq<u32>)
    requires Accepted(schema, hash, clock, Map(kt, vt), v) && v.VMap? && ListsKeys(ordered, v.entries)
    requires EntryWords(schema, hash, kt, vt, ordered, v.entries, 0, ks, es)
    requires Held(keys, ks, before, view) && Held(values, es, before, view)
    requires |keyBytes| == |ordered| && IndexFor(hash, keyBytes, index, positions)
    ensures MapFits(index, C.Sizes(keys), C.Sizes(values))
  {
    hide Cost, BestWidth, WellFormed, EntryWeights, EntryWords, IndexFor, IndexRoom, PairsBounded, ListsKeys;
    EntriesBounded(schema, hash, kt, vt, ordered, v, ks, es);
    PairsWithin(ordered, ks, es, EntryWeights(schema, vt, v));
    IndexIsRoom(hash, keyBytes, index, positions);
    DistinctCount(ordered, v.entries);
    C.SizesAreLens(keys, view);
    C.SizesAreLens(values, view);
  }

  lemma AcceptedRecord(schema: Schema, hash: Hash, clock: Clock, name: Name, v: Value)
    requires Accepted(schema, hash, clock, Message(name), v) && name in schema && schema[name].Record?
    ensures v.VRecord? && 1 <= |schema[name].slots| <= 12 + 25 * 255
  {
    hide IndexFails, FieldWeights;
  }

  lemma AcceptedField(schema: Schema, hash: Hash, clock: Clock, name: Name, v: Value, id: nat)
    requires Accepted(schema, hash, clock, Message(name), v) && name in schema && schema[name].Record? && v.VRecord?
    requires Live(schema[name].slots, id) && id in v.fields
    ensures Accepted(schema, hash, clock, schema[name].slots[id].ty, v.fields[id])
  {
    hide IndexFails;
    TotalCovers(FieldWeights(schema, schema[name].slots, v), id);
  }

  lemma FieldsBounded(schema: Schema, hash: Hash, slots: seq<Slot>, v: Value, es: seq<seq<u32>>)
    requires v.VRecord? && FieldsFrom(schema, hash, slots, v.fields, 0, es)
    ensures FieldsWithin(es, FieldWeights(schema, slots, v))
  {
    hide Weight, EncodedOrOverflown, Norm, Blank;
    var bounds := FieldWeights(schema, slots, v);
    forall id | 0 <= id < |es| && es[id] != [] ensures |es[id]| + 1 <= bounds[id] {
      assert Faithful(schema, hash, slots[id].ty, v.fields[id], es[id]);
    }
  }

  /** An accepted record passes the size checks. */
  lemma RecordAccepted(schema: Schema, hash: Hash, clock: Clock, name: Name, v: Value, units: seq<Unit>,
                       es: seq<seq<u32>>, before: seq<u32>, view: seq<u32>)
    requires Accepted(schema, hash, clock, Message(name), v) && name in schema && schema[name].Record? && v.VRecord?
    requires |schema[name].slots| <= 12 + 25 * 255 && |es| == |schema[name].slots|
    requires FieldsFrom(schema, hash, schema[name].slots, v.fields, 0, es) && Placing(units, es, 0, before, view)
    ensures DataSize(Used(units)) < MAX_SIZE && Sections(|Used(units)|) <= 0xff
  {
    hide FieldsFrom, FieldWeights, WellFormed, DataSize, Payload, Used, PlacedUnit, Units, Sections, FieldsWithin;
    FieldsBounded(schema, hash, schema[name].slots, v, es);
    RecordPasses(units, es, FieldWeights(schema, schema[name].slots, v), |before|);
  }

  // ----- strings and scalars

  method EncodeText(schema: Schema, hash: Hash, bytes: seq<u8>, buffer: Buffer)
    returns (unit: Option<Unit>, ghost words: seq<u32>)
    requires buffer.Valid()
    modifies buffer.Repr()
    ensures buffer.Valid() && fresh(buffer.Repr() - old(buffer.Repr()))
    ensures unit.None? <==> |bytes| >= MAX_LEN
    ensures unit.Some? ==>
        Encoded(schema, hash, Text, VBytes(bytes), unit.value, words, old(buffer.View()), buffer.View())
    ensures unit.Some? ==> words == StringWords(bytes)
  {
    hide StringWords, Buffer.View;
    words := StringWords(bytes);
    unit := SerializeBytes(bytes, buffer);
    if unit.Some? { TextWithin(bytes); }
  }

  method BytesOfBools(items: seq<Value>) returns (bytes: Option<seq<u8>>)
    ensures bytes.Some? <==> forall i :: 0 <= i < |items| ==> items[i].VBool?
    ensures bytes.Some? ==> bytes.value == BoolBytes(items)
  {
    var b := [];
    for i := 0 to |items|
      invariant |b| == i && forall j :: 0 <= j < i ==> items[j].VBool? && b[j] == if items[j].b then 1 else 0
    {
      if !items[i].VBool? {
        return None;
      }
      b := b + [if items[i].b then 1 else 0];
    }
    bytes := Some(b);
  }

  // ----- values

  /** Encodes a value of any type; a value of another type is a mismatch. */
  method EncodeValue(schema: Schema, ty: Type, v: Value, hash: Hash, clock: Clock, buffer: Buffer)
    returns (unit: Option<Unit>, ghost words: seq<u32>)
    requires buffer.Valid()
    modifies buffer.Repr()
    ensures buffer.Valid() && fresh(buffer.Repr() - old(buffer.Repr()))
    ensures unit.Some? ==> Encoded(schema, hash, ty, v, unit.value, words, old(buffer.View()), buffer.View())
    ensures Accepted(schema, hash, clock, ty, v) ==> unit.Some?
    decreases v, 2
  {
    hide EncodedOrOverflown, Norm, Blank, Buffer.View, Weight;
    AcceptedShape(schema, hash, clock, ty, v);
    words := [];
    match ty {
      case Bool =>
        if !v.VBool? {
          return None, words;
        }
        words := [if v.b then 1 else 0];
        ScalarFaithful(schema, hash, ty, v, words);
        unit := Some(InlineUnit([if v.b then 1 else 0]));
      case Scalar(width) =>
        if !v.VNum? || |v.words| != width {
          return None, words;
        }
        words := v.words;
        ScalarFaithful(schema, hash, ty, v, words);
        unit := Some(InlineUnit(v.words));
      case Text =>
        if !v.VBytes? {
          return None, words;
        }
        unit, words := EncodeText(schema, hash, v.bytes, buffer);
      case List(item) =>
        unit, words := EncodeList(schema, item, v, hash, clock, buffer);
      case Map(key, value) =>
        unit, words := EncodeMap(schema, key, value, v, hash, clock, buffer);
      case Message(name) =>
        unit, words := EncodeMessage(schema, name, v, hash, clock, buffer);
    }
  }

  lemma ScalarFaithful(schema: Schema, hash: Hash, ty: Type, v: Value, words: seq<u32>)
    requires match ty case Bool => v.VBool? && words == [if v.b then 1 else 0] case Scalar(width) => v == VNum(words)
        && |words| == width case _ => false
    ensures Faithful(schema, hash, ty, v, words)
  {
  }

  method EncodeMessage(schema: Schema, name: Name, v: Value, hash: Hash, clock: Clock, buffer: Buffer)
    returns (unit: Option<Unit>, ghost words: seq<u32>)
    requires buffer.Valid()
    modifies buffer.Repr()
    ensures buffer.Valid() && fresh(buffer.Repr() - old(buffer.Repr()))
    ensures unit.Some? ==> Encoded(schema, hash, Message(name), v, unit.value, words, old(buffer.View()), buffer.View())
    ensures Accepted(schema, hash, clock, Message(name), v) ==> unit.Some?
    decreases v, 1
  {
    hide EncodedOrOverflown, Buffer.View, Weight, Accepted;
    AcceptedAlias(schema, hash, clock, name, v);
    words := [];
    if name !in schema {
      return None, words;
    }
    match schema[name] {
      case ListAlias(item) =>
        unit, words := EncodeList(schema, item, v, hash, clock, buffer);
        if unit.Some? { AliasFaithful(schema, hash, name, v, words); }
      case MapAlias(key, value) =>
        unit, words := EncodeMap(schema, key, value, v, hash, clock, buffer);
        if unit.Some? { AliasFaithful(schema, hash, name, v, words); }
      case Record(slots) =>
        if !v.VRecord? {
          return None, words;
        }
        unit, words := EncodeRecord(schema, name, v, hash, clock, buffer);
    }
  }

  /** An alias is encoded as the list or map it stands for. */
  lemma AliasFaithful(schema: Schema, hash: Hash, name: Name, v: Value, words: seq<u32>)
    requires name in schema && !schema[name].Record? && Faithful(schema, hash, AliasType(schema[name]), v, words)
    requires schema[name] == ListAlias(Bool) && v == VList([]) ==> words == [0]
    ensures Faithful(schema, hash, Message(name), v, words)
  {
    hide Norm, ListEncoding, MapEncoding, LaidList, LaidMap;
    AliasNorm(schema, name, v);
    AliasLaid(schema, hash, name, Norm(schema, Message(name), v), words);
    AliasWeight(schema, name, v);
  }

  lemma AliasLaid(schema: Schema, hash: Hash, name: Name, v: Value, words: seq<u32>)
    requires name in schema && !schema[name].Record?
    ensures EncodedOrOverflown(schema, hash, AliasType(schema[name]), v, words) ==>
              EncodedOrOverflown(schema, hash, Message(name), v, words)
  {
    hide ListEncoding, MapEncoding, LaidList, LaidMap;
  }

  lemma AliasNorm(schema: Schema, name: Name, v: Value)
    requires name in schema && !schema[name].Record?
    ensures Norm(schema, AliasType(schema[name]), v) == Norm(schema, Message(name), v)
    ensures schema[name] == ListAlias(Bool) && Norm(schema, Message(name), v) == VList([]) ==> v == VList([])
  {
    if v.VList? && schema[name].ListAlias? {
      assert |NormList(schema, schema[name].item, v).items| == |v.items|;
    }
  }

  // ----- lists

  ghost predicate ElementWords(schema: Schema, hash: Hash, item: Type, items: seq<Value>, es: seq<seq<u32>>) {
    |es| <= |items| && forall i {:trigger es[i]} :: 0 <= i < |es| ==> Faithful(schema, hash, item, items[i], es[i])
  }

  lemma ElementWordsStep(schema: Schema, hash: Hash, item: Type, items: seq<Value>, es: seq<seq<u32>>, e: seq<u32>)
    requires ElementWords(schema, hash, item, items, es) && |es| < |items|
        && Faithful(schema, hash, item, items[|es|], e)
    ensures ElementWords(schema, hash, item, items, es + [e])
  {
    hide Faithful;
  }

  method EncodeList(schema: Schema, item: Type, v: Value, hash: Hash, clock: Clock, buffer: Buffer)
    returns (unit: Option<Unit>, ghost words: seq<u32>)
    requires buffer.Valid()
    modifies buffer.Repr()
    ensures buffer.Valid() && fresh(buffer.Repr() - old(buffer.Repr()))
    ensures unit.Some? ==> Encoded(schema, hash, List(item), v, unit.value, words, old(buffer.View()), buffer.View())
    ensures unit.Some? && item.Bool? && v == VList([]) ==> words == [0]
    ensures Accepted(schema, hash, clock, List(item), v) ==> unit.Some?
    decreases v, 0
  {
    hide EncodingOf, Faithful, UnitWords, Held, ElementWords, StringWords, Buffer.View, Accepted, Cost, BestWidth;
    words := [];
    if Accepted(schema, hash, clock, List(item), v) { AcceptedList(schema, hash, clock, item, v); }
    if !v.VList? {
      return None, words;
    }
    if item.Bool? {
      var bytes := BytesOfBools(v.items);
      if bytes.None? {
        return None, words;
      }
      words := StringWords(bytes.value);
      unit := SerializeBytes(bytes.value, buffer);
      if unit.Some? { BoolListFaithful(schema, hash, v, words); }
      return;
    }
    if v.items == [] {
      words := EmptyList(item);
      EmptyListFaithful(schema, hash, item);
      return Some(InlineUnit(EmptyList(item))), words;
    }
    var units: seq<Unit> := [];
    var last := buffer.Len();
    ghost var before, es := buffer.View(), [];
    NoneHeld(before);
    NoElements(schema, hash, item, v.items);
    for i := 0 to |v.items|
      invariant buffer.Valid() && fresh(buffer.Repr() - old(buffer.Repr()))
      invariant |es| == i && Held(units, es, before, buffer.View()) && ElementWords(schema, hash, item, v.items, es)
    {
      ghost var view := buffer.View();
      var element;
      ghost var e;
      element, e := EncodeValue(schema, item, v.items[i], hash, clock, buffer);
      if element.None? {
        if Accepted(schema, hash, clock, List(item), v) { AcceptedItem(schema, hash, clock, item, v, i); }
        return None, words;
      }
      ghost var front := Delivered(element.value, e, view, buffer.View());
      var folded := element.value;
      if item.Message? && element.value.Size() > 1 {
        folded := Fold(buffer, element.value, e, view);
        FoldedReads(folded, e, view, buffer.View());
        front := if |e| <= 3 then [] else e;
        assert [] + view == view;
      }
      HeldAppend(units, es, before, view, folded, e, front);
      ElementWordsStep(schema, hash, item, v.items, es, e);
      units, es := units + [folded], es + [e];
    }
    ghost var view := buffer.View();
    HeldLength(units, es, before, view);
    if Accepted(schema, hash, clock, List(item), v) {
      ListAccepted(schema, hash, clock, item, v, units, es, before, view);
    }
    unit := C.SerializeArrayAt(units, buffer, last);
    if unit.Some? {
      words := ListFinished(schema, hash, item, v.items, units, es, before, view, unit.value, buffer.View());
    }
  }

  lemma NoElements(schema: Schema, hash: Hash, item: Type, items: seq<Value>)
    ensures ElementWords(schema, hash, item, items, [])
  {
  }

  lemma BoolListFaithful(schema: Schema, hash: Hash, v: Value, words: seq<u32>)
    requires v.VList? && (forall i :: 0 <= i < |v.items| ==> v.items[i].VBool?) && |v.items| < MAX_LEN
    requires words == StringWords(BoolBytes(v.items))
    ensures Faithful(schema, hash, List(Bool), v, words)
    ensures v == VList([]) ==> words == [0]
  {
    hide StringWords;
    TextWithin(BoolBytes(v.items));
    StringFirstWord(BoolBytes(v.items));
    NormOfList(schema, Bool, v.items, v.items);
    BoolFormat(schema, hash, v);
  }

  lemma EmptyListFaithful(schema: Schema, hash: Hash, item: Type)
    requires !item.Bool?
    ensures Faithful(schema, hash, List(item), VList([]), EmptyList(item))
  {
    assert NormList(schema, item, VList([])).items == [];
  }

  /** The array of the encoded elements encodes the list. */
  lemma ListFinished(schema: Schema, hash: Hash, item: Type, items: seq<Value>, units: seq<Unit>, es: seq<seq<u32>>,
                     before: seq<u32>, view: seq<u32>, unit: Unit, after: seq<u32>) returns (words: seq<u32>)
    requires Held(units, es, before, view) && ElementWords(schema, hash, item, items, es) && |es| == |items| != 0
        && !item.Bool?
    requires C.ArrayEncoded(units, view, |before|, unit, after)
    ensures Encoded(schema, hash, List(item), VList(items), unit, words, before, after)
  {
    hide EncodedOrOverflown, Norm, Cost, BestWidth, C.ArrayWords, ItemWeights;
    words := C.ArrayWords(es);
    ArrayTag(es);
    ElementsWithin(schema, hash, item, VList(items), es);
    ArrayWithin(es, ItemWeights(schema, item, VList(items)));
    var norms := seq(|items|, i requires 0 <= i < |items| => Norm(schema, item, items[i]));
    forall i | 0 <= i < |es| ensures EncodedOrOverflown(schema, hash, item, norms[i], es[i]) {
      assert Faithful(schema, hash, item, items[i], es[i]);
    }
    ListOutcome(schema, hash, item, VList(norms), es);
    NormOfList(schema, item, items, norms);
  }

  lemma NormOfList(schema: Schema, item: Type, items: seq<Value>, norms: seq<Value>)
    requires |norms| == |items| && forall i :: 0 <= i < |items| ==> norms[i] == Norm(schema, item, items[i])
    ensures Norm(schema, List(item), VList(items)) == VList(norms)
  {
    assert NormList(schema, item, VList(items)).items == norms;
  }

  // ----- maps

  /** The words of the entries from position i on. */
  ghost predicate EntryWords(schema: Schema, hash: Hash, kt: KeyType, vt: Type, ordered: seq<Key>,
                             entries: map<Key, Value>, i: nat, ks: seq<seq<u32>>, es: seq<seq<u32>>) {
    && i + |ks| == |ordered| && |es| == |ks|
    && (forall j {:trigger ks[j]} :: 0 <= j < |ks| ==> EncodesKey(kt, ordered[i + j], ks[j]))
    && (forall j {:trigger es[j]} :: 0 <= j < |es| ==> EntryFaithful(schema, hash, vt, entries, ordered[i + j], es[j]))
  }

  ghost predicate EntryFaithful(schema: Schema, hash: Hash, vt: Type, entries: map<Key, Value>, key: Key, e: seq<u32>) {
    key in entries && Faithful(schema, hash, vt, entries[key], e)
  }

  lemma EntryWordsStep(schema: Schema, hash: Hash, kt: KeyType, vt: Type, ordered: seq<Key>, entries: map<Key, Value>,
                       i: nat, ks: seq<seq<u32>>, es: seq<seq<u32>>, k: seq<u32>, e: seq<u32>)
    requires i > 0 && EntryWords(schema, hash, kt, vt, ordered, entries, i, ks, es)
    requires EncodesKey(kt, ordered[i - 1], k) && EntryFaithful(schema, hash, vt, entries, ordered[i - 1], e)
    ensures EntryWords(schema, hash, kt, vt, ordered, entries, i - 1, [k] + ks, [e] + es)
  {
    hide EntryFaithful, EncodesKey;
    var ks', es' := [k] + ks, [e] + es;
    forall j | 0 <= j < |ks'| ensures EncodesKey(kt, ordered[i - 1 + j], ks'[j])
        && EntryFaithful(schema, hash, vt, entries, ordered[i - 1 + j], es'[j]) {
      if j > 0 { assert ks'[j] == ks[j - 1] && es'[j] == es[j - 1] && ordered[i - 1 + j] == ordered[i + (j - 1)]; }
    }
  }

  /** The reverse loop over the entries, key before value. */
  method EncodeEntries(schema: Schema, kt: KeyType, vt: Type, ordered: seq<Key>, v: Value, hash: Hash, clock: Clock,
                       buffer: Buffer)
    returns (units: Option<(seq<Unit>, seq<Unit>)>, ghost ks: seq<seq<u32>>, ghost es: seq<seq<u32>>)
    requires buffer.Valid() && v.VMap? && forall i :: 0 <= i < |ordered| ==>
        MatchesKey(kt, ordered[i]) && ordered[i] in v.entries
    modifies buffer.Repr()
    ensures buffer.Valid() && fresh(buffer.Repr() - old(buffer.Repr()))
    ensures units.Some? ==>
        Held(units.value.0, ks, old(buffer.View()), buffer.View())
            && Held(units.value.1, es, old(buffer.View()), buffer.View())
    ensures units.Some? ==>
        EntryWords(schema, hash, kt, vt, ordered, v.entries, 0, ks, es)
            && (ordered == [] ==> buffer.View() == old(buffer.View()))
    ensures (forall i :: 0 <= i < |ordered| ==> AcceptedEntry(schema, hash, clock, vt, v.entries, ordered[i])) ==>
        units.Some?
    decreases v, 0, 0
  {
    hide Held, EntryWords, Faithful, EncodesKey, Delivers, MatchesKey, EncodedOrOverflown, Buffer.View, Accepted;
    var keys: seq<Unit>, values: seq<Unit> := [], [];
    ks, es := [], [];
    ghost var before := buffer.View();
    var i := |ordered|;
    NoneHeld(before);
    EntriesStart(schema, hash, kt, vt, ordered, v.entries);
    while i > 0
      invariant 0 <= i <= |ordered|
      invariant buffer.Valid() && fresh(buffer.Repr() - old(buffer.Repr()))
      invariant Held(keys, ks, before, buffer.View()) && Held(values, es, before, buffer.View())
      invariant EntryWords(schema, hash, kt, vt, ordered, v.entries, i, ks, es)
          && (ordered == [] ==> buffer.View() == before)
    {
      i := i - 1;
      ghost var view := buffer.View();
      var key, value;
      ghost var k, e;
      key, k := EncodeKey(kt, ordered[i], buffer);
      if key.None? {
        return None, ks, es;
      }
      ghost var view1 := buffer.View();
      value, e := EncodeValue(schema, vt, v.entries[ordered[i]], hash, clock, buffer);
      if value.None? {
        return None, ks, es;
      }
      HeldStep(keys, ks, before, view, key.value, k, view1);
      HeldOn(values, es, before, view, key.value, k, view1);
      HeldOn([key.value] + keys, [k] + ks, before, view1, value.value, e, buffer.View());
      HeldStep(values, es, before, view1, value.value, e, buffer.View());
      EntryWordsStep(schema, hash, kt, vt, ordered, v.entries, i + 1, ks, es, k, e);
      keys, values := [key.value] + keys, [value.value] + values;
      ks, es := [k] + ks, [e] + es;
    }
    units := Some((keys, values));
  }

  lemma EntriesStart(schema: Schema, hash: Hash, kt: KeyType, vt: Type, ordered: seq<Key>, entries: map<Key, Value>)
    ensures EntryWords(schema, hash, kt, vt, ordered, entries, |ordered|, [], [])
  {
  }

  method EncodeMap(schema: Schema, kt: KeyType, vt: Type, v: Value, hash: Hash, clock: Clock, buffer: Buffer)
    returns (unit: Option<Unit>, ghost words: seq<u32>)
    requires buffer.Valid()
    modifies buffer.Repr()
    ensures buffer.Valid() && fresh(buffer.Repr() - old(buffer.Repr()))
    ensures unit.Some? ==> Encoded(schema, hash, Map(kt, vt), v, unit.value, words, old(buffer.View()), buffer.View())
    ensures Accepted(schema, hash, clock, Map(kt, vt), v) ==> unit.Some?
    decreases v, 0
  {
    hide Held, EntryWords, Faithful, EncodesKey, MatchesKey, EncodingOf, IndexFor, MapEncoded, MapFits, Buffer.View,
         Accepted, IndexFails, Arranged;
    words := [];
    if Accepted(schema, hash, clock, Map(kt, vt), v) { AcceptedMap(schema, hash, clock, kt, vt, v); }
    if !v.VMap? {
      return None, words;
    }
    var plan;
    ghost var items, keyBytes, positions, time;
    plan, items, keyBytes, positions, time := PlanKeys(kt, v.entries, hash, clock);
    if plan.None? {
      if FailsWith(hash, items, clock(time)) { FailsAtTime(hash, clock, v.entries, items, time); }
      return None, words;
    }
    var (index, ordered) := plan.value;
    PlanFacts(kt, v.entries, hash, index, ordered, items, keyBytes, positions);
    var last := buffer.Len();
    ghost var before := buffer.View();
    var units;
    ghost var ks, es;
    units, ks, es := EncodeEntries(schema, kt, vt, ordered, v, hash, clock, buffer);
    if units.None? {
      if Accepted(schema, hash, clock, Map(kt, vt), v) { AcceptedEntries(schema, hash, clock, kt, vt, v, ordered); }
      return None, words;
    }
    ghost var view := buffer.View();
    var (keys, values) := units.value;
    EntriesCount(schema, hash, kt, vt, ordered, v.entries, keys, values, ks, es, before, view);
    if Accepted(schema, hash, clock, Map(kt, vt), v) {
      MapAccepted(schema, hash, clock, kt, vt, v, ordered, keyBytes, index, positions, keys, values, ks, es, before,
          view);
    }
    unit := SerializeMapAt(index, keys, values, buffer, last);
    if unit.Some? {
      if keys == [] {
        words := EMPTY_MAP;
        EmptyMapFaithful(schema, hash, kt, vt, v, ordered);
      } else {
        words := MapFinishes(schema, kt, vt, ordered, v, keys, values, ks, es, before, view,
                             hash, items, keyBytes, index, positions, unit.value, buffer.View());
      }
    }
  }

  lemma EntriesCount(schema: Schema, hash: Hash, kt: KeyType, vt: Type, ordered: seq<Key>, entries: map<Key, Value>,
                     keys: seq<Unit>, values: seq<Unit>, ks: seq<seq<u32>>, es: seq<seq<u32>>, before: seq<u32>,
                     view: seq<u32>)
    requires EntryWords(schema, hash, kt, vt, ordered, entries, 0, ks, es) && Held(keys, ks, before, view)
        && Held(values, es, before, view)
    ensures |keys| == |values| == |ordered| && C.Readable(keys, view) && C.Readable(values, view) && |before| <= |view|
  {
  }

  lemma EmptyMapFaithful(schema: Schema, hash: Hash, kt: KeyType, vt: Type, v: Value, ordered: seq<Key>)
    requires v.VMap? && ordered == [] && ListsKeys(ordered, v.entries)
    ensures Faithful(schema, hash, Map(kt, vt), v, EMPTY_MAP)
  {
    assert NormMap(schema, vt, v).entries == map[];
    assert EncodingOf(schema, hash, Map(kt, vt), VMap(map[]), EMPTY_MAP);
  }

  /** The map of the encoded entries encodes the map. */
  lemma MapFinishes(schema: Schema, kt: KeyType, vt: Type, ordered: seq<Key>, v: Value, keys: seq<Unit>,
                    values: seq<Unit>, ks: seq<seq<u32>>, es: seq<seq<u32>>, before: seq<u32>, view: seq<u32>,
                    hash: Hash, items: seq<Key>, keyBytes: seq<seq<u8>>, index: seq<u8>, positions: seq<nat>,
                    unit: Unit, after: seq<u32>) returns (words: seq<u32>)
    requires Arranged(items, keyBytes, positions, ordered)
    requires v.VMap? && ListsKeys(ordered, v.entries) && ordered != []
    requires EntryWords(schema, hash, kt, vt, ordered, v.entries, 0, ks, es) && Held(keys, ks, before, view)
        && Held(values, es, before, view)
    requires |keyBytes| == |ordered| && IndexFor(hash, keyBytes, index, positions)
    requires MapEncoded(index, keys, values, view, |before|, unit, after)
        && MapFits(index, C.Sizes(keys), C.Sizes(values))
    ensures Encoded(schema, hash, Map(kt, vt), v, unit, words, before, after)
  {
    hide EncodingOf, Norm, Cost, BestWidth, MapWords, IndexFor, EncodesKey, Faithful, Arranged;
    words := MapWords(index, ks, es);
    C.SizesAreLens(keys, view);
    C.SizesAreLens(values, view);
    MapTag(hash, keyBytes, index, positions, ks, es);
    WordsFaithful(schema, kt, vt, ordered, v, ks, es, hash, items, keyBytes, index, positions);
  }

  lemma WordsFaithful(schema: Schema, kt: KeyType, vt: Type, ordered: seq<Key>, v: Value, ks: seq<seq<u32>>,
                      es: seq<seq<u32>>, hash: Hash, items: seq<Key>, keyBytes: seq<seq<u8>>, index: seq<u8>,
                      positions: seq<nat>)
    requires v.VMap? && ListsKeys(ordered, v.entries) && ordered != [] && Arranged(items, keyBytes, positions, ordered)
    requires EntryWords(schema, hash, kt, vt, ordered, v.entries, 0, ks, es)
        && Indexed(hash, keyBytes, index, positions, ks, es)
    ensures Faithful(schema, hash, Map(kt, vt), v, MapWords(index, ks, es))
  {
    hide EncodedOrOverflown, Norm, MapWords, Indexed, Arranged, EntryWords, Blank, Weight;
    MapWithin(schema, hash, kt, vt, ordered, v, ks, es, keyBytes, index, positions);
    var l := MapLayout(items, ordered, ks, es, keyBytes, index, positions);
    EntriesEncode(schema, hash, kt, vt, v, l);
    NormOfMap(schema, kt, vt, v);
    NeverBlank(schema, kt, vt, Norm(schema, Map(kt, vt), v));
  }

  lemma NeverBlank(schema: Schema, kt: KeyType, vt: Type, v: Value)
    ensures !Blank(schema, Map(kt, vt), v)
  {
  }

  lemma MapWithin(schema: Schema, hash: Hash, kt: KeyType, vt: Type, ordered: seq<Key>, v: Value, ks: seq<seq<u32>>,
                  es: seq<seq<u32>>, keyBytes: seq<seq<u8>>, index: seq<u8>, positions: seq<nat>)
    requires v.VMap? && ListsKeys(ordered, v.entries)
    requires EntryWords(schema, hash, kt, vt, ordered, v.entries, 0, ks, es)
        && Indexed(hash, keyBytes, index, positions, ks, es)
    ensures |index| >= 4 && |ks| == |es| && |MapWords(index, ks, es)| <= Weight(schema, Map(kt, vt), v)
  {
    hide IndexFor, EntryWords, EntryWeights, Cost, BestWidth, IndexRoom, WordSize, PairsBounded, ListsKeys;
    EntriesBounded(schema, hash, kt, vt, ordered, v, ks, es);
    PairsWithin(ordered, ks, es, EntryWeights(schema, vt, v));
    IndexIsRoom(hash, keyBytes, index, positions);
    DistinctCount(ordered, v.entries);
    BoundedCount(ordered, ks, es, EntryWeights(schema, vt, v));
  }

  lemma EntriesEncode(schema: Schema, hash: Hash, kt: KeyType, vt: Type, v: Value, l: MapLayout)
    requires v.VMap? && ListsKeys(l.ordered, v.entries) && l.ordered != []
        && Arranged(l.items, l.keyBytes, l.positions, l.ordered)
    requires EntryWords(schema, hash, kt, vt, l.ordered, v.entries, 0, l.ks, l.es)
    requires Indexed(hash, l.keyBytes, l.index, l.positions, l.ks, l.es)
    ensures |l.index| >= 4 && |l.ks| == |l.es|
    ensures EncodedOrOverflown(schema, hash, Map(kt, vt), VMap(NormMap(schema, vt, v).entries),
                               MapWords(l.index, l.ks, l.es))
  {
    hide EncodedOrOverflown, Norm, MapWords, IndexFor, EncodesKey, MapSized, Arranged, Weight, Blank;
    var entries := NormMap(schema, vt, v).entries;
    forall i | 0 <= i < |l.es| ensures EncodedOrOverflown(schema, hash, vt, entries[l.ordered[i]], l.es[i]) {
      assert EntryFaithful(schema, hash, vt, v.entries, l.ordered[0 + i], l.es[i]);
    }
    assert LayoutOf(l, hash, kt, entries);
    MapOutcome(schema, hash, kt, vt, VMap(entries), l);
  }

  lemma NormOfMap(schema: Schema, kt: KeyType, vt: Type, v: Value)
    requires v.VMap?
    ensures Norm(schema, Map(kt, vt), v) == VMap(NormMap(schema, vt, v).entries)
  {
  }

  // ----- records

  /** Present fields the encoder keeps: live, and not blank. */
  ghost predicate Kept(schema: Schema, slots: seq<Slot>, fields: map<nat, Value>, id: nat) {
    && Live(slots, id) && id in fields
    && !Blank(schema, slots[id].ty, Norm(schema, slots[id].ty, fields[id]))
  }

  /** Fields from `id` on are encoded; those that are kept have words. */
  ghost predicate FieldsFrom(schema: Schema, hash: Hash, slots: seq<Slot>, fields: map<nat, Value>, id: nat,
                             es: seq<seq<u32>>) {
    && id <= |slots| == |es|
    && (forall j {:trigger es[j]} :: id <= j < |es| && es[j] != [] ==>
        Live(slots, j) && j in fields && Faithful(schema, hash, slots[j].ty, fields[j], es[j]))
    && (forall j {:trigger es[j]} :: id <= j < |es| ==> (es[j] != [] <==> Kept(schema, slots, fields, j)))
  }

  lemma SkipField(schema: Schema, hash: Hash, slots: seq<Slot>, fields: map<nat, Value>, id: nat, es: seq<seq<u32>>)
    requires id < |slots| && FieldsFrom(schema, hash, slots, fields, id + 1, es) && es[id] == []
    requires !Kept(schema, slots, fields, id)
    ensures FieldsFrom(schema, hash, slots, fields, id, es)
  {
  }

  lemma FieldStep(schema: Schema, hash: Hash, slots: seq<Slot>, fields: map<nat, Value>, id: nat, es: seq<seq<u32>>,
                  e: seq<u32>)
    requires id < |slots| && FieldsFrom(schema, hash, slots, fields, id + 1, es)
    requires Live(slots, id) && id in fields && e != [] && Faithful(schema, hash, slots[id].ty, fields[id], e)
    requires slots[id].ty.Message? ==> e != [0]
    ensures FieldsFrom(schema, hash, slots, fields, id, es[id := e])
  {
    hide EncodedOrOverflown, Norm, Weight;
    assert Faithful(schema, hash, slots[id].ty, fields[id], e);
  }

  /** A dropped sub-message is blank. */
  lemma DroppedIsBlank(schema: Schema, hash: Hash, ty: Type, v: Value, words: seq<u32>)
    requires ty.Message? && words == [0] && Faithful(schema, hash, ty, v, words)
    ensures Blank(schema, ty, Norm(schema, ty, v))
  {
    hide Norm, EncodingOf, Laid, Encodes, TreeReading.ReadsAs, Weight;
    var norm := Norm(schema, ty, v);
    if !EncodingOf(schema, hash, ty, norm, words) {
      OverflowLength(schema, hash, ty, norm, words);
      assert false;
    }
    FormatReads(schema, hash, ty, norm, words);
    EncodesReads(schema, ty, norm, words);
    ZeroWordIsBlank(schema, ty.name, norm);
  }

  /** What becomes of the encoding of field `id`: nothing when blank, otherwise folded when small. */
  ghost predicate SlotDone(schema: Schema, hash: Hash, ty: Type, v: Value, unit: Unit, e: seq<u32>, before: seq<u32>,
                           after: seq<u32>) {
    if e == [] then unit == EMPTY && after == before && Blank(schema, ty, Norm(schema, ty, v))
    else
      && Faithful(schema, hash, ty, v, e) && (ty.Message? ==> e != [0])
      && if |e| <= 3 then unit == InlineUnit(e) && after == before
         else unit == SegmentUnit(|before|, |before| + |e|) && after == e + before
  }

  /** Drops a blank sub-message, or folds. */
  method FinishSlot(schema: Schema, hash: Hash, ty: Type, v: Value, encoded: Unit, ghost words: seq<u32>,
                    ghost before: seq<u32>, buffer: Buffer)
    returns (unit: Unit, ghost e: seq<u32>)
    requires buffer.Valid() && Encoded(schema, hash, ty, v, encoded, words, before, buffer.View())
    modifies buffer
    ensures buffer.Valid() && buffer.data == old(buffer.data)
    ensures SlotDone(schema, hash, ty, v, unit, e, before, buffer.View())
  {
    hide Faithful, Norm, Blank, Buffer.View;
    ghost var front := Delivered(encoded, words, before, buffer.View());
    if ty.Message? && encoded.Size() == 1 && (encoded.IsSegment() || encoded.inlineWords[0] == 0) {
      DroppedIsBlank(schema, hash, ty, v, words);
      if encoded.IsSegment() {
        buffer.Shrink(1);
      }
      return EMPTY, [];
    }
    unit := Fold(buffer, encoded, words, before);
    e := words;
  }

  /** One field of a record: encoded, dropped when blank, or folded. */
  method EncodeSlot(schema: Schema, slots: seq<Slot>, v: Value, id: nat, hash: Hash, clock: Clock, buffer: Buffer)
    returns (unit: Option<Unit>, ghost e: seq<u32>)
    requires buffer.Valid() && v.VRecord? && Live(slots, id) && id in v.fields
    modifies buffer.Repr()
    ensures buffer.Valid() && fresh(buffer.Repr() - old(buffer.Repr()))
    ensures unit.Some? ==>
        SlotDone(schema, hash, slots[id].ty, v.fields[id], unit.value, e, old(buffer.View()), buffer.View())
    ensures Accepted(schema, hash, clock, slots[id].ty, v.fields[id]) ==> unit.Some?
    decreases v, 0, 0
  {
    hide SlotDone, Encoded, Buffer.View;
    ghost var view := buffer.View();
    ghost var words;
    unit, words := EncodeValue(schema, slots[id].ty, v.fields[id], hash, clock, buffer);
    e := [];
    if unit.None? {
      return;
    }
    var finished;
    finished, e := FinishSlot(schema, hash, slots[id].ty, v.fields[id], unit.value, words, view, buffer);
    unit := Some(finished);
  }

  /** Exactly these fields of a record are present in the words, whatever follows them. */
  ghost predicate FieldsLeft(schema: Schema, slots: seq<Slot>, v: Value, words: seq<u32>) {
    v.VRecord? && forall suffix: seq<u32>, id: nat {:trigger FieldIn(words + suffix, id)} ::
      FieldIn(words + suffix, id).Some? <==> Remains(schema, slots, v.fields, id)
  }

  lemma KeptFields(schema: Schema, hash: Hash, name: Name, v: Value, words: seq<u32>)
    requires name in schema && schema[name].Record?
    requires EncodedOrOverflown(schema, hash, Message(name), Norm(schema, Message(name), v), words)
    ensures FieldsLeft(schema, schema[name].slots, v, words)
  {
    hide EncodedOrOverflown, Remains, FieldIn;
    var norm := Norm(schema, Message(name), v);
    forall suffix: seq<u32>, id: nat
      ensures v.VRecord? && (FieldIn(words + suffix, id).Some? <==> Remains(schema, schema[name].slots, v.fields, id))
    {
      OutcomePresence(schema, hash, name, norm, words, suffix, id);
      if v.VRecord? { NormKeeps(schema, name, v); }
    }
    assert words + [] == words;
    OutcomePresence(schema, hash, name, norm, words, [], 0);
  }

  method EncodeRecord(schema: Schema, name: Name, v: Value, hash: Hash, clock: Clock, buffer: Buffer)
    returns (unit: Option<Unit>, ghost words: seq<u32>)
    requires buffer.Valid() && name in schema && schema[name].Record? && v.VRecord?
    modifies buffer.Repr()
    ensures buffer.Valid() && fresh(buffer.Repr() - old(buffer.Repr()))
    ensures unit.Some? ==> Encoded(schema, hash, Message(name), v, unit.value, words, old(buffer.View()), buffer.View())
    ensures unit.Some? ==> FieldsLeft(schema, schema[name].slots, v, words)
    ensures Accepted(schema, hash, clock, Message(name), v) ==> unit.Some?
    decreases v, 0
  {
    hide FieldsFrom, FieldsLeft, Faithful, EncodingOf, Norm, Blank, Payload, Kept, Placing, MessageWords, DataSize,
         SlotDone, Buffer.View, Accepted, Sections;
    words := [];
    if Accepted(schema, hash, clock, Message(name), v) { AcceptedRecord(schema, hash, clock, name, v); }
    var slots, fields := schema[name].slots, v.fields;
    var maxNumber := |slots|;
    if maxNumber == 0 || maxNumber > 12 + 25 * 255 {
      return None, words;
    }
    var last := buffer.Len();
    ghost var before := buffer.View();
    var units := seq(maxNumber, _ => EMPTY);
    ghost var es: seq<seq<u32>> := seq(maxNumber, _ => []);
    PlacingStart(units, es, before);
    FieldsStart(schema, hash, slots, fields, es);
    var id: nat := maxNumber;
    while id > 0
      invariant buffer.Valid() && fresh(buffer.Repr() - old(buffer.Repr()))
      invariant id <= maxNumber == |units| == |es| && Placing(units, es, id, before, buffer.View())
      invariant FieldsFrom(schema, hash, slots, fields, id, es)
    {
      id := id - 1;
      EmptyAtId(units, es, id, before, buffer.View());
      if !Live(slots, id) || id !in fields {
        NotKept(schema, slots, fields, id);
        SkipField(schema, hash, slots, fields, id, es);
        continue;
      }
      ghost var view := buffer.View();
      var field;
      ghost var e;
      field, e := EncodeSlot(schema, slots, v, id, hash, clock, buffer);
      if field.None? {
        if Accepted(schema, hash, clock, Message(name), v) { AcceptedField(schema, hash, clock, name, v, id); }
        return None, words;
      }
      SlotStep(schema, hash, slots, fields, id, es, field.value, e, view, buffer.View());
      PlacingStep(units, es, id, before, view, field.value, e, buffer.View());
      units, es := units[id := field.value], es[id := e];
    }
    ghost var view := buffer.View();
    PlacingDone(units, es, before, view);
    if Accepted(schema, hash, clock, Message(name), v) {
      RecordAccepted(schema, hash, clock, name, v, units, es, before, view);
    }
    unit := SerializeMessageAt(units, buffer, last);
    if unit.Some? {
      RecordDone(units, es, before, view, unit.value, buffer.View());
      words := RecordWords(es, last);
      RecordFaithful(schema, hash, name, v, es, last);
    }
  }

  lemma SlotStep(schema: Schema, hash: Hash, slots: seq<Slot>, fields: map<nat, Value>, id: nat, es: seq<seq<u32>>,
                 unit: Unit, e: seq<u32>, before: seq<u32>, after: seq<u32>)
    requires id < |slots| && FieldsFrom(schema, hash, slots, fields, id + 1, es) && es[id] == []
    requires Live(slots, id) && id in fields && SlotDone(schema, hash, slots[id].ty, fields[id], unit, e, before, after)
    ensures FieldsFrom(schema, hash, slots, fields, id, es[id := e])
    ensures if |e| <= 3 then unit == InlineUnit(e) && after == before
            else unit == SegmentUnit(|before|, |before| + |e|) && after == e + before
  {
    hide Faithful, Blank, Norm;
    if e == [] {
      BlankNotKept(schema, slots, fields, id);
      assert es[id := e] == es;
      SkipField(schema, hash, slots, fields, id, es);
    } else {
      FieldStep(schema, hash, slots, fields, id, es, e);
    }
  }

  lemma FieldsStart(schema: Schema, hash: Hash, slots: seq<Slot>, fields: map<nat, Value>, es: seq<seq<u32>>)
    requires |slots| == |es|
    ensures FieldsFrom(schema, hash, slots, fields, |slots|, es)
  {
  }

  lemma NotKept(schema: Schema, slots: seq<Slot>, fields: map<nat, Value>, id: nat)
    requires !Live(slots, id) || id !in fields
    ensures !Kept(schema, slots, fields, id)
  {
  }

  lemma BlankNotKept(schema: Schema, slots: seq<Slot>, fields: map<nat, Value>, id: nat)
    requires Live(slots, id) && id in fields && Blank(schema, slots[id].ty, Norm(schema, slots[id].ty, fields[id]))
    ensures !Kept(schema, slots, fields, id)
  {
  }

  lemma RecordFaithful(schema: Schema, hash: Hash, name: Name, v: Value, es: seq<seq<u32>>, last: nat)
    requires name in schema && schema[name].Record? && v.VRecord? && RecordFits(es)
    requires FieldsFrom(schema, hash, schema[name].slots, v.fields, 0, es)
    requires (forall id :: 0 <= id < |es| ==> es[id] == []) ==> RecordWords(es, last) == [0]
    ensures Faithful(schema, hash, Message(name), v, RecordWords(es, last))
    ensures FieldsLeft(schema, schema[name].slots, v, RecordWords(es, last))
  {
    hide Payload, EncodedOrOverflown, RecordWords, DataSize, Trim, FieldsFrom, FieldsLeft, Weight;
    RecordBounded(schema, hash, name, v, es, last);
    NormFields(schema, hash, schema[name].slots, v, es);
    RecordOutcome(schema, hash, name, NormRecord(schema, schema[name].slots, v), es, last);
    NormOfRecord(schema, name, v);
    KeptFields(schema, hash, name, v, RecordWords(es, last));
  }

  lemma RecordBounded(schema: Schema, hash: Hash, name: Name, v: Value, es: seq<seq<u32>>, last: nat)
    requires name in schema && schema[name].Record? && v.VRecord? && Sections(|Trim(es)|) <= 0xff
    requires FieldsFrom(schema, hash, schema[name].slots, v.fields, 0, es)
    ensures |RecordWords(es, last)| <= Weight(schema, Message(name), v)
  {
    hide RecordWords, FieldsFrom, FieldWeights, Trim, FieldsWithin;
    FieldsBounded(schema, hash, schema[name].slots, v, es);
    RecordWithin(es, last, FieldWeights(schema, schema[name].slots, v));
  }

  lemma NormOfRecord(schema: Schema, name: Name, v: Value)
    requires name in schema && schema[name].Record? && v.VRecord?
    ensures Norm(schema, Message(name), v) == NormRecord(schema, schema[name].slots, v)
  {
  }

  lemma NormFields(schema: Schema, hash: Hash, slots: seq<Slot>, v: Value, es: seq<seq<u32>>)
    requires v.VRecord? && FieldsFrom(schema, hash, slots, v.fields, 0, es)
    ensures NormRecord(schema, slots, v).VRecord?
        && FieldOutcomes(schema, hash, slots, NormRecord(schema, slots, v), es)
    ensures NormRecord(schema, slots, v) == VRecord(map[]) ==> forall id :: 0 <= id < |es| ==> es[id] == []
  {
    hide EncodedOrOverflown, Blank, Norm, Weight;
    var fields := NormRecord(schema, slots, v).fields;
    forall id: nat ensures id in fields <==> Kept(schema, slots, v.fields, id)
      ensures id in fields ==> fields[id] == Norm(schema, slots[id].ty, v.fields[id]) {
    }
    forall id | id in fields
      ensures Live(slots, id) && EncodedOrOverflown(schema, hash, slots[id].ty, fields[id], es[id])
    {
      assert es[id] != [];
      assert Faithful(schema, hash, slots[id].ty, v.fields[id], es[id]);
    }
  }

  // ----- whole messages

  /** Serializes a message as the whole content of the buffer. */
  method SerializeDynamicMessage(schema: Schema, name: Name, v: Value, hash: Hash, clock: Clock, buffer: Buffer)
    returns (ok: bool)
    requires buffer.Valid()
    modifies buffer.Repr()
    ensures buffer.Valid() && fresh(buffer.Repr() - old(buffer.Repr()))
    ensures Accepted(schema, hash, clock, Message(name), v) ==> ok
    ensures ok ==> EncodedOrOverflown(schema, hash, Message(name), Norm(schema, Message(name), v), buffer.View())
    ensures ok && Countable(schema, Message(name), v) ==>
        EncodingOf(schema, hash, Message(name), Norm(schema, Message(name), v), buffer.View())
    ensures ok && name in schema && schema[name].Record? ==> FieldsLeft(schema, schema[name].slots, v, buffer.View())
  {
    hide EncodingOf, EncodedOrOverflown, Norm, Blank, Countable, FieldsLeft, Buffer.View;
    buffer.Clear();
    ghost var empty := buffer.View();
    var unit;
    ghost var words;
    unit, words := EncodeMessage(schema, name, v, hash, clock, buffer);
    if unit.None? {
      return false;
    }
    if !unit.value.IsSegment() {
      buffer.Clear();
      buffer.PutWords(unit.value.inlineWords);
    }
    assert words + [] == words;
    assert buffer.View() == words;
    if name in schema && schema[name].Record? { KeptFields(schema, hash, name, v, words); }
    if Countable(schema, Message(name), v) {
      CountableNorm(schema, Message(name), v);
      CountableEncodes(schema, hash, Message(name), Norm(schema, Message(name), v), words);
    }
    ok := true;
  }

  /** What the encoding of a whole tree means: in any place, it reads as the tree and its extent is
      found; for a tidy tree nothing is lost. */
  lemma TreeRoundTrip(schema: Schema, hash: Hash, name: Name, v: Value, words: seq<u32>, suffix: seq<u32>)
    requires EncodingOf(schema, hash, Message(name), Norm(schema, Message(name), v), words)
    ensures ReadObject(schema, Message(name), words + suffix) == Some(Norm(schema, Message(name), v))
    ensures DetectObject(schema, Message(name), words + suffix) == Some(|words|)
    ensures Tidy(schema, Message(name), v) ==> ReadObject(schema, Message(name), words + suffix) == Some(v)
  {
    hide ReadObject, DetectObject, Norm, Tidy, EncodingOf;
    FormatReads(schema, hash, Message(name), Norm(schema, Message(name), v), words);
    if Tidy(schema, Message(name), v) { NormTidy(schema, Message(name), v); }
    assert words + suffix == words + suffix;
  }
}
