/** Encodings in which the count in front of some section has passed its 14 bits: laid out like any
    other, but with fields that are read from the wrong cell. */
module Overflows {
  import opened Bits
  import opened PerfectHash
  import C = Containers
  import opened MapContainers
  import opened Cells
  import opened ContainerReading
  import opened Views
  import opened Messages
  import opened Records
  import opened Schemas
  import opened TreeReading
  import opened MapKeys
  import opened WireFormat
  import opened Counting

  ghost predicate AllTrue(fs: seq<bool>) {
    forall i :: 0 <= i < |fs| ==> fs[i]
  }

  /** The words are the layout of the value; `fits` says whether the running cell count of every
      message in it stays below 2^14 at every section. */
  ghost predicate Laid(schema: Schema, hash: Hash, ty: Type, v: Value, words: seq<u32>, fits: bool)
    decreases v, 2
  {
    match (ItemType(schema, ty), EntryType(schema, ty), RecordSlots(schema, ty))
    case (Some(item), _, _) => LaidList(schema, hash, item, v, words, fits)
    case (_, Some(entry), _) => LaidMap(schema, hash, entry.0, entry.1, v, words, fits)
    case (_, _, Some(slots)) => LaidRecord(schema, hash, slots, v, words, fits)
    case _ => fits && EncodingOf(schema, hash, ty, v, words)
  }

  ghost predicate LaidList(schema: Schema, hash: Hash, item: Type, v: Value, words: seq<u32>, fits: bool)
    decreases v, 1
  {
    && v.VList?
    && if item.Bool? || v.items == [] then fits && ListEncoding(schema, hash, item, v, words)
       else exists es, fs {:trigger LaidItems(schema, hash, item, v, es, fs)} ::
              && LaidItems(schema, hash, item, v, es, fs)
              && ArrayFits(es) && words == C.ArrayWords(es) && (fits <==> AllTrue(fs))
  }

  ghost predicate LaidItems(schema: Schema, hash: Hash, item: Type, v: Value, es: seq<seq<u32>>, fs: seq<bool>)
    requires v.VList?
    decreases v, 0
  {
    && |es| == |fs| == |v.items|
    && forall i {:trigger es[i]} :: 0 <= i < |es| ==> Laid(schema, hash, item, v.items[i], es[i], fs[i])
  }

  ghost predicate LaidMap(schema: Schema, hash: Hash, kt: KeyType, vt: Type, v: Value, words: seq<u32>, fits: bool)
    decreases v, 1
  {
    && v.VMap?
    && if v.entries == map[] then fits && words == EMPTY_MAP
       else exists l, fs {:trigger LaidEntries(schema, hash, vt, v, l, fs), LayoutOf(l, hash, kt, v.entries)} ::
              && LayoutOf(l, hash, kt, v.entries) && LaidEntries(schema, hash, vt, v, l, fs)
              && words == MapWords(l.index, l.ks, l.es) && (fits <==> AllTrue(fs))
  }

  ghost predicate LaidEntries(schema: Schema, hash: Hash, vt: Type, v: Value, l: MapLayout, fs: seq<bool>)
    requires v.VMap? && ListsKeys(l.ordered, v.entries)
    decreases v, 0
  {
    && |l.es| == |fs| == |l.ordered|
    && forall i :: 0 <= i < |fs| ==> Laid(schema, hash, vt, v.entries[l.ordered[i]], l.es[i], fs[i])
  }

  ghost predicate LaidRecord(schema: Schema, hash: Hash, slots: seq<Slot>, v: Value, words: seq<u32>, fits: bool)
    decreases v, 1
  {
    && v.VRecord?
    && exists es, last, fs {:trigger LaidFields(schema, hash, slots, v, es, fs), CountsFit(es, last)} ::
         && LaidFields(schema, hash, slots, v, es, fs)
         && RecordFits(es) && words == RecordWords(es, last) && (fits <==> CountsFit(es, last) && AllTrue(fs))
  }

  ghost predicate LaidFields(schema: Schema, hash: Hash, slots: seq<Slot>, v: Value, es: seq<seq<u32>>, fs: seq<bool>)
    requires v.VRecord?
    decreases v, 0
  {
    && |es| == |fs| == |slots|
    && (forall id {:trigger es[id]} :: 0 <= id < |es| ==> (es[id] != [] <==> id in v.fields))
    && (forall id :: 0 <= id < |fs| && id !in v.fields ==> fs[id])
    && (forall id :: id in v.fields ==>
        Live(slots, id) && Laid(schema, hash, slots[id].ty, v.fields[id], es[id], fs[id]))
  }

  /** The layout of the value, but the cell count in front of some section has overflowed. */
  ghost predicate Overflows(schema: Schema, hash: Hash, ty: Type, v: Value, words: seq<u32>) {
    Laid(schema, hash, ty, v, words, false)
  }

  /** What an encoder can leave: an encoding, unless an actual count overflowed. */
  ghost predicate EncodedOrOverflown(schema: Schema, hash: Hash, ty: Type, v: Value, words: seq<u32>) {
    EncodingOf(schema, hash, ty, v, words) || Overflows(schema, hash, ty, v, words)
  }

  /** Exactly the fields of the value are present in the words, overflown or not. */
  lemma OutcomePresence(schema: Schema, hash: Hash, name: Name, v: Value, words: seq<u32>, suffix: seq<u32>, id: nat)
    requires name in schema && schema[name].Record? && EncodedOrOverflown(schema, hash, Message(name), v, words)
    ensures v.VRecord? && (FieldIn(words + suffix, id).Some? <==> id in v.fields)
  {
    hide EncodingOf, Laid, LaidRecord, RecordWords, Trim, FieldIn, EncodedOrOverflown;
    var fits := Fits(schema, hash, Message(name), v, words);
    RecordIsLaid(schema, hash, name, v, words, fits);
    var es, last := RecordParts(schema, hash, schema[name].slots, v, words, fits);
    RecordPresence(es, last, suffix, id);
  }

  lemma RecordParts(schema: Schema, hash: Hash, slots: seq<Slot>, v: Value, words: seq<u32>, fits: bool)
    returns (es: seq<seq<u32>>, last: nat)
    requires LaidRecord(schema, hash, slots, v, words, fits)
    ensures Sections(|Trim(es)|) <= 0xff && words == RecordWords(es, last) && v.VRecord?
    ensures forall id: nat :: id in v.fields <==> id < |es| && es[id] != []
  {
    hide Laid, RecordWords, Trim, CountsFit, DataSize;
    var fs;
    es, last, fs :| LaidFields(schema, hash, slots, v, es, fs) && RecordFits(es) && words == RecordWords(es, last)
      && (fits <==> CountsFit(es, last) && AllTrue(fs));
  }

  lemma RecordIsLaid(schema: Schema, hash: Hash, name: Name, v: Value, words: seq<u32>, fits: bool)
    requires name in schema && schema[name].Record? && Laid(schema, hash, Message(name), v, words, fits)
    ensures LaidRecord(schema, hash, schema[name].slots, v, words, fits)
  {
    hide LaidList, LaidMap, LaidRecord, EncodingOf;
  }

  // ----- encodings are the layouts in which all counts fit

  lemma ShapeEncodes(schema: Schema, hash: Hash, ty: Type, v: Value, words: seq<u32>)
    ensures ItemType(schema, ty).Some? ==>
              (EncodingOf(schema, hash, ty, v, words) <==>
                  ListEncoding(schema, hash, ItemType(schema, ty).value, v, words))
    ensures EntryType(schema, ty).Some? ==>
              (EncodingOf(schema, hash, ty, v, words) <==>
                  MapEncoding(schema, hash, EntryType(schema, ty).value.0, EntryType(schema, ty).value.1, v, words))
    ensures RecordSlots(schema, ty).Some? ==>
              (EncodingOf(schema, hash, ty, v, words) <==>
                  RecordEncoding(schema, hash, RecordSlots(schema, ty).value, v, words))
  {
    hide ListEncoding, MapEncoding, RecordEncoding;
  }

  /** A layout in which every count fits is an encoding. */
  lemma {:induction false} LaidEncodes(schema: Schema, hash: Hash, ty: Type, v: Value, words: seq<u32>)
    requires Laid(schema, hash, ty, v, words, true)
    ensures EncodingOf(schema, hash, ty, v, words)
    decreases v, 2
  {
    hide LaidList, LaidMap, LaidRecord, EncodingOf;
    ShapeEncodes(schema, hash, ty, v, words);
    if ItemType(schema, ty).Some? {
      LaidListEncodes(schema, hash, ItemType(schema, ty).value, v, words);
    } else if EntryType(schema, ty).Some? {
      LaidMapEncodes(schema, hash, EntryType(schema, ty).value.0, EntryType(schema, ty).value.1, v, words);
    } else if RecordSlots(schema, ty).Some? {
      LaidRecordEncodes(schema, hash, RecordSlots(schema, ty).value, v, words);
    }
  }

  lemma {:induction false} LaidListEncodes(schema: Schema, hash: Hash, item: Type, v: Value, words: seq<u32>)
    requires LaidList(schema, hash, item, v, words, true)
    ensures ListEncoding(schema, hash, item, v, words)
    decreases v, 1
  {
    hide Laid, EncodingOf, C.ArrayWords, Cost, BestWidth;
    if !item.Bool? && v.items != [] {
      var es, fs :| LaidItems(schema, hash, item, v, es, fs) && ArrayFits(es) && words == C.ArrayWords(es)
          && AllTrue(fs);
      forall i | 0 <= i < |es| ensures EncodingOf(schema, hash, item, v.items[i], es[i]) {
        assert Laid(schema, hash, item, v.items[i], es[i], fs[i]);
        LaidEncodes(schema, hash, item, v.items[i], es[i]);
      }
      assert ElementsOf(schema, hash, item, v, es);
    }
  }

  lemma LaidMapParts(schema: Schema, hash: Hash, kt: KeyType, vt: Type, v: Value, words: seq<u32>, fits: bool)
    returns (l: MapLayout, fs: seq<bool>)
    requires LaidMap(schema, hash, kt, vt, v, words, fits) && v.entries != map[]
    ensures LayoutOf(l, hash, kt, v.entries) && LaidEntries(schema, hash, vt, v, l, fs) && (fits <==> AllTrue(fs))
    ensures |l.index| >= 4 && |l.ks| == |l.es| && words == MapWords(l.index, l.ks, l.es)
  {
    hide Laid, MapWords, IndexFor, MapSized, EncodesKey, Arranged, ListsKeys, AllTrue;
    l, fs :| LayoutOf(l, hash, kt, v.entries) && LaidEntries(schema, hash, vt, v, l, fs)
      && words == MapWords(l.index, l.ks, l.es) && (fits <==> AllTrue(fs));
  }

  lemma {:induction false} LaidMapEncodes(schema: Schema, hash: Hash, kt: KeyType, vt: Type, v: Value, words: seq<u32>)
    requires LaidMap(schema, hash, kt, vt, v, words, true)
    ensures MapEncoding(schema, hash, kt, vt, v, words)
    decreases v, 1
  {
    hide Laid, LaidMap, EncodingOf, MapWords, LayoutOf, ListsKeys;
    EmptyOrLaid(schema, hash, kt, vt, v, words, true);
    if v.entries != map[] {
      var l, fs := LaidMapParts(schema, hash, kt, vt, v, words, true);
      LayoutLists(l, hash, kt, v.entries);
      ListedIn(l.ordered, v.entries);
      forall i | 0 <= i < |l.es| ensures EncodingOf(schema, hash, vt, v.entries[l.ordered[i]], l.es[i]) {
        LaidEncodes(schema, hash, vt, v.entries[l.ordered[i]], l.es[i]);
      }
      assert EntriesOf(schema, hash, vt, v, l.ordered, l.es);
    }
  }

  lemma EmptyOrLaid(schema: Schema, hash: Hash, kt: KeyType, vt: Type, v: Value, words: seq<u32>, fits: bool)
    requires LaidMap(schema, hash, kt, vt, v, words, fits)
    ensures v.VMap? && (v.entries == map[] ==> fits && words == EMPTY_MAP)
  {
    hide Laid, MapWords, LayoutOf;
  }

  lemma {:induction false} LaidRecordEncodes(schema: Schema, hash: Hash, slots: seq<Slot>, v: Value, words: seq<u32>)
    requires LaidRecord(schema, hash, slots, v, words, true)
    ensures RecordEncoding(schema, hash, slots, v, words)
    decreases v, 1
  {
    hide Laid, EncodingOf, RecordWords, CountsFit, DataSize, Trim;
    var es, last, fs :| LaidFields(schema, hash, slots, v, es, fs)
      && RecordFits(es) && words == RecordWords(es, last) && CountsFit(es, last) && AllTrue(fs);
    forall id | id in v.fields ensures EncodingOf(schema, hash, slots[id].ty, v.fields[id], es[id]) {
      LaidEncodes(schema, hash, slots[id].ty, v.fields[id], es[id]);
    }
    assert FieldsOf(schema, hash, slots, v, es);
  }

  /** An encoding is a layout in which every count fits. */
  lemma {:induction false} EncodingLaid(schema: Schema, hash: Hash, ty: Type, v: Value, words: seq<u32>)
    requires EncodingOf(schema, hash, ty, v, words)
    ensures Laid(schema, hash, ty, v, words, true)
    decreases v, 2
  {
    hide ListEncoding, MapEncoding, RecordEncoding, LaidList, LaidMap, LaidRecord;
    ShapeEncodes(schema, hash, ty, v, words);
    if ItemType(schema, ty).Some? {
      EncodedListLaid(schema, hash, ItemType(schema, ty).value, v, words);
    } else if EntryType(schema, ty).Some? {
      EncodedMapLaid(schema, hash, EntryType(schema, ty).value.0, EntryType(schema, ty).value.1, v, words);
    } else if RecordSlots(schema, ty).Some? {
      EncodedRecordLaid(schema, hash, RecordSlots(schema, ty).value, v, words);
    }
  }

  lemma {:induction false} EncodedListLaid(schema: Schema, hash: Hash, item: Type, v: Value, words: seq<u32>)
    requires ListEncoding(schema, hash, item, v, words)
    ensures LaidList(schema, hash, item, v, words, true)
    decreases v, 1
  {
    hide Laid, EncodingOf, C.ArrayWords, Cost, BestWidth;
    if !item.Bool? && v.items != [] {
      var es :| ElementsOf(schema, hash, item, v, es) && ArrayFits(es) && words == C.ArrayWords(es);
      var fs := seq(|es|, _ => true);
      forall i | 0 <= i < |es| ensures Laid(schema, hash, item, v.items[i], es[i], fs[i]) {
        EncodingLaid(schema, hash, item, v.items[i], es[i]);
      }
      assert LaidItems(schema, hash, item, v, es, fs);
    }
  }

  lemma {:induction false} EncodedMapLaid(schema: Schema, hash: Hash, kt: KeyType, vt: Type, v: Value, words: seq<u32>)
    requires MapEncoding(schema, hash, kt, vt, v, words)
    ensures LaidMap(schema, hash, kt, vt, v, words, true)
    decreases v, 1
  {
    hide Laid, EncodingOf, MapWords, LayoutOf;
    if v.entries != map[] {
      var l := LayoutExists(schema, hash, kt, vt, v, words);
      LayoutLists(l, hash, kt, v.entries);
      var fs := seq(|l.es|, _ => true);
      forall i | 0 <= i < |l.es| ensures Laid(schema, hash, vt, v.entries[l.ordered[i]], l.es[i], fs[i]) {
        assert EncodingOf(schema, hash, vt, v.entries[l.ordered[i]], l.es[i]);
        EncodingLaid(schema, hash, vt, v.entries[l.ordered[i]], l.es[i]);
      }
      assert LaidEntries(schema, hash, vt, v, l, fs);
    }
  }

  lemma LayoutLists(l: MapLayout, hash: Hash, kt: KeyType, entries: map<Key, Value>)
    requires LayoutOf(l, hash, kt, entries)
    ensures ListsKeys(l.ordered, entries) && |l.ordered| == |l.es| == |l.ks| && |l.index| >= 4
  {
  }

  lemma {:induction false} EncodedRecordLaid(schema: Schema, hash: Hash, slots: seq<Slot>, v: Value, words: seq<u32>)
    requires RecordEncoding(schema, hash, slots, v, words)
    ensures LaidRecord(schema, hash, slots, v, words, true)
    decreases v, 1
  {
    hide Laid, EncodingOf, RecordWords, CountsFit, DataSize, Trim;
    var es, last :| FieldsOf(schema, hash, slots, v, es) && RecordFits(es) && CountsFit(es, last)
      && words == RecordWords(es, last);
    var fs := seq(|es|, _ => true);
    forall id | id in v.fields ensures Laid(schema, hash, slots[id].ty, v.fields[id], es[id], fs[id]) {
      EncodingLaid(schema, hash, slots[id].ty, v.fields[id], es[id]);
    }
    assert LaidFields(schema, hash, slots, v, es, fs);
  }

  // ----- containers

  ghost function Fits(schema: Schema, hash: Hash, ty: Type, v: Value, words: seq<u32>): (fits: bool)
    requires EncodedOrOverflown(schema, hash, ty, v, words)
    ensures Laid(schema, hash, ty, v, words, fits) && (fits <==> EncodingOf(schema, hash, ty, v, words))
  {
    hide EncodingOf, Laid;
    if EncodingOf(schema, hash, ty, v, words) then EncodingLaid(schema, hash, ty, v, words); true else false
  }

  /** An array of elements is an encoding unless one of them overflowed. */
  lemma ListOutcome(schema: Schema, hash: Hash, item: Type, v: Value, es: seq<seq<u32>>)
    requires !item.Bool? && v.VList? && v.items != [] && |es| == |v.items| && ArrayFits(es)
    requires forall i {:trigger es[i]} :: 0 <= i < |es| ==> EncodedOrOverflown(schema, hash, item, v.items[i], es[i])
    ensures EncodedOrOverflown(schema, hash, List(item), v, C.ArrayWords(es))
  {
    hide EncodingOf, Laid, C.ArrayWords, Cost, BestWidth, EncodedOrOverflown;
    forall i | 0 <= i < |es| ensures EncodedOrOverflown(schema, hash, item, v.items[i], es[i]) {
      assert es[i] == es[i];
    }
    var fs := seq(|es|, i requires 0 <= i < |es| && EncodedOrOverflown(schema, hash, item, v.items[i], es[i]) =>
                          Fits(schema, hash, item, v.items[i], es[i]));
    assert LaidItems(schema, hash, item, v, es, fs);
    assert LaidList(schema, hash, item, v, C.ArrayWords(es), AllTrue(fs));
    AsLaid(schema, hash, List(item), v, C.ArrayWords(es), AllTrue(fs));
    OutcomeOf(schema, hash, List(item), v, C.ArrayWords(es), AllTrue(fs));
  }

  lemma AsLaid(schema: Schema, hash: Hash, ty: Type, v: Value, words: seq<u32>, fits: bool)
    requires ItemType(schema, ty).Some? ==> LaidList(schema, hash, ItemType(schema, ty).value, v, words, fits)
    requires EntryType(schema, ty).Some? ==>
               LaidMap(schema, hash, EntryType(schema, ty).value.0, EntryType(schema, ty).value.1, v, words, fits)
    requires RecordSlots(schema, ty).Some? ==> LaidRecord(schema, hash, RecordSlots(schema, ty).value, v, words, fits)
    requires !IsScalar(ty) && !ty.Text? && (ty.Message? ==> ty.name in schema)
    ensures Laid(schema, hash, ty, v, words, fits)
  {
    hide LaidList, LaidMap, LaidRecord;
  }

  lemma OutcomeOf(schema: Schema, hash: Hash, ty: Type, v: Value, words: seq<u32>, fits: bool)
    requires Laid(schema, hash, ty, v, words, fits)
    ensures EncodedOrOverflown(schema, hash, ty, v, words) && (fits ==> EncodingOf(schema, hash, ty, v, words))
  {
    hide EncodingOf, Laid;
    if fits { LaidEncodes(schema, hash, ty, v, words); }
  }

  ghost predicate EntryOutcomes(schema: Schema, hash: Hash, vt: Type, v: Value, l: MapLayout)
    requires v.VMap? && ListsKeys(l.ordered, v.entries)
  {
    && |l.es| == |l.ordered|
    && forall i :: 0 <= i < |l.ordered| ==> EncodedOrOverflown(schema, hash, vt, v.entries[l.ordered[i]], l.es[i])
  }

  lemma EntryFits(schema: Schema, hash: Hash, vt: Type, v: Value, l: MapLayout) returns (fs: seq<bool>)
    requires v.VMap? && ListsKeys(l.ordered, v.entries) && EntryOutcomes(schema, hash, vt, v, l)
    ensures LaidEntries(schema, hash, vt, v, l, fs)
  {
    hide EncodingOf, Laid, EncodedOrOverflown, ListsKeys;
    ListedIn(l.ordered, v.entries);
    var es := l.es;
    fs := seq(|es|, i requires 0 <= i < |es| && EncodedOrOverflown(schema, hash, vt, v.entries[l.ordered[i]], es[i]) =>
                      Fits(schema, hash, vt, v.entries[l.ordered[i]], es[i]));
  }

  lemma ListedIn(ordered: seq<Key>, entries: map<Key, Value>)
    requires ListsKeys(ordered, entries)
    ensures forall i :: 0 <= i < |ordered| ==> ordered[i] in entries
  {
  }

  lemma MapIsLaid(schema: Schema, hash: Hash, kt: KeyType, vt: Type, v: Value, l: MapLayout, fs: seq<bool>)
    requires v.VMap? && LayoutOf(l, hash, kt, v.entries) && l.ordered != [] && LaidEntries(schema, hash, vt, v, l, fs)
    ensures LaidMap(schema, hash, kt, vt, v, MapWords(l.index, l.ks, l.es), AllTrue(fs))
  {
    hide Laid, MapWords, LayoutOf, LaidEntries, ListsKeys, AllTrue;
    LayoutLists(l, hash, kt, v.entries);
    ListedIn(l.ordered, v.entries);
    assert l.ordered[0] in v.entries;
  }

  /** A map is an encoding unless one of its entries overflowed. */
  lemma MapOutcome(schema: Schema, hash: Hash, kt: KeyType, vt: Type, v: Value, l: MapLayout)
    requires v.VMap? && LayoutOf(l, hash, kt, v.entries) && l.ordered != [] && EntryOutcomes(schema, hash, vt, v, l)
    ensures EncodedOrOverflown(schema, hash, Map(kt, vt), v, MapWords(l.index, l.ks, l.es))
  {
    hide EncodingOf, Laid, LaidMap, MapWords, EncodedOrOverflown, LayoutOf, EntryOutcomes, LaidEntries, ListsKeys,
         AllTrue;
    LayoutLists(l, hash, kt, v.entries);
    var fs := EntryFits(schema, hash, vt, v, l);
    var words := MapWords(l.index, l.ks, l.es);
    MapIsLaid(schema, hash, kt, vt, v, l, fs);
    AsLaid(schema, hash, Map(kt, vt), v, words, AllTrue(fs));
    OutcomeOf(schema, hash, Map(kt, vt), v, words, AllTrue(fs));
  }

  ghost predicate FieldOutcomes(schema: Schema, hash: Hash, slots: seq<Slot>, v: Value, es: seq<seq<u32>>)
    requires v.VRecord?
  {
    && |es| == |slots|
    && (forall id {:trigger es[id]} :: 0 <= id < |es| ==> (es[id] != [] <==> id in v.fields))
    && (forall id :: id in v.fields ==>
          Live(slots, id) && EncodedOrOverflown(schema, hash, slots[id].ty, v.fields[id], es[id]))
  }

  /** A record is an encoding unless one of its fields, or its own running count, overflowed. */
  lemma RecordOutcome(schema: Schema, hash: Hash, name: Name, v: Value, es: seq<seq<u32>>, last: nat)
    requires name in schema && schema[name].Record? && v.VRecord? && RecordFits(es)
    requires FieldOutcomes(schema, hash, schema[name].slots, v, es)
    ensures Sections(|Trim(es)|) <= 0xff
    ensures EncodedOrOverflown(schema, hash, Message(name), v, RecordWords(es, last))
  {
    hide EncodingOf, Laid, RecordWords, CountsFit, DataSize, Trim, EncodedOrOverflown;
    var slots := schema[name].slots;
    var fs := seq(|es|, id requires 0 <= id < |es| =>
                    if id in v.fields && EncodedOrOverflown(schema, hash, slots[id].ty, v.fields[id], es[id])
                    then Fits(schema, hash, slots[id].ty, v.fields[id], es[id]) else true);
    var fits := CountsFit(es, last) && AllTrue(fs);
    assert LaidFields(schema, hash, slots, v, es, fs);
    assert LaidRecord(schema, hash, slots, v, RecordWords(es, last), fits);
    AsLaid(schema, hash, Message(name), v, RecordWords(es, last), fits);
    OutcomeOf(schema, hash, Message(name), v, RecordWords(es, last), fits);
  }

  // ----- what overflows is long

  /** Strings and scalars never overflow, and what does takes at least two words. */
  lemma OverflowLength(schema: Schema, hash: Hash, ty: Type, v: Value, words: seq<u32>)
    requires Overflows(schema, hash, ty, v, words)
    ensures |words| >= 2 && !IsScalar(ty) && !ty.Text?
  {
    hide LaidList, LaidMap, LaidRecord, EncodingOf;
    if ItemType(schema, ty).Some? {
      LongList(schema, hash, ItemType(schema, ty).value, v, words);
    } else if EntryType(schema, ty).Some? {
      LongMap(schema, hash, EntryType(schema, ty).value.0, EntryType(schema, ty).value.1, v, words);
    } else {
      LongRecord(schema, hash, RecordSlots(schema, ty).value, v, words);
    }
  }

  lemma LongList(schema: Schema, hash: Hash, item: Type, v: Value, words: seq<u32>)
    requires LaidList(schema, hash, item, v, words, false)
    ensures |words| >= 2
  {
    hide Laid, C.ArrayWords, Cost, BestWidth, ListEncoding;
    var es, fs :| LaidItems(schema, hash, item, v, es, fs) && ArrayFits(es) && words == C.ArrayWords(es);
    ArrayTag(es);
  }

  lemma LongMap(schema: Schema, hash: Hash, kt: KeyType, vt: Type, v: Value, words: seq<u32>)
    requires LaidMap(schema, hash, kt, vt, v, words, false)
    ensures |words| >= 2
  {
    hide Laid, MapWords, IndexFor, MapSized, EncodesKey, Arranged;
    var l, fs :| LayoutOf(l, hash, kt, v.entries) && LaidEntries(schema, hash, vt, v, l, fs)
      && words == MapWords(l.index, l.ks, l.es) && !AllTrue(fs);
    MapTag(hash, l.keyBytes, l.index, l.positions, l.ks, l.es);
  }

  lemma LongRecord(schema: Schema, hash: Hash, slots: seq<Slot>, v: Value, words: seq<u32>)
    requires LaidRecord(schema, hash, slots, v, words, false)
    ensures |words| >= 2
  {
    hide Laid, RecordWords, DataSize, Trim;
    var es, last, fs :| LaidFields(schema, hash, slots, v, es, fs)
      && RecordFits(es) && words == RecordWords(es, last) && !(CountsFit(es, last) && AllTrue(fs));
    SomethingPresent(schema, hash, slots, v, es, last, fs);
    HasBody(es, last);
  }

  lemma SomethingPresent(schema: Schema, hash: Hash, slots: seq<Slot>, v: Value, es: seq<seq<u32>>, last: nat,
                         fs: seq<bool>)
    requires v.VRecord? && LaidFields(schema, hash, slots, v, es, fs) && !(CountsFit(es, last) && AllTrue(fs))
    ensures Trim(es) != []
  {
    hide Laid, Trim;
    if !AllTrue(fs) {
      var id :| 0 <= id < |fs| && !fs[id];
      assert es[id] != [];
      InTrim(es, id);
    }
  }

  // ----- countable values never overflow

  lemma {:induction false} CountableFits(schema: Schema, hash: Hash, ty: Type, v: Value, words: seq<u32>, fits: bool)
    requires Laid(schema, hash, ty, v, words, fits) && Countable(schema, ty, v)
    ensures fits
    decreases v, 2
  {
    hide LaidList, LaidMap, LaidRecord, EncodingOf, Roomy;
    if ItemType(schema, ty).Some? {
      LaidListFits(schema, hash, ItemType(schema, ty).value, v, words, fits);
    } else if EntryType(schema, ty).Some? {
      LaidMapFits(schema, hash, EntryType(schema, ty).value.0, EntryType(schema, ty).value.1, v, words, fits);
    } else if RecordSlots(schema, ty).Some? {
      LaidRecordFits(schema, hash, RecordSlots(schema, ty).value, v, words, fits);
    }
  }

  lemma {:induction false} LaidListFits(schema: Schema, hash: Hash, item: Type, v: Value, words: seq<u32>, fits: bool)
    requires LaidList(schema, hash, item, v, words, fits)
    requires v.VList? ==> forall i :: 0 <= i < |v.items| ==> Countable(schema, item, v.items[i])
    ensures fits
    decreases v, 1
  {
    hide Laid, C.ArrayWords, Cost, BestWidth, ListEncoding, Countable;
    if !item.Bool? && v.items != [] {
      var es, fs :| LaidItems(schema, hash, item, v, es, fs) && ArrayFits(es) && words == C.ArrayWords(es)
        && (fits <==> AllTrue(fs));
      forall i | 0 <= i < |fs| ensures fs[i] {
        assert Laid(schema, hash, item, v.items[i], es[i], fs[i]);
        CountableFits(schema, hash, item, v.items[i], es[i], fs[i]);
      }
    }
  }

  lemma {:induction false} LaidMapFits(schema: Schema, hash: Hash, kt: KeyType, vt: Type, v: Value, words: seq<u32>,
                                       fits: bool)
    requires LaidMap(schema, hash, kt, vt, v, words, fits)
    requires v.VMap? ==> forall key :: key in v.entries ==> Countable(schema, vt, v.entries[key])
    ensures fits
    decreases v, 1
  {
    hide Laid, MapWords, IndexFor, MapSized, EncodesKey, Arranged, Countable;
    if v.entries != map[] {
      var l, fs :| LayoutOf(l, hash, kt, v.entries) && LaidEntries(schema, hash, vt, v, l, fs)
        && words == MapWords(l.index, l.ks, l.es) && (fits <==> AllTrue(fs));
      forall i | 0 <= i < |fs| ensures fs[i] {
        assert l.ordered[i] in l.ordered;
        CountableFits(schema, hash, vt, v.entries[l.ordered[i]], l.es[i], fs[i]);
      }
    }
  }

  lemma {:induction false} LaidRecordFits(schema: Schema, hash: Hash, slots: seq<Slot>, v: Value, words: seq<u32>,
                                          fits: bool)
    requires LaidRecord(schema, hash, slots, v, words, fits)
    requires v.VRecord? ==>
               && Roomy(slots, LiveFields(slots, v.fields))
               && forall id :: id in v.fields && Live(slots, id) ==> Countable(schema, slots[id].ty, v.fields[id])
    ensures fits
    decreases v, 1
  {
    hide Laid, RecordWords, CountsFit, DataSize, Trim, Countable, Roomy;
    var es, last, fs :| LaidFields(schema, hash, slots, v, es, fs)
      && RecordFits(es) && words == RecordWords(es, last) && (fits <==> CountsFit(es, last) && AllTrue(fs));
    forall id | 0 <= id < |fs| ensures fs[id] {
      if id in v.fields { CountableFits(schema, hash, slots[id].ty, v.fields[id], es[id], fs[id]); }
    }
    LaidCells(schema, hash, slots, v, es, fs);
    RoomyFits(slots, LiveFields(slots, v.fields), es, last);
  }

  lemma LaidCells(schema: Schema, hash: Hash, slots: seq<Slot>, v: Value, es: seq<seq<u32>>, fs: seq<bool>)
    requires v.VRecord? && LaidFields(schema, hash, slots, v, es, fs)
    ensures CellsOfTypes(slots, LiveFields(slots, v.fields), es)
  {
    hide Laid;
    forall id | 0 <= id < |es| && es[id] != []
      ensures id in LiveFields(slots, v.fields) && Live(slots, id)
          && (IsScalar(slots[id].ty) ==> |es[id]| == CellWidth(slots, id))
    {
      if IsScalar(slots[id].ty) { ScalarCell(schema, hash, slots[id].ty, v.fields[id], es[id], fs[id]); }
    }
  }

  lemma ScalarCell(schema: Schema, hash: Hash, ty: Type, v: Value, e: seq<u32>, fits: bool)
    requires Laid(schema, hash, ty, v, e, fits) && IsScalar(ty)
    ensures |e| == if ty.Bool? then 1 else ty.width
  {
  }

  /** A countable value that is laid out is encoded. */
  lemma CountableEncodes(schema: Schema, hash: Hash, ty: Type, v: Value, words: seq<u32>)
    requires EncodedOrOverflown(schema, hash, ty, v, words) && Countable(schema, ty, v)
    ensures EncodingOf(schema, hash, ty, v, words)
  {
    hide EncodingOf, Laid, Countable;
    if Overflows(schema, hash, ty, v, words) { CountableFits(schema, hash, ty, v, words, false); }
  }
}
