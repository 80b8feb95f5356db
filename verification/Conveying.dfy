/** Words that convey a value: whatever follows them, every reader sees the value in them and
    detection finds exactly these words. Nothing is said of how the cells are laid out, so words that
    carry spare words behind their payloads convey values too. */
module Conveying {
  import opened Bits
  import opened Wrappers
  import opened Peeling
  import opened Packing
  import opened Strings
  import opened Cells
  import opened PerfectHash
  import opened Views
  import C = Containers
  import opened MapContainers
  import opened ContainerReading
  import opened Extents
  import opened Messages
  import opened Records
  import opened Schemas
  import opened TreeReading
  import opened MapKeys
  import opened Lookup
  import opened WireFormat
  import opened Cores

  /** The cells of an array start with these words. */
  ghost predicate ArrayOver(item: Type, cs: seq<seq<u32>>, words: seq<u32>) {
    && NewArray(words).Some? && NewArray(words).value.len == |cs|
    && (item.Scalar? ==> NewArray(words).value.width == item.width)
    && forall i {:trigger cs[i]} :: 0 <= i < |cs| ==> StartsWith(ArrayCell(words, i), cs[i], IsScalar(item))
  }

  ghost predicate FindsKeys(kt: KeyType, ordered: seq<Key>, hash: Hash, view: MapView) {
    forall key {:trigger Find(view, hash, key)} :: MatchesKey(kt, key) ==>
      match Find(view, hash, key)
      case Some(p) => p < |ordered| && ordered[p] == key
      case None => key !in ordered
  }

  /** The keys of a map read in this order, lookup finds them and no other, and the cells of the
      values start with these words. */
  ghost predicate MapOver(hash: Hash, kt: KeyType, vt: Type, ordered: seq<Key>, cs: seq<seq<u32>>, words: seq<u32>) {
    && NewMap(words).Some? && NewMap(words).value.index.len == |ordered| == |cs|
    && (forall i {:trigger ordered[i]} :: 0 <= i < |ordered| ==> ReadKey(kt, MapCell(words, 2 * i)) == Some(ordered[i]))
    && (forall i {:trigger cs[i]} :: 0 <= i < |cs| ==> StartsWith(MapCell(words, 2 * i + 1), cs[i], IsScalar(vt)))
    && FindsKeys(kt, ordered, hash, NewMap(words).value)
  }

  /** Exactly these live fields are present, and their cells start with these words. */
  ghost predicate RecordOver(slots: seq<Slot>, cs: map<nat, seq<u32>>, words: seq<u32>) {
    && IsMessage(words)
    && forall id: nat {:trigger FieldIn(words, id)} :: Live(slots, id) ==>
         && (FieldIn(words, id).Some? <==> id in cs)
         && (id in cs ==> StartsWith(FieldIn(words, id).value, cs[id], IsScalar(slots[id].ty)))
  }

  ghost predicate Conveys(schema: Schema, hash: Hash, ty: Type, v: Value, words: seq<u32>)
    decreases v, 2
  {
    match ty
    case Bool => v.VBool? && words == [if v.b then 1 else 0]
    case Scalar(width) => |words| == width && v == VNum(words)
    case Text => v.VBytes? && |v.bytes| < MAX_LEN && words == StringWords(v.bytes)
    case _ => NotAPointer(words) && Extends(schema, ty, words) && ConveysObject(schema, hash, ty, v, words)
  }

  ghost predicate ConveysObject(schema: Schema, hash: Hash, ty: Type, v: Value, words: seq<u32>)
    decreases v, 1
  {
    match (ItemType(schema, ty), EntryType(schema, ty), RecordSlots(schema, ty))
    case (Some(item), _, _) => ConveysList(schema, hash, item, v, words)
    case (_, Some(entry), _) => ConveysMap(schema, hash, entry.0, entry.1, v, words)
    case (_, _, Some(slots)) => ConveysRecord(schema, hash, slots, v, words)
    case _ => false
  }

  ghost predicate ConveysList(schema: Schema, hash: Hash, item: Type, v: Value, words: seq<u32>)
    decreases v, 0
  {
    && v.VList?
    && if item.Bool? then
         (forall i :: 0 <= i < |v.items| ==> v.items[i].VBool?)
         && |v.items| < MAX_LEN && words == StringWords(BoolBytes(v.items))
       else exists cs {:trigger ItemsConveyed(schema, hash, item, v, cs)} ::
              ItemsConveyed(schema, hash, item, v, cs)
                  && forall suffix {:trigger words + suffix} :: ArrayOver(item, cs, words + suffix)
  }

  ghost predicate ItemsConveyed(schema: Schema, hash: Hash, item: Type, v: Value, cs: seq<seq<u32>>)
    requires v.VList?
    decreases v, 0, 0
  {
    |cs| == |v.items| && forall i {:trigger cs[i]} :: 0 <= i < |cs| ==> Conveys(schema, hash, item, v.items[i], cs[i])
  }

  ghost predicate ConveysMap(schema: Schema, hash: Hash, kt: KeyType, vt: Type, v: Value, words: seq<u32>)
    decreases v, 0
  {
    && v.VMap?
    && exists ordered, cs {:trigger EntriesConveyed(schema, hash, kt, vt, v, ordered, cs)} ::
         && EntriesConveyed(schema, hash, kt, vt, v, ordered, cs)
         && forall suffix {:trigger words + suffix} :: MapOver(hash, kt, vt, ordered, cs, words + suffix)
  }

  ghost predicate EntriesConveyed(schema: Schema, hash: Hash, kt: KeyType, vt: Type, v: Value, ordered: seq<Key>,
                                  cs: seq<seq<u32>>)
    requires v.VMap?
    decreases v, 0, 0
  {
    && ListsKeys(ordered, v.entries) && |cs| == |ordered|
    && (forall i {:trigger ordered[i]} :: 0 <= i < |ordered| ==> MatchesKey(kt, ordered[i]))
    && forall i {:trigger cs[i]} :: 0 <= i < |cs| ==> Conveys(schema, hash, vt, v.entries[ordered[i]], cs[i])
  }

  ghost predicate ConveysRecord(schema: Schema, hash: Hash, slots: seq<Slot>, v: Value, words: seq<u32>)
    decreases v, 0
  {
    && v.VRecord?
    && exists cs: map<nat, seq<u32>> {:trigger FieldsConveyed(schema, hash, slots, v, cs)} ::
         && FieldsConveyed(schema, hash, slots, v, cs)
         && forall suffix {:trigger words + suffix} :: RecordOver(slots, cs, words + suffix)
  }

  ghost predicate FieldsConveyed(schema: Schema, hash: Hash, slots: seq<Slot>, v: Value, cs: map<nat, seq<u32>>)
    requires v.VRecord?
    decreases v, 0, 0
  {
    && (forall id :: id in cs <==> id in v.fields)
    && forall id {:trigger cs[id]} :: id in cs ==>
        Live(slots, id) && Conveys(schema, hash, slots[id].ty, v.fields[id], cs[id])
  }

  /** The words start with words that convey the value; a scalar takes them all. */
  ghost predicate Framed(schema: Schema, hash: Hash, ty: Type, v: Value, words: seq<u32>) {
    exists core {:trigger Conveys(schema, hash, ty, v, core)} ::
      core <= words && (IsScalar(ty) ==> core == words) && Conveys(schema, hash, ty, v, core)
  }

  // ----- what is conveyed reads back

  /** A field that starts with words that read as a value reads as the value. */
  lemma StartsReadsAs(schema: Schema, ty: Type, v: Value, core: seq<u32>, field: FieldView)
    requires ReadsAs(schema, ty, v, core) && StartsWith(field, core, IsScalar(ty))
    ensures ReadField(schema, ty, field) == Some(v)
  {
    hide ReadObject;
    if !IsScalar(ty) {
      var tail := field.tail[ObjectStart(field).value..];
      assert tail == core + tail[|core|..];
      assert field.ObjectWords() == Some(tail);
      assert ReadObject(schema, ty, core + tail[|core|..]) == Some(v);
    }
  }

  /** A field that starts with an encoding reads as its value, and detection finds it. */
  lemma StartsReads(schema: Schema, ty: Type, v: Value, core: seq<u32>, field: FieldView)
    requires Encodes(schema, ty, v, core) && StartsWith(field, core, IsScalar(ty))
    ensures ReadField(schema, ty, field) == Some(v)
    ensures DetectField(schema, ty, field) == Some(Reach(field, core, IsScalar(ty)))
    ensures DetectSlice(schema, ty, field) == Some(core)
  {
    hide ReadObject, DetectObject;
    if !IsScalar(ty) {
      var tail := field.tail[ObjectStart(field).value..];
      var rest := tail[|core|..];
      assert tail == core + rest;
      assert field.ObjectWords() == Some(tail);
      assert ReadObject(schema, ty, core + rest) == Some(v) && DetectObject(schema, ty, core + rest) == Some(|core|);
      var start := ObjectStart(field).value;
      assert field.tail[start..start + |core|] == tail[..|core|] == core;
    }
  }

  lemma ShapeReads(schema: Schema, ty: Type, words: seq<u32>)
    ensures ItemType(schema, ty).Some? ==>
              && ReadObject(schema, ty, words) == ReadList(schema, ItemType(schema, ty).value, words)
              && DetectObject(schema, ty, words) == DetectList(schema, ItemType(schema, ty).value, words)
    ensures EntryType(schema, ty).Some? ==>
              var entry := EntryType(schema, ty).value;
              && ReadObject(schema, ty, words) == ReadMap(schema, entry.0, entry.1, words)
              && DetectObject(schema, ty, words) == DetectMap(schema, entry.0, entry.1, words)
    ensures RecordSlots(schema, ty).Some? ==>
              && ReadObject(schema, ty, words) == ReadRecord(schema, RecordSlots(schema, ty).value, words)
              && DetectObject(schema, ty, words) == DetectRecord(schema, RecordSlots(schema, ty).value, words)
  {
    hide ReadList, ReadMap, ReadRecord, DetectList, DetectMap, DetectRecord;
  }

  lemma {:induction false} ConveysReads(schema: Schema, hash: Hash, ty: Type, v: Value, words: seq<u32>)
    requires Conveys(schema, hash, ty, v, words)
    ensures Encodes(schema, ty, v, words)
    decreases v, 2
  {
    hide ReadObject, DetectObject, ConveysObject, StringWords;
    if ty.Text? {
      TextEncodes(schema, v.bytes);
    } else if !IsScalar(ty) {
      forall suffix ensures ReadObject(schema, ty, words + suffix) == Some(v) {
        ConveyedObjectReads(schema, hash, ty, v, words, suffix);
      }
    }
  }

  lemma {:induction false} ConveyedObjectReads(schema: Schema, hash: Hash, ty: Type, v: Value, words: seq<u32>,
                                               suffix: seq<u32>)
    requires ConveysObject(schema, hash, ty, v, words)
    ensures ReadObject(schema, ty, words + suffix) == Some(v)
    decreases v, 1, 1
  {
    hide ReadObject, DetectObject, ConveysList, ConveysMap, ConveysRecord;
    ShapeReads(schema, ty, words + suffix);
    if ItemType(schema, ty).Some? {
      ConveyedListReads(schema, hash, ItemType(schema, ty).value, v, words, suffix);
    } else if EntryType(schema, ty).Some? {
      ConveyedMapReads(schema, hash, EntryType(schema, ty).value.0, EntryType(schema, ty).value.1, v, words, suffix);
    } else {
      ConveyedRecordReads(schema, hash, RecordSlots(schema, ty).value, v, words, suffix);
    }
  }

  lemma {:induction false} ConveyedListReads(schema: Schema, hash: Hash, item: Type, v: Value, words: seq<u32>,
                                             suffix: seq<u32>)
    requires ConveysList(schema, hash, item, v, words)
    ensures ReadList(schema, item, words + suffix) == Some(v)
    decreases v, 1, 0
  {
    hide Conveys, ReadField, ArrayCell, StartsWith, Encodes, StringWords;
    if item.Bool? {
      BoolsEncode(schema, v.items);
      BoolsRead(schema, v.items, words, suffix);
    } else {
      var cs :| ItemsConveyed(schema, hash, item, v, cs)
          && forall suffix {:trigger words + suffix} :: ArrayOver(item, cs, words + suffix);
      var all := words + suffix;
      assert ArrayOver(item, cs, all);
      var read := ReadElements(schema, item, all);
      forall i | 0 <= i < |cs| ensures read[i] == Some(v.items[i]) {
        assert Conveys(schema, hash, item, v.items[i], cs[i]);
        ConveysReads(schema, hash, item, v.items[i], cs[i]);
        StartsReads(schema, item, v.items[i], cs[i], ArrayCell(all, i));
      }
      assert AllValues(read).value == v.items;
    }
  }

  lemma BoolsRead(schema: Schema, items: seq<Value>, words: seq<u32>, suffix: seq<u32>)
    requires (forall i :: 0 <= i < |items| ==> items[i].VBool?)
    requires |items| < MAX_LEN && words == StringWords(BoolBytes(items))
    requires Encodes(schema, List(Bool), VList(items), words)
    ensures ReadList(schema, Bool, words + suffix) == Some(VList(items))
  {
    hide ReadList;
    assert ReadObject(schema, List(Bool), words + suffix) == Some(VList(items));
  }

  lemma {:induction false} ConveyedEntryReads(schema: Schema, hash: Hash, kt: KeyType, vt: Type, v: Value,
                                              ordered: seq<Key>, cs: seq<seq<u32>>, all: seq<u32>, i: nat)
    requires v.VMap? && EntriesConveyed(schema, hash, kt, vt, v, ordered, cs) && MapOver(hash, kt, vt, ordered, cs, all)
        && i < |ordered|
    ensures ReadKeys(kt, all)[i] == Some(ordered[i]) && ReadValues(schema, vt, all)[i] == Some(v.entries[ordered[i]])
    decreases v, 0, 1
  {
    hide Conveys, ReadField, ReadKey, MapCell, StartsWith, Encodes, NewMap, FindsKeys, MatchesKey;
    assert Conveys(schema, hash, vt, v.entries[ordered[i]], cs[i]);
    ConveysReads(schema, hash, vt, v.entries[ordered[i]], cs[i]);
    StartsReads(schema, vt, v.entries[ordered[i]], cs[i], MapCell(all, 2 * i + 1));
    assert ReadKey(kt, MapCell(all, 2 * i)) == Some(ordered[i]) by { assert ordered[i] == ordered[i]; }
  }

  lemma {:induction false} ConveyedMapReads(schema: Schema, hash: Hash, kt: KeyType, vt: Type, v: Value,
                                            words: seq<u32>, suffix: seq<u32>)
    requires ConveysMap(schema, hash, kt, vt, v, words)
    ensures ReadMap(schema, kt, vt, words + suffix) == Some(v)
    decreases v, 1, 0
  {
    hide EntriesConveyed, MapOver, Collect, NewMap, ReadKeys, ReadValues;
    var ordered, cs :| EntriesConveyed(schema, hash, kt, vt, v, ordered, cs)
      && forall suffix {:trigger words + suffix} :: MapOver(hash, kt, vt, ordered, cs, words + suffix);
    var all := words + suffix;
    assert MapOver(hash, kt, vt, ordered, cs, all);
    EntryCounts(schema, hash, kt, vt, v, ordered, cs, all);
    var vs := ValuesOf(v, ordered);
    var keys, values := ReadKeys(kt, all), ReadValues(schema, vt, all);
    forall i | 0 <= i < |ordered| ensures keys[i] == Some(ordered[i]) && values[i] == Some(vs[i]) {
      ConveyedEntryReads(schema, hash, kt, vt, v, ordered, cs, all, i);
    }
    assert AllKeys(keys).value == ordered && AllValues(values).value == vs;
    CollectAll(ordered, vs, v.entries);
  }

  lemma EntryCounts(schema: Schema, hash: Hash, kt: KeyType, vt: Type, v: Value, ordered: seq<Key>, cs: seq<seq<u32>>,
                    all: seq<u32>)
    requires v.VMap? && EntriesConveyed(schema, hash, kt, vt, v, ordered, cs) && MapOver(hash, kt, vt, ordered, cs, all)
    ensures ListsKeys(ordered, v.entries) && NewMap(all).Some?
    ensures |ReadKeys(kt, all)| == |ordered| == |ReadValues(schema, vt, all)|
  {
    hide Conveys, ReadField, ReadKey, MapCell, StartsWith, NewMap, FindsKeys, MatchesKey;
  }

  lemma {:induction false} ConveyedRecordReads(schema: Schema, hash: Hash, slots: seq<Slot>, v: Value, words: seq<u32>,
                                               suffix: seq<u32>)
    requires ConveysRecord(schema, hash, slots, v, words)
    ensures ReadRecord(schema, slots, words + suffix) == Some(v)
    decreases v, 1, 0
  {
    hide Conveys, ReadField, FieldIn, StartsWith, Encodes, IsMessage;
    var cs: map<nat, seq<u32>> :| FieldsConveyed(schema, hash, slots, v, cs)
      && forall suffix {:trigger words + suffix} :: RecordOver(slots, cs, words + suffix);
    var all := words + suffix;
    assert RecordOver(slots, cs, all);
    forall id: nat | Live(slots, id) ensures FieldIn(all, id).Some? <==> id in v.fields
      ensures id in v.fields ==> ReadSlot(schema, slots, all, id) == Some(v.fields[id])
    {
      if id in cs {
        assert Conveys(schema, hash, slots[id].ty, v.fields[id], cs[id]);
        ConveysReads(schema, hash, slots[id].ty, v.fields[id], cs[id]);
        StartsReads(schema, slots[id].ty, v.fields[id], cs[id], FieldIn(all, id).value);
      }
    }
    assert forall id :: id in v.fields ==> Live(slots, id) by {
      forall id | id in v.fields ensures Live(slots, id) { assert id in cs; assert cs[id] == cs[id]; }
    }
    var read := map id: nat | id < |slots| && Live(slots, id)
        && FieldIn(all, id).Some? :: ReadSlot(schema, slots, all, id).value;
    assert read == v.fields;
  }

  // ----- containers of framed words

  lemma ConveysStart(schema: Schema, hash: Hash, ty: Type, v: Value, words: seq<u32>)
    requires Conveys(schema, hash, ty, v, words)
    ensures words != [] && (!IsScalar(ty) ==> NotAPointer(words))
  {
    hide StringWords, ConveysObject;
    if ty.Text? { StringFirstWord(v.bytes); }
  }

  /** The words that convey the value: all of them if they do. */
  ghost function CoreIn(schema: Schema, hash: Hash, ty: Type, v: Value, words: seq<u32>): (core: seq<u32>)
    requires Framed(schema, hash, ty, v, words)
    ensures core <= words && core != [] && (IsScalar(ty) ==> core == words) && Conveys(schema, hash, ty, v, core)
    ensures Conveys(schema, hash, ty, v, words) ==> core == words
    ensures !IsScalar(ty) ==> NotAPointer(words)
  {
    hide Conveys;
    var core :| core <= words && (IsScalar(ty) ==> core == words) && Conveys(schema, hash, ty, v, core);
    ConveysStart(schema, hash, ty, v, core);
    if Conveys(schema, hash, ty, v, words) then words else core
  }

  lemma FramesWhole(schema: Schema, hash: Hash, ty: Type, v: Value, words: seq<u32>)
    requires Conveys(schema, hash, ty, v, words)
    ensures Framed(schema, hash, ty, v, words)
  {
    hide Conveys;
  }

  ghost predicate AllFramed(schema: Schema, hash: Hash, item: Type, vs: seq<Value>, es: seq<seq<u32>>) {
    |vs| == |es| && forall i {:trigger es[i]} :: 0 <= i < |es| ==> Framed(schema, hash, item, vs[i], es[i])
  }

  ghost predicate AllConveyed(schema: Schema, hash: Hash, item: Type, vs: seq<Value>, es: seq<seq<u32>>) {
    |vs| == |es| && forall i {:trigger es[i]} :: 0 <= i < |es| ==> Conveys(schema, hash, item, vs[i], es[i])
  }

  ghost function CoreWords(schema: Schema, hash: Hash, item: Type, vs: seq<Value>,
                           es: seq<seq<u32>>): (cs: seq<seq<u32>>)
    requires AllFramed(schema, hash, item, vs, es)
    ensures AllConveyed(schema, hash, item, vs, cs) && CoresOf(es, cs)
    ensures AllConveyed(schema, hash, item, vs, es) ==> cs == es
  {
    hide Conveys, Framed;
    FramedAt(schema, hash, item, vs, es);
    var cs := seq(|es|, i requires 0 <= i < |es|
        && Framed(schema, hash, item, vs[i], es[i]) => CoreIn(schema, hash, item, vs[i], es[i]));
    cs
  }

  lemma FramedAt(schema: Schema, hash: Hash, item: Type, vs: seq<Value>, es: seq<seq<u32>>)
    requires AllFramed(schema, hash, item, vs, es)
    ensures forall i :: 0 <= i < |es| ==> Framed(schema, hash, item, vs[i], es[i])
  {
    hide Framed;
    forall i | 0 <= i < |es| ensures Framed(schema, hash, item, vs[i], es[i]) { assert es[i] == es[i]; }
  }

  /** Words of framed elements fit cells: scalars as wide as the cells, or objects. */
  lemma FramedCells(schema: Schema, hash: Hash, item: Type, vs: seq<Value>, es: seq<seq<u32>>)
    requires AllFramed(schema, hash, item, vs, es) && es != []
    ensures Cellable(es, CoreWords(schema, hash, item, vs, es), BestWidth(Lens(es)), IsScalar(item))
    ensures item.Scalar? ==> BestWidth(Lens(es)) == item.width
  {
    hide BestWidth, NotAPointer, CoreWords;
    var cs := CoreWords(schema, hash, item, vs, es);
    FramedAt(schema, hash, item, vs, es);
    var width := if item.Scalar? then item.width else 1;
    forall i | 0 <= i < |es|
      ensures if IsScalar(item) then |es[i]| == width && cs[i] == es[i] else NotAPointer(es[i])
    {
      FramedCell(schema, hash, item, vs[i], es[i]);
      if IsScalar(item) { OneFraming(schema, hash, item, vs, es, i); }
    }
    if IsScalar(item) { WidthOfScalars(es, width); }
  }

  lemma FramedCell(schema: Schema, hash: Hash, item: Type, v: Value, e: seq<u32>)
    requires Framed(schema, hash, item, v, e)
    ensures if IsScalar(item) then Conveys(schema, hash, item, v, e) && |e| == (if item.Scalar? then item.width else 1)
            else NotAPointer(e)
  {
    var core := CoreIn(schema, hash, item, v, e);
  }

  lemma OneFraming(schema: Schema, hash: Hash, item: Type, vs: seq<Value>, es: seq<seq<u32>>, i: nat)
    requires AllFramed(schema, hash, item, vs, es) && i < |es| && IsScalar(item)
    ensures CoreWords(schema, hash, item, vs, es)[i] == es[i]
  {
    var cs := CoreWords(schema, hash, item, vs, es);
    assert cs[i] == cs[i] && es[i] == es[i];
    FramedCell(schema, hash, item, vs[i], es[i]);
  }

  lemma CoreArrayOver(item: Type, es: seq<seq<u32>>, cs: seq<seq<u32>>, rest: seq<u32>)
    requires ArrayFits(es) && CoresOf(es, cs) && Cellable(es, cs, BestWidth(Lens(es)), IsScalar(item))
    requires item.Scalar? ==> BestWidth(Lens(es)) == item.width
    ensures ArrayOver(item, cs, ArrayCore(es, cs) + rest)
  {
    hide BestWidth, Cost, ArrayCore, Cellable, CoresOf, StartsWith, NewArray, ArrayFits;
    ArrayCoreHead(es, cs, rest);
    forall i | 0 <= i < |es| ensures StartsWith(ArrayCell(ArrayCore(es, cs) + rest, i), cs[i], IsScalar(item)) {
      ArrayCoreCell(es, cs, rest, IsScalar(item), i);
    }
    CoreCounts(es, cs);
  }

  lemma CoreArrayTag(es: seq<seq<u32>>, cs: seq<seq<u32>>)
    requires ArrayFits(es) && CoresOf(es, cs)
    ensures NotAPointer(ArrayCore(es, cs))
  {
    hide BestWidth, Cost, ArrayCore, Body, CoreBody, C.ArrayWords, CellsLen;
    ArrayCoreHead(es, cs, []);
    var words := ArrayCore(es, cs);
    assert words + [] == words;
    ArrayHead(es, []);
    assert C.ArrayWords(es) + [] == C.ArrayWords(es);
    assert words[0] == C.ArrayWords(es)[0];
    AtLeastOnce(|es|, BestWidth(Lens(es)));
    assert |words[1..]| >= |es| * BestWidth(Lens(es));
  }

  /** A cell that shows an item with a conveyed core is detected. */
  lemma CellDetected(schema: Schema, hash: Hash, ty: Type, v: Value, e: seq<u32>, core: seq<u32>, field: FieldView)
    requires Conveys(schema, hash, ty, v, core) && core <= e && ShowsCore(field, e, core) && field.width <= 3
    requires if IsScalar(ty) then |e| == field.width && core == e else NotAPointer(e)
    ensures DetectsCore(DetectField(schema, ty, field), field, e, core)
  {
    hide Conveys, DetectField, StartsWith, Reach, ShowsCore, DetectsCore, NotAPointer;
    ConveysStart(schema, hash, ty, v, core);
    CoreStarts(field, e, core, IsScalar(ty));
    DetectsConveyed(schema, hash, ty, v, core);
  }

  lemma DetectsConveyed(schema: Schema, hash: Hash, ty: Type, v: Value, core: seq<u32>)
    requires Conveys(schema, hash, ty, v, core)
    ensures forall field: FieldView {:trigger DetectField(schema, ty, field)} ::
        StartsWith(field, core, IsScalar(ty)) ==>
              DetectField(schema, ty, field) == Some(Reach(field, core, IsScalar(ty)))
  {
    hide Conveys, DetectField, ReadField, DetectSlice, Encodes, StartsWith, Reach;
    ConveysReads(schema, hash, ty, v, core);
    forall field: FieldView | StartsWith(field, core, IsScalar(ty))
      ensures DetectField(schema, ty, field) == Some(Reach(field, core, IsScalar(ty)))
    {
      StartsReads(schema, ty, v, core, field);
    }
  }

  lemma ConveyedAt(schema: Schema, hash: Hash, item: Type, vs: seq<Value>, cs: seq<seq<u32>>, i: nat)
    requires AllConveyed(schema, hash, item, vs, cs) && i < |cs|
    ensures Conveys(schema, hash, item, vs[i], cs[i])
  {
    hide Conveys;
    assert cs[i] == cs[i];
  }

  /** The cell of every item is detected. */
  lemma ItemDetected(schema: Schema, hash: Hash, ty: Type, vs: seq<Value>, es: seq<seq<u32>>, cs: seq<seq<u32>>,
                     detect: Detector, i: nat)
    requires CoresOf(es, cs) && Cellable(es, cs, BestWidth(Lens(es)), IsScalar(ty))
    requires AllConveyed(schema, hash, ty, vs, cs)
    requires forall field: FieldView :: detect.requires(field) ==> detect(field) == DetectField(schema, ty, field)
    requires i < |es|
    ensures DetectsAt(detect, BestWidth(Lens(es)), es[i], cs[i])
  {
    hide BestWidth, DetectField, Conveys, AllConveyed, ShowsCore, DetectsCore, NotAPointer;
    ConveyedLength(schema, hash, ty, vs, cs);
    ConveyedAt(schema, hash, ty, vs, cs, i);
    assert es[i] == es[i];
    forall field: FieldView | detect.requires(field) && ShowsCore(field, es[i], cs[i])
        && field.width == BestWidth(Lens(es))
      ensures DetectsCore(detect(field), field, es[i], cs[i])
    {
      CellDetected(schema, hash, ty, vs[i], es[i], cs[i], field);
    }
  }

  lemma CoreListDetects(schema: Schema, hash: Hash, item: Type, vs: seq<Value>, es: seq<seq<u32>>, cs: seq<seq<u32>>,
                        rest: seq<u32>)
    requires !item.Bool? && ArrayFits(es) && CoresOf(es, cs) && Cellable(es, cs, BestWidth(Lens(es)), IsScalar(item))
    requires AllConveyed(schema, hash, item, vs, cs) && (item.Scalar? ==> BestWidth(Lens(es)) == item.width)
    ensures DetectList(schema, item, ArrayCore(es, cs) + rest) == Some(|ArrayCore(es, cs)|)
  {
    hide BestWidth, Cost, ArrayCore, DetectField, Conveys, AllConveyed, ArrayFits, DetectsAt;
    var words := ArrayCore(es, cs) + rest;
    CoreCounts(es, cs);
    ConveyedLength(schema, hash, item, vs, cs);
    if item.Scalar? {
      ScalarCore(es, cs, rest);
    } else {
      var detect: Detector := (field: FieldView) requires |field.tail| < |words| => DetectField(schema, item, field);
      forall i | 0 <= i < |es| ensures DetectsAt(detect, BestWidth(Lens(es)), es[i], cs[i]) {
        ItemDetected(schema, hash, item, vs, es, cs, detect, i);
      }
      ArrayCoreExtent(es, cs, rest, detect);
    }
  }

  lemma ConveyedLength(schema: Schema, hash: Hash, item: Type, vs: seq<Value>, cs: seq<seq<u32>>)
    requires AllConveyed(schema, hash, item, vs, cs)
    ensures |vs| == |cs|
  {
  }

  /** Scalars spill nothing. */
  lemma ScalarCore(es: seq<seq<u32>>, cs: seq<seq<u32>>, rest: seq<u32>)
    requires ArrayFits(es) && CoresOf(es, cs) && Cellable(es, cs, BestWidth(Lens(es)), true)
    ensures var view := NewArray(ArrayCore(es, cs) + rest);
            view.Some? && 1 + view.value.len * view.value.width == |ArrayCore(es, cs)|
  {
    hide BestWidth, Cost, ArrayCore, C.ArrayWords;
    ArrayCoreHead(es, cs, rest);
    forall i | 0 <= i < |es| ensures |es[i]| == BestWidth(Lens(es)) && cs[i] == es[i] { assert es[i] == es[i]; }
    assert cs == es;
    UniformLength(es, BestWidth(Lens(es)));
  }

  /** An array of framed elements is framed, and conveys the list when they convey theirs. */
  lemma ListFramed(schema: Schema, hash: Hash, ty: Type, item: Type, vs: seq<Value>, es: seq<seq<u32>>)
    requires ItemType(schema, ty) == Some(item) && !item.Bool? && ArrayFits(es) && AllFramed(schema, hash, item, vs, es)
    ensures Framed(schema, hash, ty, VList(vs), C.ArrayWords(es))
    ensures AllConveyed(schema, hash, item, vs, es) ==> Conveys(schema, hash, ty, VList(vs), C.ArrayWords(es))
  {
    hide BestWidth, Cost, ArrayCore, C.ArrayWords, Conveys, CoreWords, Cellable, AllFramed, AllConveyed, CoresOf;
    var cs := CoreWords(schema, hash, item, vs, es);
    FramedCells(schema, hash, item, vs, es);
    ArrayConveys(schema, hash, ty, item, vs, es, cs);
  }

  lemma ArrayConveys(schema: Schema, hash: Hash, ty: Type, item: Type, vs: seq<Value>, es: seq<seq<u32>>,
                     cs: seq<seq<u32>>)
    requires ItemType(schema, ty) == Some(item) && !item.Bool? && ArrayFits(es) && CoresOf(es, cs)
    requires Cellable(es, cs, BestWidth(Lens(es)), IsScalar(item))
        && (item.Scalar? ==> BestWidth(Lens(es)) == item.width)
    requires AllConveyed(schema, hash, item, vs, cs)
    ensures Conveys(schema, hash, ty, VList(vs), ArrayCore(es, cs))
  {
    hide BestWidth, Cost, ArrayCore, ArrayOver, DetectObject, Cellable, CoresOf, ArrayFits, DetectList;
    var core := ArrayCore(es, cs);
    CoreArrayTag(es, cs);
    forall suffix ensures ArrayOver(item, cs, core + suffix)
        && DetectObject(schema, ty, core + suffix) == Some(|core|) {
      CoreArrayOver(item, es, cs, suffix);
      CoreListDetects(schema, hash, item, vs, es, cs, suffix);
      ShapeReads(schema, ty, core + suffix);
    }
    assert ItemsConveyed(schema, hash, item, VList(vs), cs);
    assert ConveysList(schema, hash, item, VList(vs), core);
    ObjectConveys(schema, hash, ty, VList(vs), core);
  }

  lemma ObjectConveys(schema: Schema, hash: Hash, ty: Type, v: Value, words: seq<u32>)
    requires NotAPointer(words) && Extends(schema, ty, words) && ConveysObject(schema, hash, ty, v, words)
    ensures Conveys(schema, hash, ty, v, words)
  {
    hide ConveysList, ConveysMap, ConveysRecord, Extends;
  }

  /** What conveys a list, a map or a record has its shape. */
  lemma ConveyedShape(schema: Schema, hash: Hash, ty: Type, v: Value, words: seq<u32>)
    requires Conveys(schema, hash, ty, v, words)
    ensures ItemType(schema, ty).Some? ==> v.VList? && ConveysList(schema, hash, ItemType(schema, ty).value, v, words)
    ensures EntryType(schema, ty).Some? ==>
        v.VMap? && ConveysMap(schema, hash, EntryType(schema, ty).value.0, EntryType(schema, ty).value.1, v, words)
    ensures RecordSlots(schema, ty).Some? ==>
        v.VRecord? && ConveysRecord(schema, hash, RecordSlots(schema, ty).value, v, words)
  {
    hide StringWords, Extends, ConveysList, ConveysMap, ConveysRecord;
    if ItemType(schema, ty).Some? {
      ListShape(schema, hash, ItemType(schema, ty).value, v, words);
    } else if EntryType(schema, ty).Some? {
      MapShape(schema, hash, EntryType(schema, ty).value.0, EntryType(schema, ty).value.1, v, words);
    } else if RecordSlots(schema, ty).Some? {
      RecordShape(schema, hash, RecordSlots(schema, ty).value, v, words);
    }
  }

  lemma ListShape(schema: Schema, hash: Hash, item: Type, v: Value, words: seq<u32>)
    requires ConveysList(schema, hash, item, v, words)
    ensures v.VList?
  {
  }

  lemma MapShape(schema: Schema, hash: Hash, kt: KeyType, vt: Type, v: Value, words: seq<u32>)
    requires ConveysMap(schema, hash, kt, vt, v, words)
    ensures v.VMap?
  {
  }

  lemma RecordShape(schema: Schema, hash: Hash, slots: seq<Slot>, v: Value, words: seq<u32>)
    requires ConveysRecord(schema, hash, slots, v, words)
    ensures v.VRecord?
  {
  }

  /** The words of the fields of a conveyed record. */
  lemma RecordCores(schema: Schema, hash: Hash, name: Name, v: Value, words: seq<u32>) returns (cs: map<nat, seq<u32>>)
    requires name in schema && schema[name].Record? && Conveys(schema, hash, Message(name), v, words)
    ensures v.VRecord? && FieldsConveyed(schema, hash, schema[name].slots, v, cs)
    ensures forall suffix {:trigger words + suffix} :: RecordOver(schema[name].slots, cs, words + suffix)
  {
    hide Conveys, FieldsConveyed, RecordOver;
    ConveyedShape(schema, hash, Message(name), v, words);
    cs :| FieldsConveyed(schema, hash, schema[name].slots, v, cs)
      && forall suffix {:trigger words + suffix} :: RecordOver(schema[name].slots, cs, words + suffix);
  }

  lemma EmptyListConveys(schema: Schema, hash: Hash, ty: Type, item: Type)
    requires ItemType(schema, ty) == Some(item) && !item.Bool?
    ensures Conveys(schema, hash, ty, VList([]), EmptyList(item))
  {
    hide NewArray, DetectObject, ReadObject, DetectList;
    var words := EmptyList(item);
    forall suffix ensures ArrayOver(item, [], words + suffix) && DetectObject(schema, ty, words + suffix) == Some(1) {
      EmptyArrayParsed(item, words + suffix);
      EmptyArray(schema, item, words + suffix);
      ShapeReads(schema, ty, words + suffix);
    }
    assert ItemsConveyed(schema, hash, item, VList([]), []);
    assert ConveysList(schema, hash, item, VList([]), words);
    ObjectConveys(schema, hash, ty, VList([]), words);
  }

  lemma EmptyArrayParsed(item: Type, words: seq<u32>)
    requires !item.Bool? && words != [] && words[0] == EmptyList(item)[0]
    ensures NewArray(words) == Some(ArrayView(words[1..], 0, words[0]))
  {
  }

  lemma BoolsConvey(schema: Schema, hash: Hash, ty: Type, items: seq<Value>)
    requires ItemType(schema, ty) == Some(Bool)
        && (forall i :: 0 <= i < |items| ==> items[i].VBool?) && |items| < MAX_LEN
    ensures Conveys(schema, hash, ty, VList(items), StringWords(BoolBytes(items)))
  {
    hide StringWords, DetectObject, ReadObject, DetectList;
    var words := StringWords(BoolBytes(items));
    BoolsEncode(schema, items);
    forall suffix ensures DetectObject(schema, ty, words + suffix) == Some(|words|) {
      assert DetectObject(schema, List(Bool), words + suffix) == Some(|words|);
      ShapeReads(schema, ty, words + suffix);
      ShapeReads(schema, List(Bool), words + suffix);
    }
    assert ConveysList(schema, hash, Bool, VList(items), words);
    ObjectConveys(schema, hash, ty, VList(items), words);
  }

  // ----- maps

  lemma KeyStarts(ty: KeyType, key: Key, words: seq<u32>, field: FieldView)
    requires EncodesKey(ty, key, words) && StartsWith(field, words, ty.ScalarKey?)
    ensures ReadKey(ty, field) == Some(key)
    ensures DetectKey(ty, field) == Some(Reach(field, words, ty.ScalarKey?))
    ensures forall other :: MatchesKey(ty, other) ==> (Stored(field, other) <==> other == key)
  {
    hide StringBytes, StringDetect, StringWords;
    if ty.TextKey? {
      var tail := field.tail[ObjectStart(field).value..];
      assert tail == words + tail[|words|..];
      StringRoundTrip(key.bytes, tail[|words|..]);
    }
  }

  /** Encoded keys fit their cells. */
  lemma KeyCells(kt: KeyType, ordered: seq<Key>, ks: seq<seq<u32>>)
    requires EncodesKeys(kt, ordered, ks) && ks != []
    ensures Cellable(ks, ks, BestWidth(Lens(ks)), kt.ScalarKey?)
  {
    hide BestWidth, StringWords;
    if kt.ScalarKey? {
      KeysUniform(kt, ordered, ks);
    } else {
      forall i | 0 <= i < |ks| ensures NotAPointer(ks[i]) {
        assert EncodesKey(kt, ordered[i], ks[i]);
        StringFirstWord(ordered[i].bytes);
      }
    }
  }

  /** Everything a map is built from: its keys in position order, their encodings and their index. */
  ghost predicate Planted(l: MapLayout, hash: Hash, kt: KeyType) {
    && EncodesKeys(kt, l.ordered, l.ks)
    && Indexed(hash, l.keyBytes, l.index, l.positions, l.ks, l.es)
    && Arranged(l.items, l.keyBytes, l.positions, l.ordered)
  }

  lemma PlantedParts(l: MapLayout, hash: Hash, kt: KeyType)
    requires Planted(l, hash, kt)
    ensures |l.index| >= 4 && |l.ks| == |l.es| && EncodesKeys(kt, l.ordered, l.ks)
    ensures Indexed(hash, l.keyBytes, l.index, l.positions, l.ks, l.es)
  {
    hide IndexFor, MapSized, EncodesKeys, Arranged;
  }

  lemma KeyCellStarts(l: MapLayout, hash: Hash, kt: KeyType, cs: seq<seq<u32>>, rest: seq<u32>, i: nat)
    requires Planted(l, hash, kt) && CoresOf(l.es, cs) && i < |l.ks|
    ensures |l.index| >= 4 && |l.ks| == |l.es|
    ensures var words := MapCore(l.index, l.ks, l.es, cs) + rest;
            && NewMap(words).Some? && NewMap(words).value.index.len == |l.ks|
            && StartsWith(MapCell(words, 2 * i), l.ks[i], kt.ScalarKey?)
  {
    hide BestWidth, MapCore, StartsWith, EncodesKeys, Cellable, Planted, Indexed, Arranged, CoresOf, NewMap, MapCell,
         Payload, CellsLen, PairItems, Spilled, EndIn;
    PlantedParts(l, hash, kt);
    KeyCells(kt, l.ordered, l.ks);
    MapCoreCell(hash, l.keyBytes, l.index, l.positions, l.ks, l.es, cs, rest, kt.ScalarKey?, 2 * i);
    CoreCounts(l.es, cs);
  }

  lemma ValueCellStarts(l: MapLayout, hash: Hash, kt: KeyType, cs: seq<seq<u32>>, rest: seq<u32>, scalar: bool, i: nat)
    requires Planted(l, hash, kt) && CoresOf(l.es, cs) && i < |l.ks|
    requires Cellable(l.es, cs, BestWidth(Lens(l.es)), scalar)
    ensures |l.index| >= 4 && |l.ks| == |l.es| == |cs|
    ensures var words := MapCore(l.index, l.ks, l.es, cs) + rest;
            && NewMap(words).Some? && NewMap(words).value.index.len == |l.ks|
            && StartsWith(MapCell(words, 2 * i + 1), cs[i], scalar)
  {
    hide BestWidth, MapCore, StartsWith, EncodesKeys, Cellable, Planted, Indexed, Arranged, CoresOf, NewMap, MapCell,
         Payload, CellsLen, PairItems, Spilled, EndIn;
    PlantedParts(l, hash, kt);
    CoreCounts(l.es, cs);
    MapCoreCell(hash, l.keyBytes, l.index, l.positions, l.ks, l.es, cs, rest, scalar, 2 * i + 1);
  }

  lemma KeyAtCell(words: seq<u32>, p: nat)
    requires NewMap(words).Some?
    ensures p < NewMap(words).value.index.len ==> NewMap(words).value.Key(p) == Some(MapCell(words, 2 * p))
    ensures p >= NewMap(words).value.index.len ==> NewMap(words).value.Key(p).None?
  {
    hide NewMap;
    if p < NewMap(words).value.index.len { MapCellInside(words, p); }
  }

  lemma CoreFinds(l: MapLayout, hash: Hash, kt: KeyType, cs: seq<seq<u32>>, rest: seq<u32>, key: Key)
    requires Planted(l, hash, kt) && CoresOf(l.es, cs) && MatchesKey(kt, key)
    ensures |l.index| >= 4 && |l.ks| == |l.es|
    ensures NewMap(MapCore(l.index, l.ks, l.es, cs) + rest).Some?
    ensures match Find(NewMap(MapCore(l.index, l.ks, l.es, cs) + rest).value, hash, key)
            case Some(p) => p < |l.ordered| && l.ordered[p] == key
            case None => key !in l.ordered
  {
    hide BestWidth, MapCore, StartsWith, Cellable, IndexFor, MapSized, Arranged, CoresOf, NewMap, MapCell, CellsLen,
         PairItems, Find, Locate, MatchesKey, Stored, CoreBody, Interleave, NewView, BytesOfWords, EncodesKey;
    MapCoreParsed(hash, l.keyBytes, l.index, l.positions, l.ks, l.es, cs, rest);
    var words := MapCore(l.index, l.ks, l.es, cs) + rest;
    var view := NewMap(words).value;
    forall p: nat ensures if p < |l.ordered| then view.Key(p).Some?
        && (Stored(view.Key(p).value, key) <==> key == l.ordered[p])
                          else view.Key(p).None?
    {
      KeyAtCell(words, p);
      if p < |l.ordered| {
        KeyCellStarts(l, hash, kt, cs, rest, p);
        assert EncodesKey(kt, l.ordered[p], l.ks[p]);
        KeyStarts(kt, l.ordered[p], l.ks[p], MapCell(words, 2 * p));
      }
    }
    FindsAt(l.items, l.keyBytes, l.positions, l.ordered, hash, view, key);
  }

  /** Every key of an encoded map is found at its position, every other key nowhere. */
  lemma FindsExactly(kt: KeyType, items: seq<Key>, keyBytes: seq<seq<u8>>, positions: seq<nat>, ordered: seq<Key>,
                     ks: seq<seq<u32>>, es: seq<seq<u32>>, hash: Hash, index: seq<u8>, suffix: seq<u32>, key: Key)
    requires Arranged(items, keyBytes, positions, ordered) && EncodesKeys(kt, ordered, ks)
    requires Indexed(hash, keyBytes, index, positions, ks, es) && MatchesKey(kt, key)
    ensures NewMap(MapWords(index, ks, es) + suffix).Some?
    ensures match Find(NewMap(MapWords(index, ks, es) + suffix).value, hash, key)
            case Some(p) => p < |ordered| && ordered[p] == key
            case None => key !in ordered
  {
    hide NewMap, MapWords, MapCore, IndexFor, MapSized, EncodesKeys, Arranged, Find, MatchesKey;
    WholeCores(es);
    CoreFinds(MapLayout(items, ordered, ks, es, keyBytes, index, positions), hash, kt, es, suffix, key);
  }

  /** Words that read as values fit their cells. */
  lemma ReadCells(schema: Schema, vt: Type, vs: seq<Value>, es: seq<seq<u32>>)
    requires ReadAll(schema, vt, vs, es) && es != []
    ensures Cellable(es, es, BestWidth(Lens(es)), IsScalar(vt))
  {
    hide BestWidth, Reads;
    if IsScalar(vt) {
      ScalarsUniform(schema, vt, vs, es);
    } else {
      forall i | 0 <= i < |es| ensures NotAPointer(es[i]) { assert ReadsAs(schema, vt, vs[i], es[i]); }
    }
  }

  /** Lookup agrees with the encoded entries on every key of the key type. */
  lemma FindsValue(schema: Schema, kt: KeyType, vt: Type, items: seq<Key>, keyBytes: seq<seq<u8>>, positions: seq<nat>,
                   ordered: seq<Key>, vs: seq<Value>, ks: seq<seq<u32>>, es: seq<seq<u32>>, hash: Hash, index: seq<u8>,
                   entries: map<Key, Value>, suffix: seq<u32>, key: Key)
    requires Arranged(items, keyBytes, positions, ordered) && ReadEntries(schema, kt, vt, ordered, vs, ks, es)
    requires Indexed(hash, keyBytes, index, positions, ks, es) && MatchesKey(kt, key)
    requires ListEntries(ordered, vs, entries)
    ensures FindValue(schema, vt, MapWords(index, ks, es) + suffix, hash, key)
        == if key in entries then Some(entries[key]) else None
  {
    hide NewMap, MapWords, MapCore, IndexFor, MapSized, EncodesKeys, Arranged, MatchesKey, Find, ReadField, MapCell,
         ReadAll, BestWidth, Cellable, StartsWith;
    FindsExactly(kt, items, keyBytes, positions, ordered, ks, es, hash, index, suffix, key);
    WholeCores(es);
    var l := MapLayout(items, ordered, ks, es, keyBytes, index, positions);
    var found := Find(NewMap(MapWords(index, ks, es) + suffix).value, hash, key);
    if found.Some? {
      EntryLengths(schema, kt, vt, ordered, vs, ks, es);
      ReadCells(schema, vt, vs, es);
      ValueCellStarts(l, hash, kt, es, suffix, IsScalar(vt), found.value);
      ReadAt(schema, vt, vs, es, found.value);
      StartsReadsAs(schema, vt, vs[found.value], es[found.value],
          MapCell(MapWords(index, ks, es) + suffix, 2 * found.value + 1));
    }
  }

  lemma EntryLengths(schema: Schema, kt: KeyType, vt: Type, ordered: seq<Key>, vs: seq<Value>, ks: seq<seq<u32>>,
                     es: seq<seq<u32>>)
    requires ReadEntries(schema, kt, vt, ordered, vs, ks, es)
    ensures |ordered| == |ks| == |vs| == |es|
  {
  }

  lemma ReadAt(schema: Schema, vt: Type, vs: seq<Value>, es: seq<seq<u32>>, i: nat)
    requires ReadAll(schema, vt, vs, es) && i < |es|
    ensures ReadsAs(schema, vt, vs[i], es[i])
  {
    hide ReadsAs;
    assert es[i] == es[i];
  }

  lemma KeyReads(l: MapLayout, hash: Hash, kt: KeyType, cs: seq<seq<u32>>, rest: seq<u32>, i: nat)
    requires Planted(l, hash, kt) && CoresOf(l.es, cs) && i < |l.ordered|
    ensures |l.index| >= 4 && |l.ks| == |l.es| == |l.ordered|
    ensures var words := MapCore(l.index, l.ks, l.es, cs) + rest;
            && NewMap(words).Some? && NewMap(words).value.index.len == |l.ordered|
            && ReadKey(kt, MapCell(words, 2 * i)) == Some(l.ordered[i])
  {
    hide BestWidth, MapCore, StartsWith, IndexFor, MapSized, Arranged, CoresOf, NewMap, MapCell, MatchesKey, EncodesKey,
         ReadKey;
    KeyCellStarts(l, hash, kt, cs, rest, i);
    assert EncodesKey(kt, l.ordered[i], l.ks[i]);
    KeyStarts(kt, l.ordered[i], l.ks[i], MapCell(MapCore(l.index, l.ks, l.es, cs) + rest, 2 * i));
  }

  lemma CoreFindsKeys(l: MapLayout, hash: Hash, kt: KeyType, cs: seq<seq<u32>>, rest: seq<u32>)
    requires Planted(l, hash, kt) && l.ordered != [] && CoresOf(l.es, cs)
    ensures |l.index| >= 4 && |l.ks| == |l.es| && NewMap(MapCore(l.index, l.ks, l.es, cs) + rest).Some?
    ensures FindsKeys(kt, l.ordered, hash, NewMap(MapCore(l.index, l.ks, l.es, cs) + rest).value)
  {
    hide MapCore, Planted, CoresOf, NewMap, Find, MatchesKey, ReadKey, MapCell;
    KeyReads(l, hash, kt, cs, rest, 0);
    forall key | MatchesKey(kt, key)
      ensures match Find(NewMap(MapCore(l.index, l.ks, l.es, cs) + rest).value, hash, key)
              case Some(p) => p < |l.ordered| && l.ordered[p] == key
              case None => key !in l.ordered
    {
      CoreFinds(l, hash, kt, cs, rest, key);
    }
  }

  lemma CoreMapOver(l: MapLayout, hash: Hash, kt: KeyType, vt: Type, cs: seq<seq<u32>>, rest: seq<u32>)
    requires Planted(l, hash, kt) && l.ordered != [] && CoresOf(l.es, cs)
    requires Cellable(l.es, cs, BestWidth(Lens(l.es)), IsScalar(vt))
    ensures |l.index| >= 4 && |l.ks| == |l.es|
    ensures MapOver(hash, kt, vt, l.ordered, cs, MapCore(l.index, l.ks, l.es, cs) + rest)
  {
    hide BestWidth, MapCore, StartsWith, Cellable, Planted, CoresOf, NewMap, MapCell, ReadKey, FindsKeys;
    KeyReads(l, hash, kt, cs, rest, 0);
    CoreFindsKeys(l, hash, kt, cs, rest);
    ValueCellStarts(l, hash, kt, cs, rest, IsScalar(vt), 0);
    forall i | 0 <= i < |l.ordered|
      ensures ReadKey(kt, MapCell(MapCore(l.index, l.ks, l.es, cs) + rest, 2 * i)) == Some(l.ordered[i])
          && StartsWith(MapCell(MapCore(l.index, l.ks, l.es, cs) + rest, 2 * i + 1), cs[i], IsScalar(vt))
    {
      KeyReads(l, hash, kt, cs, rest, i);
      ValueCellStarts(l, hash, kt, cs, rest, IsScalar(vt), i);
    }
  }

  lemma KeyDetected(kt: KeyType, key: Key, words: seq<u32>, field: FieldView)
    requires EncodesKey(kt, key, words) && ShowsCore(field, words, words) && field.width <= 3
    requires if kt.ScalarKey? then |words| == field.width else NotAPointer(words)
    ensures DetectsCore(DetectKey(kt, field), field, words, words)
  {
    hide DetectKey, ReadKey, Stored, StartsWith, Reach, ShowsCore, DetectsCore, StringWords;
    KeyNotEmpty(kt, key, words);
    CoreStarts(field, words, words, kt.ScalarKey?);
    KeyStarts(kt, key, words, field);
  }

  lemma KeyNotEmpty(kt: KeyType, key: Key, words: seq<u32>)
    requires EncodesKey(kt, key, words)
    ensures words != []
  {
    hide StringWords;
    if kt.TextKey? { StringFirstWord(key.bytes); }
  }

  lemma CoreMapDetects(schema: Schema, hash: Hash, kt: KeyType, vt: Type, vs: seq<Value>, l: MapLayout,
                       cs: seq<seq<u32>>, rest: seq<u32>)
    requires Planted(l, hash, kt) && l.ordered != [] && CoresOf(l.es, cs)
    requires Cellable(l.es, cs, BestWidth(Lens(l.es)), IsScalar(vt))
    requires AllConveyed(schema, hash, vt, vs, cs)
    ensures |l.index| >= 4 && |l.ks| == |l.es|
    ensures DetectMap(schema, kt, vt, MapCore(l.index, l.ks, l.es, cs) + rest)
        == Some(|MapCore(l.index, l.ks, l.es, cs)|)
  {
    hide BestWidth, MapCore, Cellable, IndexFor, MapSized, Arranged, DetectKey, DetectField, EncodesKey, AllConveyed,
         MapExtent, Conveys, DetectsAt;
    var words := MapCore(l.index, l.ks, l.es, cs) + rest;
    var detectKey: Detector := (field: FieldView) requires |field.tail| < |words| => DetectKey(kt, field);
    var detectValue: Detector := (field: FieldView) requires |field.tail| < |words| => DetectField(schema, vt, field);
    CoreCounts(l.es, cs);
    forall i | 0 <= i < |l.ks| ensures DetectsAt(detectKey, BestWidth(Lens(l.ks)), l.ks[i], l.ks[i]) {
      KeyCellDetected(l, hash, kt, detectKey, i);
    }
    forall i | 0 <= i < |l.es| ensures DetectsAt(detectValue, BestWidth(Lens(l.es)), l.es[i], cs[i]) {
      ItemDetected(schema, hash, vt, vs, l.es, cs, detectValue, i);
    }
    MapCoreExtent(hash, l.keyBytes, l.index, l.positions, l.ks, l.es, cs, rest, detectKey, detectValue);
  }

  lemma KeyCellDetected(l: MapLayout, hash: Hash, kt: KeyType, detect: Detector, i: nat)
    requires Planted(l, hash, kt) && i < |l.ks|
    requires forall field: FieldView :: detect.requires(field) ==> detect(field) == DetectKey(kt, field)
    ensures DetectsAt(detect, BestWidth(Lens(l.ks)), l.ks[i], l.ks[i])
  {
    hide BestWidth, IndexFor, MapSized, Arranged, DetectKey, EncodesKey, ShowsCore, DetectsCore, NotAPointer;
    KeyCells(kt, l.ordered, l.ks);
    assert EncodesKey(kt, l.ordered[i], l.ks[i]);
    forall field: FieldView | detect.requires(field) && ShowsCore(field, l.ks[i], l.ks[i])
        && field.width == BestWidth(Lens(l.ks))
      ensures DetectsCore(detect(field), field, l.ks[i], l.ks[i])
    {
      KeyDetected(kt, l.ordered[i], l.ks[i], field);
    }
  }

  /** A map core of at most three words has a single entry, and its header counts it. */
  lemma CoreMapTag(l: MapLayout, hash: Hash, kt: KeyType, cs: seq<seq<u32>>)
    requires Planted(l, hash, kt) && CoresOf(l.es, cs) && l.ordered != []
    ensures |l.index| >= 4 && |l.ks| == |l.es|
    ensures NotAPointer(MapCore(l.index, l.ks, l.es, cs))
  {
    hide BestWidth, Cost, Body, CoreBody, LeNat, IndexWords, PairItems, Distinct, InRange, Carries, CoresOf,
         EncodesKeys, Arranged, CellsLen, Interleave, CoresIn, NotAPointer;
    var kw, vw := BestWidth(Lens(l.ks)), BestWidth(Lens(l.es));
    NotEmptyLayout(l, hash, kt);
    PairCost(l.ks, l.es, kw, vw);
    PairCores(l.ks, l.es, cs, kw, vw);
    IndexHead(l.index, |l.ks|, kw, vw);
    var words := MapCore(l.index, l.ks, l.es, cs);
    assert words[0] == IndexWords(l.index, kw, vw)[0];
    FewWords(words, |l.ks|, kw, vw);
  }

  lemma FewWords(words: seq<u32>, n: nat, kw: nat, vw: nat)
    requires n >= 1 && 1 <= kw && 1 <= vw && |words| >= 1 + n * (kw + vw) && words[0] == n + 0x1000_0000 * (4 * kw + vw)
    ensures NotAPointer(words)
  {
    AtLeastOnce(n, kw + vw);
    if n >= 2 {
      Distribute(n, kw + vw);
      AtLeastOnce(n - 1, kw + vw);
    } else {
      assert words[0] % 4 == 1;
    }
  }

  lemma MapConveys(schema: Schema, hash: Hash, ty: Type, kt: KeyType, vt: Type, v: Value, l: MapLayout,
                   cs: seq<seq<u32>>)
    requires EntryType(schema, ty) == Some((kt, vt)) && v.VMap? && ListsKeys(l.ordered, v.entries)
    requires Planted(l, hash, kt) && l.ordered != [] && CoresOf(l.es, cs)
    requires Cellable(l.es, cs, BestWidth(Lens(l.es)), IsScalar(vt))
    requires AllConveyed(schema, hash, vt, ValuesOf(v, l.ordered), cs)
    ensures |l.index| >= 4 && |l.ks| == |l.es|
    ensures Conveys(schema, hash, ty, v, MapCore(l.index, l.ks, l.es, cs))
  {
    hide BestWidth, MapCore, MapOver, DetectObject, Cellable, CoresOf, DetectMap, Conveys, EntriesConveyed, ListsKeys,
         AllConveyed, ConveysMap, EncodesKeys, IndexFor, MapSized, Arranged;
    CoreMapTag(l, hash, kt, cs);
    var core := MapCore(l.index, l.ks, l.es, cs);
    forall suffix ensures MapOver(hash, kt, vt, l.ordered, cs, core + suffix)
        && DetectObject(schema, ty, core + suffix) == Some(|core|) {
      CoreMapOver(l, hash, kt, vt, cs, suffix);
      CoreMapDetects(schema, hash, kt, vt, ValuesOf(v, l.ordered), l, cs, suffix);
      ShapeReads(schema, ty, core + suffix);
    }
    CoreEntries(schema, hash, kt, vt, v, l, cs);
    MapIsConveyed(schema, hash, kt, vt, v, l.ordered, cs, core);
    ObjectConveys(schema, hash, ty, v, core);
  }

  lemma MapIsConveyed(schema: Schema, hash: Hash, kt: KeyType, vt: Type, v: Value, ordered: seq<Key>,
                      cs: seq<seq<u32>>, core: seq<u32>)
    requires v.VMap? && EntriesConveyed(schema, hash, kt, vt, v, ordered, cs)
    requires forall suffix {:trigger core + suffix} :: MapOver(hash, kt, vt, ordered, cs, core + suffix)
    ensures ConveysMap(schema, hash, kt, vt, v, core)
  {
    hide EntriesConveyed, MapOver;
  }

  lemma CoreEntries(schema: Schema, hash: Hash, kt: KeyType, vt: Type, v: Value, l: MapLayout, cs: seq<seq<u32>>)
    requires v.VMap? && ListsKeys(l.ordered, v.entries) && EncodesKeys(kt, l.ordered, l.ks)
    requires AllConveyed(schema, hash, vt, ValuesOf(v, l.ordered), cs)
    ensures EntriesConveyed(schema, hash, kt, vt, v, l.ordered, cs)
  {
    hide Conveys;
    forall i | 0 <= i < |l.ordered| ensures MatchesKey(kt, l.ordered[i]) {
      assert EncodesKey(kt, l.ordered[i], l.ks[i]);
    }
  }

  /** A map of framed values is framed, and conveys the map when they convey theirs. */
  lemma MapFramed(schema: Schema, hash: Hash, ty: Type, kt: KeyType, vt: Type, v: Value, l: MapLayout)
    requires EntryType(schema, ty) == Some((kt, vt)) && v.VMap? && ListsKeys(l.ordered, v.entries)
        && Planted(l, hash, kt) && l.ordered != []
    requires AllFramed(schema, hash, vt, ValuesOf(v, l.ordered), l.es)
    ensures |l.index| >= 4 && |l.ks| == |l.es|
    ensures Framed(schema, hash, ty, v, MapWords(l.index, l.ks, l.es))
    ensures AllConveyed(schema, hash, vt, ValuesOf(v, l.ordered), l.es) ==>
        Conveys(schema, hash, ty, v, MapWords(l.index, l.ks, l.es))
  {
    hide BestWidth, MapCore, MapWords, Conveys, CoreWords, Cellable, AllFramed, AllConveyed, CoresOf, Arranged,
         IndexFor, MapSized, EncodesKeys;
    var vs := ValuesOf(v, l.ordered);
    var cs := CoreWords(schema, hash, vt, vs, l.es);
    NotEmptyLayout(l, hash, kt);
    FramedCells(schema, hash, vt, vs, l.es);
    MapConveys(schema, hash, ty, kt, vt, v, l, cs);
  }

  lemma NotEmptyLayout(l: MapLayout, hash: Hash, kt: KeyType)
    requires Planted(l, hash, kt) && l.ordered != []
    ensures l.es != [] && l.ks != []
  {
  }

  lemma EmptyMapConveys(schema: Schema, hash: Hash, ty: Type)
    requires EntryType(schema, ty).Some?
    ensures Conveys(schema, hash, ty, VMap(map[]), EMPTY_MAP)
  {
    hide NewMap, DetectObject, DetectMap, ReadMap, Locate, MatchesKey;
    var (kt, vt) := EntryType(schema, ty).value;
    forall suffix ensures MapOver(hash, kt, vt, [], [], EMPTY_MAP + suffix)
        && DetectObject(schema, ty, EMPTY_MAP + suffix) == Some(1) {
      EmptyMapParsed(suffix);
      EmptyMapReads(schema, kt, vt, EMPTY_MAP + suffix);
      ShapeReads(schema, ty, EMPTY_MAP + suffix);
      var view := NewMap(EMPTY_MAP + suffix).value;
      forall key ensures Find(view, hash, key).None? { FindIs(view, hash, key); }
    }
    assert EntriesConveyed(schema, hash, kt, vt, VMap(map[]), [], []);
    assert ConveysMap(schema, hash, kt, vt, VMap(map[]), EMPTY_MAP);
    ObjectConveys(schema, hash, ty, VMap(map[]), EMPTY_MAP);
  }

  // ----- records

  /** The words of the fields in id order; every present one starts with words that convey its field. */
  ghost predicate FieldsFramed(schema: Schema, hash: Hash, slots: seq<Slot>, fields: map<nat, Value>,
                               es: seq<seq<u32>>) {
    && |es| == |slots|
    && (forall id {:trigger es[id]} :: 0 <= id < |es| ==> (es[id] != [] <==> id in fields))
    && (forall id :: id in fields ==> Live(slots, id) && Framed(schema, hash, slots[id].ty, fields[id], es[id]))
  }

  ghost predicate FieldsWhole(schema: Schema, hash: Hash, slots: seq<Slot>, fields: map<nat, Value>, es: seq<seq<u32>>)
    requires FieldsFramed(schema, hash, slots, fields, es)
  {
    forall id :: id in fields ==> Conveys(schema, hash, slots[id].ty, fields[id], es[id])
  }

  ghost function FieldCores(schema: Schema, hash: Hash, slots: seq<Slot>, fields: map<nat, Value>,
                            es: seq<seq<u32>>): (cs: seq<seq<u32>>)
    requires FieldsFramed(schema, hash, slots, fields, es)
    ensures CoresOf(es, cs)
    ensures forall id :: id in fields ==> Conveys(schema, hash, slots[id].ty, fields[id], cs[id])
    ensures forall id :: id in fields ==> if IsScalar(slots[id].ty) then cs[id] == es[id] else NotAPointer(es[id])
    ensures FieldsWhole(schema, hash, slots, fields, es) ==> cs == es
  {
    hide Conveys, Framed, NotAPointer;
    assert forall id :: 0 <= id < |es| && id !in fields ==> es[id] == [];
    seq(|es|, id requires 0 <= id < |es| =>
          if id in fields && Framed(schema, hash, slots[id].ty, fields[id], es[id])
          then CoreIn(schema, hash, slots[id].ty, fields[id], es[id]) else [])
  }

  ghost function FieldMap(fields: map<nat, Value>, cs: seq<seq<u32>>): (m: map<nat, seq<u32>>)
    requires forall id :: id in fields ==> id < |cs|
    ensures (forall id :: id in m <==> id in fields) && forall id :: id in m ==> m[id] == cs[id]
  {
    map id | id in fields :: cs[id]
  }

  /** What the layout of a record needs of its fields, and the cores of its fields. */
  ghost predicate Cored(schema: Schema, hash: Hash, slots: seq<Slot>, fields: map<nat, Value>, es: seq<seq<u32>>,
                        cs: seq<seq<u32>>) {
    && FieldsFramed(schema, hash, slots, fields, es) && CoresOf(es, cs)
    && forall id :: id in fields ==>
         && Conveys(schema, hash, slots[id].ty, fields[id], cs[id])
         && if IsScalar(slots[id].ty) then cs[id] == es[id] && |es[id]| <= 3 else NotAPointer(es[id])
  }

  lemma CoreRecordOver(schema: Schema, hash: Hash, slots: seq<Slot>, fields: map<nat, Value>, es: seq<seq<u32>>,
                       cs: seq<seq<u32>>, last: nat, rest: seq<u32>)
    requires Cored(schema, hash, slots, fields, es, cs) && RecordFits(es) && CountsFit(es, last)
    ensures RecordOver(slots, FieldMap(fields, cs), RecordCore(es, cs, last) + rest)
  {
    hide RecordCore, RecordWords, FieldIn, CountsFit, DataSize, Trim, StartsWith, Framed, Conveys, NotAPointer,
         IsMessage, Payload, ShowsCore;
    var words, m := RecordCore(es, cs, last) + rest, FieldMap(fields, cs);
    CoreIsMessage(es, cs, last, rest);
    forall id: nat | Live(slots, id)
      ensures FieldIn(words, id).Some? <==> id in m
      ensures id in m ==> StartsWith(FieldIn(words, id).value, m[id], IsScalar(slots[id].ty))
    {
      RecordCoreReads(es, cs, last, rest, id);
      if id in m {
        assert CoreShown(es, cs, last, words, id, FieldIn(words, id).value) && es[id] == es[id];
        ConveysStart(schema, hash, slots[id].ty, fields[id], cs[id]);
        CoreStarts(FieldIn(words, id).value, es[id], cs[id], IsScalar(slots[id].ty));
      }
    }
  }

  lemma FieldDetected(schema: Schema, hash: Hash, slots: seq<Slot>, fields: map<nat, Value>, es: seq<seq<u32>>,
                      cs: seq<seq<u32>>, detect: FieldDetector, id: nat)
    requires Cored(schema, hash, slots, fields, es, cs) && id in fields && id < |es| && NeedsDetect(slots)(id)
    requires forall field: FieldView :: detect.requires(id, field) ==>
        detect(id, field) == DetectField(schema, slots[id].ty, field)
    ensures DetectsField(detect, id, es[id], cs[id])
  {
    hide DetectField, Conveys, Framed, ShowsCore, DetectsCore, NotAPointer;
    forall field: FieldView | detect.requires(id, field) && field.width <= 3 && ShowsCore(field, es[id], cs[id])
      ensures DetectsCore(detect(id, field), field, es[id], cs[id])
    {
      CellDetected(schema, hash, slots[id].ty, fields[id], es[id], cs[id], field);
    }
  }

  lemma CoreRecordDetects(schema: Schema, hash: Hash, slots: seq<Slot>, fields: map<nat, Value>, es: seq<seq<u32>>,
                          cs: seq<seq<u32>>, last: nat, rest: seq<u32>)
    requires Cored(schema, hash, slots, fields, es, cs) && RecordFits(es) && CountsFit(es, last)
    ensures DetectRecord(schema, slots, RecordCore(es, cs, last) + rest) == Some(|RecordCore(es, cs, last)|)
  {
    hide RecordCore, RecordWords, CountsFit, DataSize, Trim, Framed, Conveys, NotAPointer, MessageExtent, DetectField,
         DetectsField;
    var words, needs := RecordCore(es, cs, last) + rest, NeedsDetect(slots);
    var detect: FieldDetector := (id: nat, field: FieldView) requires id < |slots| && |field.tail| < |words| =>
      if Live(slots, id) then DetectField(schema, slots[id].ty, field) else None;
    forall id: nat | id < |es| && es[id] != [] && needs(id) ensures DetectsField(detect, id, es[id], cs[id]) {
      FieldDetected(schema, hash, slots, fields, es, cs, detect, id);
    }
    forall id: nat | id < |es| && !needs(id) ensures |es[id]| <= 3 {
      assert es[id] != [] ==> id in fields;
    }
    RecordCoreExtent(es, cs, last, rest, needs, detect);
  }

  lemma CoreFields(schema: Schema, hash: Hash, slots: seq<Slot>, fields: map<nat, Value>, es: seq<seq<u32>>,
                   cs: seq<seq<u32>>)
    requires Cored(schema, hash, slots, fields, es, cs)
    ensures (forall id :: id in fields ==> id < |cs|)
    ensures FieldsConveyed(schema, hash, slots, VRecord(fields), FieldMap(fields, cs))
  {
    hide Conveys, Framed, NotAPointer;
  }

  lemma RecordConveys(schema: Schema, hash: Hash, name: Name, fields: map<nat, Value>, es: seq<seq<u32>>,
                      cs: seq<seq<u32>>, last: nat)
    requires name in schema && schema[name].Record? && Cored(schema, hash, schema[name].slots, fields, es, cs)
    requires RecordFits(es) && CountsFit(es, last)
    ensures Sections(|Trim(es)|) <= 0xff
    ensures Conveys(schema, hash, Message(name), VRecord(fields), RecordCore(es, cs, last))
  {
    hide RecordCore, RecordFits, CountsFit, RecordOver, DetectObject, Conveys, NotAPointer, DetectRecord,
         FieldsConveyed, FieldsFramed, FieldMap, CoresOf, ConveysObject;
    FitsSections(es);
    var core, slots := RecordCore(es, cs, last), schema[name].slots;
    CoreFields(schema, hash, slots, fields, es, cs);
    CoreIsMessage(es, cs, last, []);
    var m := FieldMap(fields, cs);
    forall suffix ensures RecordOver(slots, m, core + suffix)
        && DetectObject(schema, Message(name), core + suffix) == Some(|core|) {
      CoreRecordOver(schema, hash, slots, fields, es, cs, last, suffix);
      CoreRecordDetects(schema, hash, slots, fields, es, cs, last, suffix);
      ShapeReads(schema, Message(name), core + suffix);
    }
    assert ConveysRecord(schema, hash, slots, VRecord(fields), core);
    RecordIsObject(schema, hash, name, VRecord(fields), core);
    ObjectConveys(schema, hash, Message(name), VRecord(fields), core);
  }

  lemma RecordIsObject(schema: Schema, hash: Hash, name: Name, v: Value, words: seq<u32>)
    requires name in schema && schema[name].Record? && ConveysRecord(schema, hash, schema[name].slots, v, words)
    ensures ConveysObject(schema, hash, Message(name), v, words)
  {
    hide ConveysRecord;
  }

  lemma ScalarCells(schema: Schema, hash: Hash, slots: seq<Slot>, fields: map<nat, Value>, es: seq<seq<u32>>)
    requires FieldsFramed(schema, hash, slots, fields, es)
    ensures Cored(schema, hash, slots, fields, es, FieldCores(schema, hash, slots, fields, es))
  {
    hide Framed, NotAPointer;
    var cs := FieldCores(schema, hash, slots, fields, es);
    forall id | id in fields && IsScalar(slots[id].ty) ensures |es[id]| <= 3 {
      assert Conveys(schema, hash, slots[id].ty, fields[id], cs[id]);
    }
  }

  /** A record of framed fields is framed, and conveys the record when they convey theirs. */
  lemma RecordFramed(schema: Schema, hash: Hash, name: Name, fields: map<nat, Value>, es: seq<seq<u32>>, last: nat)
    requires name in schema && schema[name].Record? && FieldsFramed(schema, hash, schema[name].slots, fields, es)
    requires RecordFits(es) && CountsFit(es, last)
    ensures Sections(|Trim(es)|) <= 0xff
    ensures Framed(schema, hash, Message(name), VRecord(fields), RecordWords(es, last))
    ensures FieldsWhole(schema, hash, schema[name].slots, fields, es) ==>
              Conveys(schema, hash, Message(name), VRecord(fields), RecordWords(es, last))
  {
    hide RecordCore, RecordWords, RecordFits, CountsFit, Conveys, FieldsFramed, FieldsWhole, Cored, FieldCores, CoresOf;
    FitsSections(es);
    var cs := FieldCores(schema, hash, schema[name].slots, fields, es);
    ScalarCells(schema, hash, schema[name].slots, fields, es);
    RecordConveys(schema, hash, name, fields, es, cs, last);
  }

  // ----- the wire format conveys its values

  /** Words in the wire format convey their value. */
  lemma {:induction false} FormatConveys(schema: Schema, hash: Hash, ty: Type, v: Value, words: seq<u32>)
    requires EncodingOf(schema, hash, ty, v, words)
    ensures Conveys(schema, hash, ty, v, words)
    decreases v, 1
  {
    hide Conveys, ListEncoding, MapEncoding, RecordEncoding, StringWords;
    if IsScalar(ty) || ty.Text? {
      PlainConveys(schema, hash, ty, v, words);
    } else if ItemType(schema, ty).Some? {
      ListConveyed(schema, hash, ty, ItemType(schema, ty).value, v, words);
    } else if EntryType(schema, ty).Some? {
      MapConveyed(schema, hash, ty, EntryType(schema, ty).value.0, EntryType(schema, ty).value.1, v, words);
    } else {
      RecordConveyed(schema, hash, ty.name, v, words);
    }
  }

  lemma PlainConveys(schema: Schema, hash: Hash, ty: Type, v: Value, words: seq<u32>)
    requires (IsScalar(ty) || ty.Text?) && EncodingOf(schema, hash, ty, v, words)
    ensures Conveys(schema, hash, ty, v, words)
  {
    hide StringWords;
  }

  lemma {:induction false} ListConveyed(schema: Schema, hash: Hash, ty: Type, item: Type, v: Value, words: seq<u32>)
    requires ItemType(schema, ty) == Some(item) && ListEncoding(schema, hash, item, v, words)
    ensures Conveys(schema, hash, ty, v, words)
    decreases v, 0
  {
    hide Conveys, C.ArrayWords, StringWords, EncodingOf, Cost, BestWidth;
    if item.Bool? {
      BoolsConvey(schema, hash, ty, v.items);
    } else if v.items == [] {
      EmptyListConveys(schema, hash, ty, item);
    } else {
      var es :| ElementsOf(schema, hash, item, v, es) && ArrayFits(es) && words == C.ArrayWords(es);
      forall i | 0 <= i < |es|
        ensures Conveys(schema, hash, item, v.items[i], es[i]) && Framed(schema, hash, item, v.items[i], es[i])
      {
        FormatConveys(schema, hash, item, v.items[i], es[i]);
        FramesWhole(schema, hash, item, v.items[i], es[i]);
      }
      ListFramed(schema, hash, ty, item, v.items, es);
    }
  }

  lemma {:induction false} MapConveyed(schema: Schema, hash: Hash, ty: Type, kt: KeyType, vt: Type, v: Value,
                                       words: seq<u32>)
    requires EntryType(schema, ty) == Some((kt, vt)) && MapEncoding(schema, hash, kt, vt, v, words)
    ensures Conveys(schema, hash, ty, v, words)
    decreases v, 0
  {
    hide Conveys, MapWords, EncodingOf, MapSized, IndexFor, EncodesKeys, Framed, Arranged;
    if v.entries == map[] {
      EmptyMapConveys(schema, hash, ty);
    } else {
      var l := LayoutExists(schema, hash, kt, vt, v, words);
      var vs := ValuesOf(v, l.ordered);
      forall i | 0 <= i < |l.es|
        ensures Conveys(schema, hash, vt, vs[i], l.es[i]) && Framed(schema, hash, vt, vs[i], l.es[i])
      {
        assert EncodingOf(schema, hash, vt, v.entries[l.ordered[i]], l.es[i]);
        FormatConveys(schema, hash, vt, v.entries[l.ordered[i]], l.es[i]);
        FramesWhole(schema, hash, vt, vs[i], l.es[i]);
      }
      MapFramed(schema, hash, ty, kt, vt, v, l);
    }
  }

  lemma {:induction false} RecordConveyed(schema: Schema, hash: Hash, name: Name, v: Value, words: seq<u32>)
    requires name in schema && schema[name].Record? && RecordEncoding(schema, hash, schema[name].slots, v, words)
    ensures Conveys(schema, hash, Message(name), v, words)
    decreases v, 0
  {
    hide Conveys, RecordWords, CountsFit, EncodingOf, DataSize, Trim, Framed;
    var slots := schema[name].slots;
    var es, last :| FieldsOf(schema, hash, slots, v, es) && RecordFits(es) && CountsFit(es, last)
        && words == RecordWords(es, last);
    forall id | id in v.fields
      ensures Conveys(schema, hash, slots[id].ty, v.fields[id], es[id])
          && Framed(schema, hash, slots[id].ty, v.fields[id], es[id])
    {
      FormatConveys(schema, hash, slots[id].ty, v.fields[id], es[id]);
      FramesWhole(schema, hash, slots[id].ty, v.fields[id], es[id]);
    }
    RecordFramed(schema, hash, name, v.fields, es, last);
  }

  /** Words in the wire format read as their value in any place, and detection finds exactly them. */
  lemma FormatReads(schema: Schema, hash: Hash, ty: Type, v: Value, words: seq<u32>)
    requires EncodingOf(schema, hash, ty, v, words)
    ensures Encodes(schema, ty, v, words)
  {
    hide EncodingOf, Conveys, Encodes;
    FormatConveys(schema, hash, ty, v, words);
    ConveysReads(schema, hash, ty, v, words);
  }

  // ----- what detection finds in framed words

  lemma CoreExtent(schema: Schema, hash: Hash, ty: Type, v: Value, core: seq<u32>, rest: seq<u32>)
    requires Conveys(schema, hash, ty, v, core) && !IsScalar(ty)
    ensures DetectObject(schema, ty, core + rest) == Some(|core|)
    ensures ReadObject(schema, ty, core + rest) == Some(v)
  {
    hide Conveys, DetectObject, ReadObject;
    ConveysReads(schema, hash, ty, v, core);
  }

  /** Framed words read as the value in any place. What detection finds in them conveys the value, and
      is all of them exactly when they convey it themselves. */
  lemma DetectedPrefix(schema: Schema, hash: Hash, ty: Type, v: Value, words: seq<u32>, suffix: seq<u32>)
    requires Framed(schema, hash, ty, v, words) && !IsScalar(ty)
    ensures ReadObject(schema, ty, words + suffix) == Some(v)
    ensures var end := DetectObject(schema, ty, words + suffix);
            && end.Some? && 1 <= end.value <= |words|
            && Conveys(schema, hash, ty, v, words[..end.value])
            && (end.value == |words| <==> Conveys(schema, hash, ty, v, words))
  {
    hide Conveys, DetectObject, ReadObject, Framed;
    var core := CoreIn(schema, hash, ty, v, words);
    var rest := words[|core|..];
    CoreExtent(schema, hash, ty, v, core, rest + suffix);
    assert words + suffix == core + (rest + suffix);
    assert words[..|core|] == core && (|core| == |words| ==> words == core);
  }

  /** Framed words stay framed in front of any others. */
  lemma FramedMore(schema: Schema, hash: Hash, ty: Type, v: Value, words: seq<u32>, suffix: seq<u32>)
    requires Framed(schema, hash, ty, v, words) && !IsScalar(ty)
    ensures Framed(schema, hash, ty, v, words + suffix)
  {
    hide Conveys;
    var core := CoreIn(schema, hash, ty, v, words);
    assert core <= words + suffix;
  }
}
