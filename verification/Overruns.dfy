/** Serialized mutable messages in which some count has overflowed: the cells in front of a section of
    a message that was written anew, or the elements of a scalar list. */
module Overruns {
  import opened Bits
  import opened Cells
  import C = Containers
  import opened MapContainers
  import opened ContainerReading
  import opened Views
  import opened Messages
  import opened Records
  import opened Schemas
  import opened MapKeys
  import opened Counting
  import opened AccessSets
  import opened MutableValues

  /** A field that may be written: present in the source, or stored and not a default. */
  predicate Occupied(st: State, id: nat) {
    if Has(st.accessed, id) then id in st.slots && !IsEmptyField(st.slots[id])
    else st.words.Some? && FieldIn(st.words.value, id).Some?
  }

  function OccupiedFields(slots: seq<Slot>, st: State): set<nat> {
    set id: nat | id < |slots| && Live(slots, id) && Occupied(st, id)
  }

  /** A count has overflowed in these words. Messages copied from their source are not counted again. */
  ghost predicate Overrun(schema: Schema, ty: Type, mv: MValue, words: seq<u32>)
    decreases mv, 2
  {
    match mv
    case MList(_) =>
      var item := ItemType(schema, ty);
      && item.Some?
      && if item.value.Scalar? then |mv.items| >= C.MAX_SIZE else ListOverrun(schema, item.value, mv, words)
    case MMap(_) =>
      EntryType(schema, ty).Some? && MapOverrun(schema, EntryType(schema, ty).value.1, mv, words)
    case MMessage(st) =>
      RecordSlots(schema, ty).Some? && !IsClean(st) && RecordOverrun(schema, RecordSlots(schema, ty).value, st, words)
    case _ => false
  }

  ghost predicate ListOverrun(schema: Schema, item: Type, mv: MValue, words: seq<u32>)
    requires mv.MList?
    decreases mv, 1
  {
    exists es: seq<seq<u32>>, i: nat {:trigger ItemOverrun(schema, item, mv, es, i)} ::
      ArrayFits(es) && words == C.ArrayWords(es) && ItemOverrun(schema, item, mv, es, i)
  }

  ghost predicate MapOverrun(schema: Schema, vt: Type, mv: MValue, words: seq<u32>)
    requires mv.MMap?
    decreases mv, 1
  {
    exists index: seq<u8>, ordered: seq<Key>, ks: seq<seq<u32>>, es: seq<seq<u32>>, i: nat
        {:trigger MapWords(index, ks, es), EntryOverrun(schema, vt, mv, ordered, es, i)} ::
      && |index| >= 4 && |ks| == |es| && words == MapWords(index, ks, es)
      && EntryOverrun(schema, vt, mv, ordered, es, i)
  }

  ghost predicate RecordOverrun(schema: Schema, slots: seq<Slot>, st: State, words: seq<u32>)
    decreases st, 3
  {
    exists es: seq<seq<u32>>, last: nat {:trigger RecordWords(es, last)} ::
      && Sections(|Trim(es)|) <= 0xff && words == RecordWords(es, last)
      && (SectionOverrun(slots, st, es, last) || AnyOverrun(schema, slots, st, es))
  }

  /** In the words of some field. */
  ghost predicate AnyOverrun(schema: Schema, slots: seq<Slot>, st: State, es: seq<seq<u32>>)
    decreases st, 2
  {
    exists id: nat {:trigger FieldOverrun(schema, slots, st, es, id)} :: FieldOverrun(schema, slots, st, es, id)
  }

  ghost predicate ItemOverrun(schema: Schema, item: Type, mv: MValue, es: seq<seq<u32>>, i: nat)
    requires mv.MList?
    decreases mv, 0
  {
    i < |es| == |mv.items| && Overrun(schema, item, mv.items[i], es[i])
  }

  ghost predicate EntryOverrun(schema: Schema, vt: Type, mv: MValue, ordered: seq<Key>, es: seq<seq<u32>>, i: nat)
    requires mv.MMap?
    decreases mv, 0
  {
    && i < |es| == |ordered| && ListsKeys(ordered, mv.entries)
    && ordered[i] in mv.entries && Overrun(schema, vt, mv.entries[ordered[i]], es[i])
  }

  /** The running count of the present fields has overflowed in front of some section. */
  ghost predicate SectionOverrun(slots: seq<Slot>, st: State, es: seq<seq<u32>>, last: nat) {
    CellsOfTypes(slots, OccupiedFields(slots, st), es) && !CountsFit(es, last)
  }

  ghost predicate FieldOverrun(schema: Schema, slots: seq<Slot>, st: State, es: seq<seq<u32>>, id: nat)
    decreases st, 1
  {
    id < |es| && es[id] != [] && Live(slots, id) && SlotOverrun(schema, slots, st, id, es[id])
  }

  ghost predicate SlotOverrun(schema: Schema, slots: seq<Slot>, st: State, id: nat, e: seq<u32>)
    requires Live(slots, id)
    decreases st, 0
  {
    id in st.slots && Has(st.accessed, id) && Overrun(schema, slots[id].ty, st.slots[id], e)
  }

  /** No count has overflowed in the words of field `id`. */
  ghost predicate FieldSound(schema: Schema, slots: seq<Slot>, st: State, id: nat, e: seq<u32>)
    requires Live(slots, id)
  {
    e == [] || !SlotOverrun(schema, slots, st, id, e)
  }

  ghost predicate AllSound(schema: Schema, slots: seq<Slot>, st: State, es: seq<seq<u32>>) {
    forall id {:trigger es[id]} :: 0 <= id < |es| && Live(slots, id) ==> FieldSound(schema, slots, st, id, es[id])
  }

  // ----- parts of words without an overflow

  lemma ItemsSound(schema: Schema, ty: Type, mv: MValue, es: seq<seq<u32>>)
    requires mv.MList? && ItemType(schema, ty).Some? && !ItemType(schema, ty).value.Scalar?
    requires ArrayFits(es) && |es| == |mv.items| && !Overrun(schema, ty, mv, C.ArrayWords(es))
    ensures forall i :: 0 <= i < |es| ==> !Overrun(schema, ItemType(schema, ty).value, mv.items[i], es[i])
  {
    hide C.ArrayWords, Cost, BestWidth;
    forall i: nat | i < |es| ensures !Overrun(schema, ItemType(schema, ty).value, mv.items[i], es[i]) {
      assert !ItemOverrun(schema, ItemType(schema, ty).value, mv, es, i);
    }
  }

  lemma EntriesSound(schema: Schema, ty: Type, mv: MValue, index: seq<u8>, ordered: seq<Key>, ks: seq<seq<u32>>,
                     es: seq<seq<u32>>)
    requires mv.MMap? && EntryType(schema, ty).Some? && ListsKeys(ordered, mv.entries)
    requires |index| >= 4 && |ks| == |es| == |ordered| && !Overrun(schema, ty, mv, MapWords(index, ks, es))
    ensures forall i :: 0 <= i < |es| ==>
              ordered[i] in mv.entries && !Overrun(schema, EntryType(schema, ty).value.1, mv.entries[ordered[i]], es[i])
  {
    hide MapWords;
    forall i: nat | i < |es|
      ensures ordered[i] in mv.entries && !Overrun(schema, EntryType(schema, ty).value.1, mv.entries[ordered[i]], es[i])
    {
      assert ordered[i] in ordered;
      assert !EntryOverrun(schema, EntryType(schema, ty).value.1, mv, ordered, es, i);
    }
  }

  lemma ScalarsSound(schema: Schema, ty: Type, mv: MValue, words: seq<u32>)
    requires mv.MList? && ItemType(schema, ty).Some? && ItemType(schema, ty).value.Scalar?
    requires !Overrun(schema, ty, mv, words)
    ensures |mv.items| < C.MAX_SIZE
  {
  }

  lemma FieldsSound(schema: Schema, name: Name, st: State, es: seq<seq<u32>>, last: nat)
    requires name in schema && schema[name].Record? && !IsClean(st) && Sections(|Trim(es)|) <= 0xff
    requires !Overrun(schema, Message(name), MMessage(st), RecordWords(es, last))
    ensures !SectionOverrun(schema[name].slots, st, es, last)
    ensures AllSound(schema, schema[name].slots, st, es)
  {
    hide RecordWords, Trim, SectionOverrun, SlotOverrun;
    assert !RecordOverrun(schema, schema[name].slots, st, RecordWords(es, last));
    assert !AnyOverrun(schema, schema[name].slots, st, es);
    forall id: nat | id < |es| && Live(schema[name].slots, id)
      ensures FieldSound(schema, schema[name].slots, st, id, es[id])
    {
      assert !FieldOverrun(schema, schema[name].slots, st, es, id);
    }
  }

  /** Nothing overflows in a single word. */
  lemma OneWordSound(schema: Schema, ty: Type, mv: MValue, words: seq<u32>)
    requires mv.MMessage? && |words| == 1
    ensures !Overrun(schema, ty, mv, words)
  {
    hide RecordWords, Trim, CellsOfTypes, Overrun, OccupiedFields;
    if Overrun(schema, ty, mv, words) { LongOverrun(schema, ty, mv, words); }
  }

  lemma LongOverrun(schema: Schema, ty: Type, mv: MValue, words: seq<u32>)
    requires mv.MMessage? && Overrun(schema, ty, mv, words)
    ensures |words| >= 2
  {
    hide RecordOverrun, SectionOverrun, AnyOverrun, RecordWords, Trim;
    var slots := RecordSlots(schema, ty).value;
    var es, last := OverrunFields(schema, slots, mv.state, words);
    OverrunPresent(schema, slots, mv.state, es, last);
    HasBody(es, last);
  }

  lemma OverrunPresent(schema: Schema, slots: seq<Slot>, st: State, es: seq<seq<u32>>, last: nat)
    requires SectionOverrun(slots, st, es, last) || AnyOverrun(schema, slots, st, es)
    ensures Trim(es) != []
  {
    hide Trim, SlotOverrun, AnyOverrun;
    if !SectionOverrun(slots, st, es, last) {
      var id := OverrunField(schema, slots, st, es);
      InTrim(es, id);
    }
  }

  // ----- values no count of which can overflow

  /** The types of the present fields leave room for every section count of every message that will be
      written, and scalar lists have fewer than 2^30 elements. */
  predicate MCountable(schema: Schema, ty: Type, mv: MValue)
    decreases mv
  {
    match mv
    case MList(items) =>
      var item := ItemType(schema, ty);
      item.Some? ==>
        && (item.value.Scalar? ==> |items| < C.MAX_SIZE)
        && forall i :: 0 <= i < |items| ==> MCountable(schema, item.value, items[i])
    case MMap(entries) =>
      var entry := EntryType(schema, ty);
      entry.Some? ==> forall key :: key in entries ==> MCountable(schema, entry.value.1, entries[key])
    case MMessage(st) =>
      var slots := RecordSlots(schema, ty);
      slots.Some? && !IsClean(st) ==>
        && Roomy(slots.value, OccupiedFields(slots.value, st))
        && forall id :: id in st.slots && Live(slots.value, id) && Has(st.accessed, id) ==>
             MCountable(schema, slots.value[id].ty, st.slots[id])
    case _ => true
  }

  lemma {:induction false} CountableSound(schema: Schema, ty: Type, mv: MValue, words: seq<u32>)
    requires MCountable(schema, ty, mv)
    ensures !Overrun(schema, ty, mv, words)
    decreases mv, 1
  {
    hide ListOverrun, MapOverrun, RecordOverrun, Roomy, Has, OccupiedFields;
    match mv {
      case MList(_) =>
        if ItemType(schema, ty).Some? { CountableList(schema, ItemType(schema, ty).value, mv, words); }
      case MMap(_) =>
        if EntryType(schema, ty).Some? { CountableMap(schema, EntryType(schema, ty).value.1, mv, words); }
      case MMessage(st) =>
        if RecordSlots(schema, ty).Some? && !IsClean(st) {
          CountableRecord(schema, RecordSlots(schema, ty).value, st, words);
        }
      case _ =>
    }
  }

  lemma {:induction false} CountableList(schema: Schema, item: Type, mv: MValue, words: seq<u32>)
    requires mv.MList? && forall i :: 0 <= i < |mv.items| ==> MCountable(schema, item, mv.items[i])
    ensures !ListOverrun(schema, item, mv, words)
    decreases mv, 0
  {
    hide Overrun, ListOverrun;
    if ListOverrun(schema, item, mv, words) {
      var es, i := OverrunItem(schema, item, mv, words);
      CountableSound(schema, item, mv.items[i], es[i]);
    }
  }

  lemma OverrunItem(schema: Schema, item: Type, mv: MValue, words: seq<u32>) returns (es: seq<seq<u32>>, i: nat)
    requires mv.MList? && ListOverrun(schema, item, mv, words)
    ensures ItemOverrun(schema, item, mv, es, i)
  {
    hide Overrun, C.ArrayWords, Cost, BestWidth;
    es, i :| ItemOverrun(schema, item, mv, es, i);
  }

  lemma {:induction false} CountableMap(schema: Schema, vt: Type, mv: MValue, words: seq<u32>)
    requires mv.MMap? && forall key :: key in mv.entries ==> MCountable(schema, vt, mv.entries[key])
    ensures !MapOverrun(schema, vt, mv, words)
    decreases mv, 0
  {
    hide Overrun, MapOverrun, ListsKeys;
    if MapOverrun(schema, vt, mv, words) {
      var ordered, es, i := OverrunEntry(schema, vt, mv, words);
      CountableSound(schema, vt, mv.entries[ordered[i]], es[i]);
    }
  }

  lemma OverrunEntry(schema: Schema, vt: Type, mv: MValue, words: seq<u32>)
    returns (ordered: seq<Key>, es: seq<seq<u32>>, i: nat)
    requires mv.MMap? && MapOverrun(schema, vt, mv, words)
    ensures EntryOverrun(schema, vt, mv, ordered, es, i)
  {
    hide Overrun, MapWords, ListsKeys;
    ordered, es, i :| EntryOverrun(schema, vt, mv, ordered, es, i);
  }

  lemma {:induction false} CountableRecord(schema: Schema, slots: seq<Slot>, st: State, words: seq<u32>)
    requires Roomy(slots, OccupiedFields(slots, st))
    requires forall id :: id in st.slots && Live(slots, id) && Has(st.accessed, id) ==>
               MCountable(schema, slots[id].ty, st.slots[id])
    ensures !RecordOverrun(schema, slots, st, words)
    decreases st, 0
  {
    hide Overrun, RecordOverrun, CountsFit, Roomy, OccupiedFields, CellsOfTypes, Has, AnyOverrun;
    if RecordOverrun(schema, slots, st, words) {
      var es, last := OverrunFields(schema, slots, st, words);
      if SectionOverrun(slots, st, es, last) {
        RoomyFits(slots, OccupiedFields(slots, st), es, last);
      } else {
        var id := OverrunField(schema, slots, st, es);
        CountableSound(schema, slots[id].ty, st.slots[id], es[id]);
      }
    }
  }

  lemma OverrunFields(schema: Schema, slots: seq<Slot>, st: State, words: seq<u32>)
    returns (es: seq<seq<u32>>, last: nat)
    requires RecordOverrun(schema, slots, st, words)
    ensures Sections(|Trim(es)|) <= 0xff && words == RecordWords(es, last)
    ensures SectionOverrun(slots, st, es, last) || AnyOverrun(schema, slots, st, es)
  {
    hide RecordWords, Trim, SectionOverrun, AnyOverrun;
    es, last :| Sections(|Trim(es)|) <= 0xff && words == RecordWords(es, last)
      && (SectionOverrun(slots, st, es, last) || AnyOverrun(schema, slots, st, es));
  }

  lemma OverrunField(schema: Schema, slots: seq<Slot>, st: State, es: seq<seq<u32>>) returns (id: nat)
    requires AnyOverrun(schema, slots, st, es)
    ensures FieldOverrun(schema, slots, st, es, id)
  {
    hide SlotOverrun;
    id :| FieldOverrun(schema, slots, st, es, id);
  }
}
